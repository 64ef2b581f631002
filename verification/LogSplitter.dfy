/** The line splitter of logwrapper (vold/logwrapper.c, netd/logwrapper.c): a child's output is
    read in pieces of any size into a 4096-byte buffer and logged line by line. What is logged
    does not depend on how the reads cut the stream. */
module LogSplitter {
  import opened Bytes

  const NL: Byte := 10
  const CR: Byte := 13

  /** A logged piece of the stream: its bytes, and whether a newline ended it. */
  datatype Piece = Piece(bytes: seq<Byte>, newline: bool)

  datatype State = State(pending: seq<Byte>, out: seq<Piece>)

  function Cook(c: Byte): Byte { if c == CR then 0 else c }

  // ---------------------------------------------------------- one character at a time

  /** One character: a newline ends the piece, and so does the `cap`-th pending byte. */
  function Step(cap: nat, st: State, c: Byte): State {
    if c == NL then State([], st.out + [Piece(st.pending, true)])
    else
      var p := st.pending + [Cook(c)];
      if |p| == cap then State([], st.out + [Piece(p, false)]) else State(p, st.out)
  }

  function Run(cap: nat, st: State, s: seq<Byte>): State {
    if s == [] then st else Step(cap, Run(cap, st, s[..|s| - 1]), s[|s| - 1])
  }

  /** The pieces of a whole stream: a non-empty tail is flushed. */
  function Split(s: seq<Byte>): seq<Piece> {
    Flushed(Run(4095, State([], []), s))
  }

  function Flushed(st: State): seq<Piece> {
    if st.pending == [] then st.out else st.out + [Piece(st.pending, false)]
  }

  /** What the log shows of them: each piece as a C string. */
  function Texts(ps: seq<Piece>): (r: seq<seq<Byte>>)
    ensures |r| == |ps|
    ensures forall i :: 0 <= i < |ps| ==> r[i] == CString(ps[i].bytes)
  {
    seq(|ps|, i requires 0 <= i < |ps| => CString(ps[i].bytes))
  }

  // ------------------------------------------- what the reference means, without running it

  /** The stream with every '\r' turned into NUL. */
  function Cooked(s: seq<Byte>): (r: seq<Byte>)
    ensures |r| == |s|
    ensures forall i :: 0 <= i < |s| ==> r[i] == if s[i] == 13 then 0 else s[i]
  {
    seq(|s|, i requires 0 <= i < |s| => Cook(s[i]))
  }

  function Raw(p: Piece): seq<Byte> { if p.newline then p.bytes + [NL] else p.bytes }

  function Joined(ps: seq<Piece>): seq<Byte> {
    if ps == [] then [] else Joined(ps[..|ps| - 1]) + Raw(ps[|ps| - 1])
  }

  /** A piece holds no newline; it ends at one before the 4095th byte, or at the 4095th byte. */
  predicate WellCut(p: Piece) {
    NL !in p.bytes && if p.newline then |p.bytes| < 4095 else |p.bytes| == 4095
  }

  predicate AllWellCut(ps: seq<Piece>) { forall i :: 0 <= i < |ps| ==> WellCut(ps[i]) }

  predicate Tail(p: seq<Byte>) { NL !in p && |p| < 4095 }

  /** The reference loses nothing, and cuts only where it should. */
  lemma {:induction false} RunCuts(s: seq<Byte>)
    ensures var st := Run(4095, State([], []), s);
      && AllWellCut(st.out) && Tail(st.pending)
      && Joined(st.out) + st.pending == Cooked(s)
    decreases |s|
  {
    if s != [] {
      var t, c := s[..|s| - 1], s[|s| - 1];
      RunCuts(t);
      assert Cooked(s) == Cooked(t) + [Cook(c)];
      StepCuts(Run(4095, State([], []), t), c);
    }
  }

  lemma StepCuts(st: State, c: Byte)
    requires AllWellCut(st.out) && Tail(st.pending)
    ensures var next := Step(4095, st, c);
      && AllWellCut(next.out) && Tail(next.pending)
      && Joined(next.out) + next.pending == Joined(st.out) + st.pending + [Cook(c)]
  {
    hide Joined;
    var p := st.pending + [Cook(c)];
    JoinedSnoc(st.out, Piece(st.pending, true));
    JoinedSnoc(st.out, Piece(p, false));
    Regroup(Joined(st.out), st.pending, [Cook(c)]);
  }

  lemma JoinedSnoc(ps: seq<Piece>, p: Piece)
    ensures Joined(ps + [p]) == Joined(ps) + Raw(p)
  {
    assert (ps + [p])[..|ps|] == ps;
  }

  /** There is only one way to cut a stream so. */
  lemma {:induction false} CutsUnique(ps: seq<Piece>, p: seq<Byte>, qs: seq<Piece>, q: seq<Byte>)
    requires AllWellCut(ps) && Tail(p) && AllWellCut(qs) && Tail(q)
    requires Joined(ps) + p == Joined(qs) + q
    ensures ps == qs && p == q
    decreases |ps| + |qs|
  {
    if ps == [] {
      if qs != [] { HeadTooLong(qs, q, p); }
    } else if qs == [] {
      HeadTooLong(ps, p, q);
    } else {
      JoinedFront(ps);
      JoinedFront(qs);
      Regroup(Raw(ps[0]), Joined(ps[1..]), p);
      Regroup(Raw(qs[0]), Joined(qs[1..]), q);
      HeadsAgree(ps[0], Joined(ps[1..]) + p, qs[0], Joined(qs[1..]) + q);
      CutsUnique(ps[1..], p, qs[1..], q);
      assert ps == [ps[0]] + ps[1..] && qs == [qs[0]] + qs[1..];
    }
  }

  lemma HeadTooLong(ps: seq<Piece>, p: seq<Byte>, q: seq<Byte>)
    requires ps != [] && AllWellCut(ps) && Tail(q)
    ensures Joined(ps) + p != q
  {
    JoinedFront(ps);
    var s := Raw(ps[0]) + Joined(ps[1..]) + p;
    if ps[0].newline {
      assert s[|ps[0].bytes|] == NL;
    }
  }

  lemma HeadsAgree(p: Piece, s: seq<Byte>, q: Piece, t: seq<Byte>)
    requires WellCut(p) && WellCut(q) && Raw(p) + s == Raw(q) + t
    ensures p == q && s == t
  {
    var all := Raw(p) + s;
    assert forall i :: 0 <= i < |p.bytes| ==> all[i] == p.bytes[i];
    assert forall i :: 0 <= i < |q.bytes| ==> all[i] == q.bytes[i];
    assert p.newline ==> all[|p.bytes|] == NL;
    assert q.newline ==> all[|q.bytes|] == NL;
    assert |p.bytes| == |q.bytes|;
    assert p.bytes == all[..|p.bytes|] == q.bytes;
    assert s == all[|Raw(p)|..] && t == all[|Raw(q)|..];
  }

  lemma {:induction false} JoinedFront(ps: seq<Piece>)
    requires ps != []
    ensures Joined(ps) == Raw(ps[0]) + Joined(ps[1..])
    decreases |ps|
  {
    var n := |ps| - 1;
    if n > 0 {
      JoinedFront(ps[..n]);
      assert ps[1..][..n - 1] == ps[..n][1..];
      Regroup(Raw(ps[0]), Joined(ps[1..][..n - 1]), Raw(ps[n]));
    } else {
      assert ps[..0] == [] && ps[1..] == [];
    }
  }

  lemma Regroup<X>(a: seq<X>, b: seq<X>, c: seq<X>)
    ensures (a + b) + c == a + (b + c)
  {
  }

  /** The stream cut into pieces of the promised shape and the unterminated rest. */
  predicate Cut(s: seq<Byte>, ps: seq<Piece>, tail: seq<Byte>) {
    AllWellCut(ps) && Tail(tail) && Joined(ps) + tail == Cooked(s)
  }

  /** So the reference is the one cut of the stream into pieces of the promised shape. */
  lemma SplitExactly(s: seq<Byte>, ps: seq<Piece>, tail: seq<Byte>)
    ensures Cut(s, ps, tail) <==> Run(4095, State([], []), s) == State(tail, ps)
  {
    RunCuts(s);
    if Cut(s, ps, tail) {
      var st := Run(4095, State([], []), s);
      CutsUnique(st.out, st.pending, ps, tail);
    }
  }

  /** What is logged: the pieces of the cut, then the rest unless it is empty. Every byte of the stream is
      in them. */
  lemma SplitPieces(s: seq<Byte>, ps: seq<Piece>, tail: seq<Byte>)
    requires Cut(s, ps, tail)
    ensures Split(s) == if tail == [] then ps else ps + [Piece(tail, false)]
    ensures Joined(Split(s)) == Cooked(s)
  {
    SplitExactly(s, ps, tail);
    if tail != [] { JoinedSnoc(ps, Piece(tail, false)); }
  }

  // ------------------------------------------------------------- why rescanning is harmless

  lemma {:induction false} RunConcat(cap: nat, st: State, s: seq<Byte>, t: seq<Byte>)
    ensures Run(cap, st, s + t) == Run(cap, Run(cap, st, s), t)
    decreases |t|
  {
    if t == [] {
      assert s + t == s;
    } else {
      var n := |t| - 1;
      RunConcat(cap, st, s, t[..n]);
      assert (s + t)[..|s + t| - 1] == s + t[..n];
    }
  }

  /** Left-overs hold neither '\n' nor '\r', since those were handled when first seen. */
  predicate Clean(p: seq<Byte>) { NL !in p && CR !in p }

  lemma {:induction false} PendingClean(s: seq<Byte>)
    ensures Clean(Run(4095, State([], []), s).pending)
    decreases |s|
  {
    if s != [] { PendingClean(s[..|s| - 1]); }
  }

  lemma {:induction false} Rescan(cap: nat, p: seq<Byte>, out: seq<Piece>)
    requires Clean(p) && |p| < cap
    ensures Run(cap, State([], out), p) == State(p, out)
    decreases |p|
  {
    if p != [] {
      Rescan(cap, p[..|p| - 1], out);
      assert p == p[..|p| - 1] + [p[|p| - 1]];
    }
  }

  /** A scan of at most 4095 bytes that leaves the full buffer for later differs from the reference
      only in the last step. */
  lemma {:induction false} CapLate(raw: seq<Byte>, out: seq<Piece>)
    requires |raw| <= 4095
    ensures var late := Run(4096, State([], out), raw);
      && |late.pending| <= |raw|
      && Run(4095, State([], out), raw)
         == if |late.pending| == 4095 then State([], late.out + [Piece(late.pending, false)]) else late
    decreases |raw|
  {
    if raw != [] { CapLate(raw[..|raw| - 1], out); }
  }

  /** Scanning the left-overs of `s` again together with the next bytes carries on the reference. */
  lemma CarriesOn(s: seq<Byte>, t: seq<Byte>)
    ensures var st := Run(4095, State([], []), s);
      Run(4095, State([], st.out), st.pending + t) == Run(4095, State([], []), s + t)
  {
    hide Run;
    var st := Run(4095, State([], []), s);
    RunCuts(s);
    PendingClean(s);
    Rescan(4095, st.pending, st.out);
    RunConcat(4095, State([], st.out), st.pending, t);
    RunConcat(4095, State([], []), s, t);
  }

  lemma TextsSnoc(ps: seq<Piece>, p: Piece)
    ensures Texts(ps + [p]) == Texts(ps) + [CString(p.bytes)]
  {
  }

  // ------------------------------------------------------------------------------ parent()

  /** How many bytes read() returns: any number up to what is offered and what is left, 0 at the end. */
  function Got(want: nat, offered: nat, left: nat): (r: nat)
    requires offered >= 1
    ensures r <= offered && r <= left && (r == 0 <==> left == 0)
  {
    var most := if offered <= left then offered else left;
    if left == 0 then 0 else if 1 <= want <= most then want else most
  }

  /** Log the C string that starts at buffer[a], the NUL at buffer[b] having been stored. */
  method Log(buffer: array<Byte>, a: nat, ghost b: nat, log: seq<seq<Byte>>) returns (r: seq<seq<Byte>>)
    requires a <= b < buffer.Length && buffer[b] == 0
    ensures r == log + [CString(buffer[a..b])]
  {
    CStringStops(buffer[a..b], buffer[b + 1..]);
    assert buffer[a..] == buffer[a..b] + [0] + buffer[b + 1..];
    r := log + [CString(buffer[a..])];
  }

  /** One turn of the scanning loop, at buffer[b]. */
  method ScanOne(buffer: array<Byte>, a: nat, b: nat, log: seq<seq<Byte>>, ghost st: State)
    returns (a': nat, log': seq<seq<Byte>>)
    requires a <= b < buffer.Length && buffer.Length == 4096 && b < 4095
    requires st.pending == buffer[a..b] && log == Texts(st.out)
    modifies buffer
    ensures forall i :: b < i < buffer.Length ==> buffer[i] == old(buffer[i])
    ensures a' <= b + 1
    ensures var s := Step(4096, st, old(buffer[b])); s.pending == buffer[a'..b + 1] && log' == Texts(s.out)
  {
    a', log' := a, log;
    if buffer[b] == CR {
      buffer[b] := 0;
    } else if buffer[b] == NL {
      buffer[b] := 0;
      log' := Log(buffer, a, b, log);
      TextsSnoc(st.out, Piece(st.pending, true));
      a' := b + 1;
    }
  }

  /** The scanning loop over buffer[0..sz]. */
  method Scan(buffer: array<Byte>, sz: nat, log: seq<seq<Byte>>, ghost out: seq<Piece>)
    returns (a: nat, log': seq<seq<Byte>>)
    requires buffer.Length == 4096 && sz <= 4095 && log == Texts(out)
    modifies buffer
    ensures a <= sz
    ensures var s := Run(4096, State([], out), old(buffer[..sz])); s.pending == buffer[a..sz] && log' == Texts(s.out)
  {
    hide Step;
    ghost var raw := buffer[..sz];
    var b := 0;
    a, log' := 0, log;
    while b < sz
      invariant a <= b <= sz
      invariant forall i :: b <= i < sz ==> buffer[i] == raw[i]
      invariant var s := Run(4096, State([], out), raw[..b]); s.pending == buffer[a..b] && log' == Texts(s.out)
    {
      ghost var s := Run(4096, State([], out), raw[..b]);
      a, log' := ScanOne(buffer, a, b, log', s);
      assert raw[..b + 1][..b] == raw[..b];
      b := b + 1;
    }
    assert raw[..b] == raw;
  }

  /** After a scan: log a full buffer, or move the left-overs to the front. */
  method Settle(buffer: array<Byte>, a: nat, sz: nat, log: seq<seq<Byte>>, ghost late: State)
    returns (b: nat, log': seq<seq<Byte>>)
    requires buffer.Length == 4096 && a <= sz <= 4095 && late.pending == buffer[a..sz] && log == Texts(late.out)
    modifies buffer
    ensures b <= 4094
    ensures var s := if |late.pending| == 4095 then State([], late.out + [Piece(late.pending, false)]) else late;
      s.pending == buffer[..b] && log' == Texts(s.out)
  {
    log' := log;
    if a == 0 && sz == buffer.Length - 1 {
      buffer[sz] := 0;
      log' := Log(buffer, a, sz, log);
      TextsSnoc(late.out, Piece(late.pending, false));
      b := 0;
    } else if a != sz {
      b := sz - a;
      forall i | 0 <= i < b { buffer[i] := buffer[a + i]; }
    } else {
      b := 0;
    }
  }

  /** One turn of the outer loop: the bytes read are put behind the left-overs and scanned. */
  method Take(buffer: array<Byte>, b: nat, bytes: seq<Byte>, log: seq<seq<Byte>>, ghost s: seq<Byte>)
    returns (b': nat, log': seq<seq<Byte>>)
    requires buffer.Length == 4096 && b <= 4094 && b + |bytes| <= 4095
    requires var st := Run(4095, State([], []), s); st.pending == buffer[..b] && log == Texts(st.out)
    modifies buffer
    ensures b' <= 4094
    ensures var st := Run(4095, State([], []), s + bytes); st.pending == buffer[..b'] && log' == Texts(st.out)
  {
    hide Run, Texts;
    ghost var st := Run(4095, State([], []), s);
    forall i | 0 <= i < |bytes| { buffer[b + i] := bytes[i]; }
    var sz := |bytes| + b;
    assert buffer[..sz] == st.pending + bytes;
    CarriesOn(s, bytes);
    CapLate(buffer[..sz], st.out);
    ghost var late := Run(4096, State([], st.out), buffer[..sz]);
    var a;
    a, log' := Scan(buffer, sz, log, st.out);
    b', log' := Settle(buffer, a, sz, log', late);
  }

  /** The loop of parent(): for every stream and every way of cutting it into reads, the log is
      that of the one-character-at-a-time reference. */
  method Parent(stream: seq<Byte>, cut: nat -> nat) returns (log: seq<seq<Byte>>)
    ensures log == Texts(Split(stream))
    ensures exists ps, tail :: (
      && Cut(stream, ps, tail)
      && log == Texts(if tail == [] then ps else ps + [Piece(tail, false)]))
  {
    hide Run, Texts;
    var buffer := new Byte[4096];
    var b: nat, pos: nat, turn: nat := 0, 0, 0;
    log := [];
    EmptyStart();
    var sz := Got(cut(0), buffer.Length - 1 - b, |stream|);
    while sz > 0
      invariant b <= 4094 && pos + sz <= |stream| && b + sz <= 4095
      invariant sz == 0 <==> pos == |stream|
      invariant var st := Run(4095, State([], []), stream[..pos]); st.pending == buffer[..b] && log == Texts(st.out)
      decreases |stream| - pos
    {
      b, log := Take(buffer, b, stream[pos..pos + sz], log, stream[..pos]);
      assert stream[..pos] + stream[pos..pos + sz] == stream[..pos + sz];
      pos, turn := pos + sz, turn + 1;
      sz := Got(cut(turn), buffer.Length - 1 - b, |stream| - pos);
    }
    assert stream[..pos] == stream;
    ghost var st := Run(4095, State([], []), stream);
    if b != 0 {
      buffer[b] := 0;
      log := Log(buffer, 0, b, log);
      TextsSnoc(st.out, Piece(st.pending, false));
    }
    assert Cut(stream, st.out, st.pending) by { RunCuts(stream); }
  }

  lemma EmptyStart()
    ensures Run(4095, State([], []), []) == State([], []) && Texts([]) == []
  {
  }
}
