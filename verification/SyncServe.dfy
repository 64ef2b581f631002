/** The sync service of adb (core/adb/file_sync_service.c): STAT, LIST, RECV and SEND commands served one after the
    other from one stream, and the client's reading of directory lists (core/adb/file_sync_client.c). */
module SyncServe {
  import opened Bytes
  import opened SyncWire
  import opened SyncDisk
  import opened SyncPush
  import opened SyncPull

  // ---------------------------------------------------------------------------- status

  datatype Stat = Stat(mode: nat, size: nat, time: nat)
  {
    predicate Fits() { mode < U32 && size < U32 && time < U32 }
  }

  /** The permission bits. */
  function Permissions(m: bv16): (r: nat)
    ensures r < 4096
  {
    (m & 0x0FFF) as int
  }

  lemma TypeOfSum(c: nat, p: nat)
    requires c < 16 && p < 4096
    ensures c * 4096 + p < 65536 && TypeOf(c * 4096 + p) == c
    ensures (c * 4096 + p) / 4096 == c && (c * 4096 + p) % 4096 == p
  {
  }

  /** st_mode of a file. */
  function ModeOf(f: File): (r: nat)
    ensures r < 65536 && TypeOf(r) == Code(f.kind)
  {
    TypeOfSum(Code(f.kind), Permissions(f.mode));
    Code(f.kind) * 4096 + Permissions(f.mode)
  }

  /** The file types and the permissions in it. */
  lemma ModeTells(f: File)
    ensures IsReg(ModeOf(f)) <==> f.kind == Regular
    ensures IsLnk(ModeOf(f)) <==> f.kind == Link
    ensures ModeOf(f) / 4096 == match f.kind
      case Fifo => 1 case Character => 2 case Directory => 4 case Block => 6
      case Regular => 8 case Link => 10 case Socket => 12
    ensures ModeOf(f) % 4096 == (f.mode & 0x0FFF) as int
  {
    hide Permissions;
    TypeOfSum(Code(f.kind), Permissions(f.mode));
    PermissionBits(f.mode);
  }

  lemma PermissionBits(m: bv16)
    ensures Permissions(m) == (m & 0x0FFF) as int
  {
  }

  /** lstat on the device: zeros for a missing file. */
  function Lstat(files: Files, path: Text): Stat {
    if path in files
    then Stat(ModeOf(files[path]), |files[path].data| % U32, files[path].mtime % U32)
    else Stat(0, 0, 0)
  }

  lemma LstatFits(files: Files, path: Text)
    ensures Lstat(files, path).Fits()
  {
  }

  lemma LstatTells(files: Files, path: Text)
    ensures var st := Lstat(files, path);
      if path !in files then st.mode == 0 && st.size == 0 && st.time == 0
      else st.mode == ModeOf(files[path]) && (|files[path].data| < U32 ==> st.size == |files[path].data|)
           && (files[path].mtime < U32 ==> st.time == files[path].mtime)
  {
  }

  function StatReply(st: Stat): (r: Text)
    ensures |r| == 16
  {
    ID_STAT + Le(st.mode, 4) + Le(st.size, 4) + Le(st.time, 4)
  }

  // ------------------------------------------------------------------------ directories

  /** A directory entry: its name, and what lstat(2) says about it if it works. */
  datatype Dent = Dent(name: Text, st: Option<Stat>)

  function DentHead(id: Text, st: Stat, namelen: nat): (r: Text)
    requires |id| == 4
    ensures |r| == 20
  {
    id + Le(st.mode, 4) + Le(st.size, 4) + Le(st.time, 4) + Le(namelen, 4)
  }

  /** Where the words of a status and of a directory entry lie. */
  lemma StatusLayout(st: Stat, namelen: nat)
    ensures var r := StatReply(st);
      && r[0..4] == [0x53, 0x54, 0x41, 0x54] && r[4..8] == Le(st.mode, 4)
      && r[8..12] == Le(st.size, 4) && r[12..16] == Le(st.time, 4)
    ensures var r := DentHead(ID_DENT, st, namelen);
      && r[0..4] == [0x44, 0x45, 0x4E, 0x54] && r[4..8] == Le(st.mode, 4)
      && r[8..12] == Le(st.size, 4) && r[12..16] == Le(st.time, 4) && r[16..20] == Le(namelen, 4)
  {
    FiveWords(ID_STAT, Le(st.mode, 4), Le(st.size, 4), Le(st.time, 4), []);
    FiveWords(ID_DENT, Le(st.mode, 4), Le(st.size, 4), Le(st.time, 4), Le(namelen, 4));
    hide Le;
    assert StatReply(st) + [] == StatReply(st);
  }

  lemma FiveWords(a: Text, b: Text, c: Text, d: Text, e: Text)
    requires |a| == |b| == |c| == |d| == 4
    ensures var r := a + b + c + d + e;
      r[0..4] == a && r[4..8] == b && r[8..12] == c && r[12..16] == d && r[16..16 + |e|] == e
  {
  }

  /** The entries do_list tells about: not those with long names or without a status. */
  function Shown(dir: seq<Dent>): (r: seq<(Stat, Text)>)
    ensures forall x :: x in r ==> |x.1| <= 256
  {
    if dir == [] then []
    else if |dir[0].name| > 256 || dir[0].st.None? then Shown(dir[1..])
    else [(dir[0].st.value, dir[0].name)] + Shown(dir[1..])
  }

  /** It is a selection in order: entry by entry, whatever comes before and after. */
  lemma {:induction false} ShownIsSelection(a: seq<Dent>, d: Dent, b: seq<Dent>)
    ensures Shown(a + [d] + b) ==
      Shown(a) + (if d.st.Some? && |d.name| <= 256 then [(d.st.value, d.name)] else []) + Shown(b)
    decreases |a|
  {
    var s := a + [d] + b;
    if a == [] {
      assert s[1..] == b;
    } else {
      assert s[1..] == a[1..] + [d] + b;
      ShownIsSelection(a[1..], d, b);
    }
  }

  function DentMessages(xs: seq<(Stat, Text)>): Text {
    if xs == [] then [] else DentHead(ID_DENT, xs[0].0, |xs[0].1|) + xs[0].1 + DentMessages(xs[1..])
  }

  function ListEnd(): Text { DentHead(ID_DONE, Stat(0, 0, 0), 0) }

  /** Everything do_list sends. None is a directory that cannot be opened, which is not told apart from an empty one. */
  function ListReply(dir: Option<seq<Dent>>): Text {
    DentMessages(if dir.Some? then Shown(dir.value) else []) + ListEnd()
  }

  /** sync_ls behind its request: the entries and the stream behind the list; None where it closes the connection. */
  function ReadList(s: Text): Option<(seq<(Stat, Text)>, Text)>
    decreases |s|
  {
    if |s| < 20 then None
    else if s[..4] == ID_DONE then Some(([], s[20..]))
    else if s[..4] != ID_DENT || Refused(UnLe(s[16..20]), 256) || |s| < 20 + UnLe(s[16..20]) then None
    else
      var n := 20 + UnLe(s[16..20]);
      match ReadList(s[n..])
      case None => None
      case Some(r) => Some(([(Stat(UnLe(s[4..8]), UnLe(s[8..12]), UnLe(s[12..16])), s[20..n])] + r.0, r.1))
  }

  lemma DentHeadRead(id: Text, st: Stat, namelen: nat, rest: Text)
    requires |id| == 4 && st.Fits() && namelen < U32
    ensures var s := DentHead(id, st, namelen) + rest;
      && |s| >= 20 && s[..4] == id && UnLe(s[16..20]) == namelen && s[20..] == rest
      && Stat(UnLe(s[4..8]), UnLe(s[8..12]), UnLe(s[12..16])) == st
  {
    hide Le, UnLe;
    var s := DentHead(id, st, namelen) + rest;
    assert s[..4] == id && s[4..8] == Le(st.mode, 4) && s[8..12] == Le(st.size, 4);
    assert s[12..16] == Le(st.time, 4) && s[16..20] == Le(namelen, 4) && s[20..] == rest;
    Pow256Values();
    LeRoundTrip(st.mode, 4);
    LeRoundTrip(st.size, 4);
    LeRoundTrip(st.time, 4);
    LeRoundTrip(namelen, 4);
  }

  lemma {:induction false} ReadListMessages(xs: seq<(Stat, Text)>, rest: Text)
    requires forall x :: x in xs ==> x.0.Fits() && |x.1| <= 256
    ensures ReadList(DentMessages(xs) + ListEnd() + rest) == Some((xs, rest))
    decreases |xs|
  {
    hide DentHead, UnLe;
    if xs == [] {
      assert DentMessages(xs) + ListEnd() + rest == ListEnd() + rest;
      DentHeadRead(ID_DONE, Stat(0, 0, 0), 0, rest);
    } else {
      var st, name := xs[0].0, xs[0].1;
      var tail := DentMessages(xs[1..]) + ListEnd() + rest;
      var s := DentMessages(xs) + ListEnd() + rest;
      assert s == DentHead(ID_DENT, st, |name|) + (name + tail);
      DentHeadRead(ID_DENT, st, |name|, name + tail);
      assert s[20..20 + |name|] == (name + tail)[..|name|] == name;
      assert s[20 + |name|..] == (name + tail)[|name|..] == tail;
      ReadListMessages(xs[1..], rest);
      assert ID_DENT != ID_DONE;
      assert [(st, name)] + xs[1..] == xs;
    }
  }

  /** The client is shown exactly the entries with short names and a status, in order, and is then right behind the
      list. */
  lemma ListDelivers(dir: Option<seq<Dent>>, rest: Text)
    requires dir.Some? ==> forall d :: d in dir.value && d.st.Some? ==> d.st.value.Fits()
    ensures ReadList(ListReply(dir) + rest) == Some((if dir.Some? then Shown(dir.value) else [], rest))
  {
    if dir.Some? { ShownFits(dir.value); }
    ReadListMessages(if dir.Some? then Shown(dir.value) else [], rest);
  }

  lemma {:induction false} ShownFits(dir: seq<Dent>)
    requires forall d :: d in dir && d.st.Some? ==> d.st.value.Fits()
    ensures forall x :: x in Shown(dir) ==> x.0.Fits()
    decreases |dir|
  {
    if dir != [] { ShownFits(dir[1..]); }
  }

  /** do_list. */
  method DoList(dir: Option<seq<Dent>>) returns (sent: Text)
    ensures sent == ListReply(dir)
  {
    hide DentHead;
    sent := [];
    if dir.Some? {
      var i := 0;
      assert dir.value[0..] == dir.value;
      while i < |dir.value|
        invariant 0 <= i <= |dir.value|
        invariant sent + DentMessages(Shown(dir.value[i..])) == DentMessages(Shown(dir.value))
      {
        var d := dir.value[i];
        assert dir.value[i..][1..] == dir.value[i + 1..];
        if |d.name| <= 256 && d.st.Some? {
          DentMessagesHead((d.st.value, d.name), Shown(dir.value[i + 1..]), sent);
          sent := sent + (DentHead(ID_DENT, d.st.value, |d.name|) + d.name);
        }
        i := i + 1;
      }
      assert sent + DentMessages([]) == sent;
    }
    sent := sent + ListEnd();
  }

  lemma DentMessagesHead(x: (Stat, Text), xs: seq<(Stat, Text)>, sent: Text)
    ensures sent + DentMessages([x] + xs) == sent + (DentHead(ID_DENT, x.0, |x.1|) + x.1) + DentMessages(xs)
  {
    hide DentHead;
    assert ([x] + xs)[1..] == xs;
    Assoc(sent, DentHead(ID_DENT, x.0, |x.1|) + x.1, DentMessages(xs));
  }

  function WithFront(acc: seq<(Stat, Text)>, r: Option<(seq<(Stat, Text)>, Text)>): Option<(seq<(Stat, Text)>, Text)> {
    match r
    case None => None
    case Some(x) => Some((acc + x.0, x.1))
  }

  /** sync_ls behind its request. */
  method SyncLs(input: Text) returns (r: Option<(seq<(Stat, Text)>, Text)>)
    ensures r == ReadList(input)
  {
    hide UnLe;
    var s, acc: seq<(Stat, Text)> := input, [];
    assert forall x: seq<(Stat, Text)> :: [] + x == x;
    while |s| >= 20 && s[..4] == ID_DENT
      invariant WithFront(acc, ReadList(s)) == ReadList(input)
      decreases |s|
    {
      var len := UnLe(s[16..20]);
      if Refused(len, 256) || |s| < 20 + len { return None; }
      var x := (Stat(UnLe(s[4..8]), UnLe(s[8..12]), UnLe(s[12..16])), s[20..20 + len]);
      FrontMoves(acc, x, ReadList(s[20 + len..]));
      acc := acc + [x];
      s := s[20 + len..];
    }
    if |s| < 20 || s[..4] != ID_DONE { return None; }
    assert acc + [] == acc;
    r := Some((acc, s[20..]));
  }

  lemma FrontMoves(acc: seq<(Stat, Text)>, x: (Stat, Text), r: Option<(seq<(Stat, Text)>, Text)>)
    ensures WithFront(acc, WithFront([x], r)) == WithFront(acc + [x], r)
  {
    if r.Some? { assert acc + ([x] + r.value.0) == acc + [x] + r.value.0; }
  }

  // ------------------------------------------------------------------- the command loop

  /** What the device does during one command: its disk, the reads of RECV (None if the file cannot be opened) and the
      directory of LIST. */
  datatype World = World(disk: Disk, pieces: Option<seq<LocalRead>>, dir: Option<seq<Dent>>)

  function RecvOf(w: World): Text {
    RecvReply(RemoteOf(w.pieces.Some?, if w.pieces.Some? then w.pieces.value else [], w.disk.reason))
  }

  /** The command loop of file_sync_service over all the bytes the peer has sent: the files, all output, and whether the
      service still waits for commands. `ws(k)` is the device during the k-th command. */
  datatype Session = Session(files: Files, out: Text, alive: bool)

  function Prepend(out: Text, s: Session): Session { s.(out := out + s.out) }

  function Serve(s: Text, files: Files, ws: nat -> World, k: nat): Session
    decreases |s|
  {
    if s == [] then Session(files, [], true)
    else if |s| < 8 then Session(files, FailMessage(Ascii("command read failure")), false)
    else if HeadWord(s) > NAME_MAX then Session(files, FailMessage(Ascii("invalid namelen")), false)
    else if |s| < 8 + HeadWord(s) then Session(files, FailMessage(Ascii("filename read failure")), false)
    else
      var n := 8 + HeadWord(s);
      if HeadId(s) == ID_STAT then
        Prepend(StatReply(Lstat(files, CString(s[8..n]))), Serve(s[n..], files, ws, k + 1))
      else if HeadId(s) == ID_LIST then Prepend(ListReply(ws(k).dir), Serve(s[n..], files, ws, k + 1))
      else if HeadId(s) == ID_SEND then
        var r := DoSend(s[n..], files, s[8..n], ws(k).disk);
        if !r.alive then Session(r.files, r.out, false)
        else Prepend(r.out, Serve(r.rest, r.files, ws, k + 1))
      else if HeadId(s) == ID_RECV then Prepend(RecvOf(ws(k)), Serve(s[n..], files, ws, k + 1))
      else if HeadId(s) == ID_QUIT then Session(files, [], false)
      else Session(files, FailMessage(Ascii("unknown command")), false)
  }

  /** The command of one turn, its name read. */
  method Command(svc: Service, id: Text, name: Text, w: World) returns (alive: bool, ghost out: Text)
    modifies svc
    ensures svc.output == old(svc.output) + out
    ensures id == ID_SEND ==>
      var r := DoSend(old(svc.input), old(svc.files), name, w.disk);
      && alive == r.alive && svc.files == r.files && out == r.out && (alive ==> svc.input == r.rest)
    ensures id != ID_SEND ==>
      && svc.input == old(svc.input) && svc.files == old(svc.files)
      && alive == (id == ID_STAT || id == ID_LIST || id == ID_RECV)
      && out == if id == ID_STAT then StatReply(Lstat(svc.files, CString(name)))
                else if id == ID_LIST then ListReply(w.dir)
                else if id == ID_RECV then RecvOf(w)
                else if id == ID_QUIT then [] else FailMessage(Ascii("unknown command"))
  {
    hide Head, FailMessage, CString, Lstat, StatReply, DoSend, ListReply, RecvReply, RemoteOf;
    alive := true;
    var msg: Text := [];
    if id == ID_STAT {
      msg := StatReply(Lstat(svc.files, CString(name)));
    } else if id == ID_LIST {
      msg := DoList(w.dir);
    } else if id == ID_SEND {
      ghost var r := DoSend(svc.input, svc.files, name, w.disk);
      var rc := svc.DoSendTo(name, w.disk);
      return rc == 0, r.out;
    } else if id == ID_RECV {
      msg := DoRecv(w.pieces.Some?, if w.pieces.Some? then w.pieces.value else [], w.disk.reason);
    } else {
      alive := false;
      if id != ID_QUIT { msg := FailMessage(Ascii("unknown command")); }
    }
    svc.output := svc.output + msg;
    out := msg;
  }

  /** One turn of the command loop. */
  method ServeOne(svc: Service, ws: nat -> World, k: nat) returns (alive: bool, ghost out: Text)
    requires svc.input != []
    modifies svc
    ensures svc.output == old(svc.output) + out
    ensures Serve(old(svc.input), old(svc.files), ws, k) ==
      if alive then Prepend(out, Serve(svc.input, svc.files, ws, k + 1)) else Session(svc.files, out, false)
    ensures alive ==> |svc.input| < |old(svc.input)|
  {
    hide Head, HeadId, HeadWord, FailMessage, CString, Lstat, StatReply, DoSend, Prepend, ListReply, RecvOf;
    ghost var s := svc.input;
    alive := false;
    var ok, head := svc.ReadX(8);
    if !ok {
      svc.Fail(Ascii("command read failure"));
      return false, FailMessage(Ascii("command read failure"));
    }
    HeadOfPrefix(s);
    var namelen := HeadWord(head);
    if namelen > NAME_MAX {
      svc.Fail(Ascii("invalid namelen"));
      return false, FailMessage(Ascii("invalid namelen"));
    }
    var name;
    ok, name := svc.ReadX(namelen);
    if !ok {
      svc.Fail(Ascii("filename read failure"));
      return false, FailMessage(Ascii("filename read failure"));
    }
    assert svc.input == s[8 + namelen..] && name == s[8..8 + namelen];
    alive, out := Command(svc, HeadId(head), name, ws(k));
  }

  /** file_sync_service: the command loop, until the bytes sent so far are used up or the service is gone. */
  method FileSyncService(svc: Service, ws: nat -> World) returns (alive: bool, ghost out: Text)
    modifies svc
    ensures svc.output == old(svc.output) + out
    ensures Serve(old(svc.input), old(svc.files), ws, 0) == Session(svc.files, out, alive)
  {
    hide Serve;
    ghost var o: Text;
    out := [];
    var k := 0;
    alive := true;
    PrependNothing(Serve(svc.input, svc.files, ws, 0));
    while svc.input != []
      invariant k >= 0 && alive && svc.output == old(svc.output) + out
      invariant Prepend(out, Serve(svc.input, svc.files, ws, k)) == Serve(old(svc.input), old(svc.files), ws, 0)
      decreases |svc.input|
    {
      alive, o := ServeOne(svc, ws, k);
      k := k + 1;
      PrependTwice(out, o, Serve(svc.input, svc.files, ws, k));
      Assoc(old(svc.output), out, o);
      out := out + o;
      if !alive { return; }
    }
    ServeNothing(svc.files, ws, k);
    assert out + [] == out;
  }

  lemma ServeNothing(files: Files, ws: nat -> World, k: nat)
    ensures Serve([], files, ws, k) == Session(files, [], true)
  {
  }

  lemma PrependNothing(s: Session)
    ensures Prepend([], s) == s
  {
    assert [] + s.out == s.out;
  }

  lemma PrependTwice(a: Text, b: Text, s: Session)
    ensures Prepend(a, Prepend(b, s)) == Prepend(a + b, s)
  {
    Assoc(a, b, s.out);
  }

  // --------------------------------------------------------- pipelined status requests

  function StatRequest(path: Text): Text { Head(ID_STAT, |path|) + path }

  function StatRequests(paths: seq<Text>): Text {
    if paths == [] then [] else StatRequest(paths[0]) + StatRequests(paths[1..])
  }

  /** sync_finish_readtime: the next reply and the stream behind it. */
  function FinishReadtime(s: Text): Option<(Stat, Text)> {
    if |s| < 16 || s[..4] != ID_STAT then None
    else Some((Stat(UnLe(s[4..8]), UnLe(s[8..12]), UnLe(s[12..16])), s[16..]))
  }

  lemma StatReplyRoundTrip(st: Stat, rest: Text)
    requires st.Fits()
    ensures FinishReadtime(StatReply(st) + rest) == Some((st, rest))
  {
    hide Le, UnLe;
    var s := StatReply(st) + rest;
    assert s[..4] == ID_STAT;
    assert s[4..8] == Le(st.mode, 4);
    assert s[8..12] == Le(st.size, 4);
    assert s[12..16] == Le(st.time, 4);
    assert s[16..] == rest;
    Pow256Values();
    LeRoundTrip(st.mode, 4);
    LeRoundTrip(st.size, 4);
    LeRoundTrip(st.time, 4);
  }

  /** Paths the service takes. */
  predicate Short(paths: seq<Text>) { forall i :: 0 <= i < |paths| ==> |paths[i]| <= NAME_MAX }

  /** The answers to status requests in flight: one reply per path, up to the first path that is too long. */
  function StatReplies(files: Files, paths: seq<Text>): Text {
    if paths == [] then []
    else if |paths[0]| > NAME_MAX then FailMessage(Ascii("invalid namelen"))
    else StatReply(Lstat(files, paths[0])) + StatReplies(files, paths[1..])
  }

  predicate PathsFit(paths: seq<Text>) { forall p :: p in paths ==> 0 !in p && |p| < U32 }

  lemma ServeStat(path: Text, rest: Text, files: Files, ws: nat -> World, k: nat)
    requires 0 !in path && |path| < U32
    ensures Serve(StatRequest(path) + rest, files, ws, k) ==
      if |path| <= NAME_MAX then Prepend(StatReply(Lstat(files, path)), Serve(rest, files, ws, k + 1))
      else Session(files, FailMessage(Ascii("invalid namelen")), false)
  {
    hide Head, HeadId, HeadWord, Lstat, StatReply, Prepend, DoSend, FailMessage, CString, ListReply, RecvOf;
    var s := StatRequest(path) + rest;
    assert s == Head(ID_STAT, |path|) + (path + rest);
    HeadRoundTrip(ID_STAT, |path|, path + rest);
    assert s[8..8 + |path|] == path;
    assert s[8 + |path|..] == rest;
    CStringWhole(path);
  }

  /** However many requests are in flight, the i-th reply on the stream is the status of the i-th path. A path that is
      too long ends the service there. */
  lemma {:induction false} StatPipeline(paths: seq<Text>, rest: Text, files: Files, ws: nat -> World, k: nat)
    requires PathsFit(paths)
    ensures Serve(StatRequests(paths) + rest, files, ws, k) ==
      if Short(paths) then Prepend(StatReplies(files, paths), Serve(rest, files, ws, k + |paths|))
      else Session(files, StatReplies(files, paths), false)
    decreases |paths|
  {
    hide Serve, StatRequest, StatRequests, StatReply, StatReplies, Lstat, FailMessage, Prepend, Short;
    StatSteps(paths, rest, files);
    if paths == [] {
      PrependNothing(Serve(rest, files, ws, k));
    } else {
      ServeStat(paths[0], StatRequests(paths[1..]) + rest, files, ws, k);
      StatPipeline(paths[1..], rest, files, ws, k + 1);
      ShortStep(paths);
      var first, later := StatReply(Lstat(files, paths[0])), StatReplies(files, paths[1..]);
      PrependTwice(first, later, Serve(rest, files, ws, k + |paths|));
      PrependGone(first, files, later);
    }
  }

  // ------------------------------------------------------------------- RECV and its reader

  lemma {:induction false} ReadToEnd(local: seq<LocalRead>, file: Text, pos: nat)
    requires ReadsFrom(local, file, pos) && Failing !in local
    ensures !FailsEarly(local, file, pos)
    decreases |local|
  {
    if local != [] {
      ReadToEnd(local[1..], file, if local[0].Piece? then pos + |local[0].bytes| else pos);
    }
  }

  /** A file asked for with RECV and received: the client has the bytes of the device's file, or no file if it cannot be
      opened or a read of it fails; nothing changes on the device, which is ready for the next command. */
  lemma PullServed(path: Text, files: Files, ws: nat -> World, k: nat, file: Text, rest: Text)
    requires |path| <= NAME_MAX && |ws(k).disk.reason| <= 256
    requires ws(k).pieces.Some? ==> ReadsFrom(ws(k).pieces.value, file, 0)
    ensures var r := Serve(RecvRequest(path), files, ws, k);
      && r.alive && r.files == files
      && Receive(r.out + rest, []) ==
         if ws(k).pieces.Some? && Failing !in ws(k).pieces.value then Present(file, rest) else Absent(rest)
  {
    ServeRecv(path, [], files, ws, k);
    ServeNothing(files, ws, k + 1);
    hide *;
    assert RecvRequest(path) + [] == RecvRequest(path);
    RecvAlone(files, RecvOf(ws(k)));
    RecvDelivers(ws(k), file, rest);
  }

  /** The bytes of a RECV request: the four letters, the length of the path, the path. */
  function RecvRequest(path: Text): Text { [0x52, 0x45, 0x43, 0x56] + Le(|path|, 4) + path }

  lemma RecvAlone(files: Files, out: Text)
    ensures Prepend(out, Session(files, [], true)) == Session(files, out, true)
  {
    assert out + [] == out;
  }

  lemma ServeRecv(path: Text, rest: Text, files: Files, ws: nat -> World, k: nat)
    requires |path| <= NAME_MAX
    ensures Serve(RecvRequest(path) + rest, files, ws, k) == Prepend(RecvOf(ws(k)), Serve(rest, files, ws, k + 1))
  {
    hide HeadId, HeadWord, Lstat, StatReply, Prepend, DoSend, FailMessage, CString, ListReply, RecvOf;
    var s := RecvRequest(path) + rest;
    assert s == Head(ID_RECV, |path|) + (path + rest);
    HeadRoundTrip(ID_RECV, |path|, path + rest);
    assert s[8 + |path|..] == rest;
    assert ID_RECV != ID_STAT && ID_RECV != ID_LIST && ID_RECV != ID_SEND;
  }

  lemma RecvDelivers(w: World, file: Text, rest: Text)
    requires |w.disk.reason| <= 256 && (w.pieces.Some? ==> ReadsFrom(w.pieces.value, file, 0))
    ensures Receive(RecvOf(w) + rest, []) ==
      if w.pieces.Some? && Failing !in w.pieces.value then Present(file, rest) else Absent(rest)
  {
    hide Receive, RecvReply, Concat, Pieces, ReadsFrom, FailsEarly, Reach;
    var r := RemoteOf(w.pieces.Some?, if w.pieces.Some? then w.pieces.value else [], w.disk.reason);
    if w.pieces.Some? {
      var local := w.pieces.value;
      ReadsCut(local, file, 0);
      if Failing !in local {
        ReadToEnd(local, file, 0);
        SentWholeExactly(local, file);
      }
    }
    PullDelivers(r, rest);
  }

  /** Pushed and pulled again over one connection: the client gets OKAY and then the very bytes it sent. */
  lemma PushThenPull(path: Text, mode: nat, mtime: nat, chunks: seq<Text>, files: Files, ws: nat -> World, k: nat)
    requires 0 !in path && IsReg(mode) && mode < 65536 && mtime < U32 && Cut(chunks)
    requires |path| + |ModeSuffix(mode)| <= NAME_MAX
    requires Takes(ws(k).disk, path, chunks, files) && (path !in files || ws(k).disk.unlinks)
    requires |ws(k + 1).disk.reason| <= 256 && ws(k + 1).pieces.Some? && Failing !in ws(k + 1).pieces.value
    requires var sent := PushRequest(path, mode, mtime, chunks);
      |sent| >= 8 && HeadId(sent) == ID_SEND &&
      var r := ServeSend(sent, files, ws(k).disk);
      path in r.files && ReadsFrom(ws(k + 1).pieces.value, r.files[path].data, 0)
    ensures var out := Serve(PushRequest(path, mode, mtime, chunks) + RecvRequest(path), files, ws, k).out;
      && |out| >= 8 && out[..8] == [0x4F, 0x4B, 0x41, 0x59, 0, 0, 0, 0]
      && Receive(out[8..], []) == Present(Concat(chunks), [])
  {
    hide *;
    var sent, ask, disk := PushRequest(path, mode, mtime, chunks), RecvRequest(path), ws(k).disk;
    PushStores(path, mode, mtime, chunks, [], files, disk);
    assert sent + [] == sent;
    PushStores(path, mode, mtime, chunks, ask, files, disk);
    PushTaken(path, mode, mtime, chunks, ask, files, disk);
    assert |path| + |ModeSuffix(mode)| < U32 by { WireLimit(); }
    ServeSendFirst(sent + ask, files, ws, k);
    var r := ServeSend(sent + ask, files, disk);
    PullServed(path, r.files, ws, k + 1, Concat(chunks), []);
    var reply := Serve(ask, r.files, ws, k + 1).out;
    OutAfter(r.out, Serve(ask, r.files, ws, k + 1));
    assert (r.out + reply)[..8] == r.out && (r.out + reply)[8..] == reply && reply + [] == reply;
  }

  lemma WireLimit()
    ensures NAME_MAX < U32
  {
  }

  lemma OutAfter(out: Text, s: Session)
    ensures Prepend(out, s).out == out + s.out
  {
  }

  /** A SEND that keeps the service alive is served, and then the rest of the stream. */
  lemma ServeSendFirst(s: Text, files: Files, ws: nat -> World, k: nat)
    requires |s| >= 8 && HeadId(s) == ID_SEND && HeadWord(s) <= NAME_MAX && |s| >= 8 + HeadWord(s)
    ensures var r := ServeSend(s, files, ws(k).disk);
      r.alive ==> Serve(s, files, ws, k) == Prepend(r.out, Serve(r.rest, r.files, ws, k + 1))
  {
    hide HeadId, HeadWord, DoSend, FailMessage, StatReply, Lstat, ListReply, RecvOf, Prepend;
    assert ID_SEND != ID_STAT && ID_SEND != ID_LIST;
  }

  lemma PrependGone(a: Text, files: Files, b: Text)
    ensures Prepend(a, Session(files, b, false)) == Session(files, a + b, false)
  {
  }

  lemma StatSteps(paths: seq<Text>, rest: Text, files: Files)
    ensures paths == [] ==> StatRequests(paths) + rest == rest && StatReplies(files, paths) == [] && Short(paths)
    ensures paths != [] ==>
      && StatRequests(paths) + rest == StatRequest(paths[0]) + (StatRequests(paths[1..]) + rest)
      && StatReplies(files, paths) == if |paths[0]| > NAME_MAX then FailMessage(Ascii("invalid namelen"))
                                      else StatReply(Lstat(files, paths[0])) + StatReplies(files, paths[1..])
  {
    hide StatRequest, StatReply, Lstat, FailMessage;
    if paths != [] { Assoc(StatRequest(paths[0]), StatRequests(paths[1..]), rest); }
  }

  lemma ShortStep(paths: seq<Text>)
    requires paths != []
    ensures Short(paths) <==> |paths[0]| <= NAME_MAX && Short(paths[1..])
  {
    if |paths[0]| <= NAME_MAX && Short(paths[1..]) {
      forall i | 0 <= i < |paths| ensures |paths[i]| <= NAME_MAX {
        if i > 0 { assert paths[1..][i - 1] == paths[i]; }
      }
    }
  }
}
