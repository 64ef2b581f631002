/** Tethering (netd/NatController.cpp): the count of enabled interface pairs and the ordered
    rules of natctrl_FORWARD that must mirror them. A chain is a sequence of rules. */
module NatController {
  import opened Iptables
  import opened SecondaryTable

  // ------------------------------------------------------------------- the rule chain

  datatype StateMatch = AnyState | EstablishedRelated | InvalidOnly

  datatype Target = RETURN | DROP

  /** A rule for packets from `i` to `o`, or the bare "-j DROP". */
  datatype Rule = Rule(i: string, o: string, m: StateMatch, t: Target) | DropAll

  type Chain = seq<Rule>

  // ------------------------------------------------------------ what packets meet

  datatype ConnState = Invalid | New | Established | Related

  datatype Packet = Packet(i: string, o: string, s: ConnState)

  predicate Matches(r: Rule, p: Packet) {
    r.DropAll?
    || (r.i == p.i && r.o == p.o
        && match r.m
           case AnyState => true
           case EstablishedRelated => p.s == Established || p.s == Related
           case InvalidOnly => p.s == Invalid)
  }

  /** First match decides; a packet that meets no rule returns to the calling chain. */
  function Verdict(ch: Chain, p: Packet): Target {
    if ch == [] then RETURN
    else if Matches(ch[0], p) then (if ch[0].DropAll? then DROP else ch[0].t)
    else Verdict(ch[1..], p)
  }

  // ---------------------------------------------------------- the enabled pairs

  datatype Pair = Pair(int_: string, ext: string)

  /** The three rules of one pair, in the order setForwardRules adds them. */
  function Back(p: Pair): Rule { Rule(p.ext, p.int_, EstablishedRelated, RETURN) }
  function Bad(p: Pair): Rule { Rule(p.int_, p.ext, InvalidOnly, DROP) }
  function Out(p: Pair): Rule { Rule(p.int_, p.ext, AnyState, RETURN) }
  function Triple(p: Pair): Chain { [Back(p), Bad(p), Out(p)] }

  function Triples(ps: seq<Pair>): Chain {
    if ps == [] then [] else Triple(ps[0]) + Triples(ps[1..])
  }

  /** What the chain must be for these pairs. */
  function ChainFor(ps: seq<Pair>): Chain {
    if ps == [] then [] else Triples(ps) + [DropAll]
  }

  /** Some pair lets the packet through: outwards unless invalid, inwards if it belongs to a
      known connection. */
  ghost predicate Allowed(ps: seq<Pair>, k: Packet) {
    exists p :: p in ps &&
      ((k.i == p.int_ && k.o == p.ext && k.s != Invalid)
       || (k.i == p.ext && k.o == p.int_ && (k.s == Established || k.s == Related)))
  }

  lemma VerdictTriple(p: Pair, rest: Chain, k: Packet)
    ensures Verdict(Triple(p) + rest, k) ==
      if k.i == p.ext && k.o == p.int_ && (k.s == Established || k.s == Related) then RETURN
      else if k.i == p.int_ && k.o == p.ext && k.s == Invalid then DROP
      else if k.i == p.int_ && k.o == p.ext then RETURN
      else Verdict(rest, k)
  {
    var ch := Triple(p) + rest;
    var c1 := [Bad(p), Out(p)] + rest;
    var c2 := [Out(p)] + rest;
    assert ch[1..] == c1 && c1[1..] == c2 && c2[1..] == rest;
    assert Verdict(ch, k) == if Matches(Back(p), k) then RETURN else Verdict(c1, k);
    assert Verdict(c1, k) == if Matches(Bad(p), k) then DROP else Verdict(c2, k);
    assert Verdict(c2, k) == if Matches(Out(p), k) then RETURN else Verdict(rest, k);
  }

  lemma {:induction false} VerdictTriples(ps: seq<Pair>, k: Packet)
    ensures Verdict(Triples(ps) + [DropAll], k) == RETURN <==> Allowed(ps, k)
    decreases |ps|
  {
    if ps == [] {
      assert Triples(ps) + [DropAll] == [DropAll];
    } else {
      var rest := Triples(ps[1..]) + [DropAll];
      assert Triples(ps) + [DropAll] == Triple(ps[0]) + rest;
      VerdictTriple(ps[0], rest, k);
      VerdictTriples(ps[1..], k);
      hide Verdict;
      AllowedCons(ps, k);
    }
  }

  lemma AllowedCons(ps: seq<Pair>, k: Packet)
    requires ps != []
    ensures Allowed(ps, k) <==> Allowed([ps[0]], k) || Allowed(ps[1..], k)
  {
    assert forall p :: p in ps <==> p == ps[0] || p in ps[1..];
  }

  /** With at least one pair enabled, the chain lets through exactly the allowed packets. */
  lemma FirstMatchMeaning(ps: seq<Pair>, k: Packet)
    requires ps != []
    ensures Verdict(ChainFor(ps), k) == RETURN <==> Allowed(ps, k)
  {
    VerdictTriples(ps, k);
  }

  // ------------------------------------------------------ enabling and disabling

  /** natCount, the forward chain, and the interfaces with a MASQUERADE rule. */
  datatype State = State(count: int, forward: Chain, masq: seq<string>)

  const DEFAULTS: State := State(0, [], [])

  /** enableNat's chain work when every command is accepted. */
  function Enable(st: State, p: Pair): State {
    var ch := Delete(st.forward + Triple(p), DropAll) + [DropAll];
    var n := st.count + 1;
    State(n, ch, if n == 1 then st.masq + [p.ext] else st.masq)
  }

  function DeleteTriple(ch: Chain, p: Pair): Chain {
    Delete(Delete(Delete(ch, Back(p)), Bad(p)), Out(p))
  }

  /** disableNat: deletions that find nothing are ignored; at zero everything is reset. */
  function Disable(st: State, p: Pair): State {
    if st.count - 1 <= 0 then DEFAULTS
    else State(st.count - 1, DeleteTriple(st.forward, p), st.masq)
  }

  /** The state mirrors the pairs enabled, in the order they were enabled. `up` is the interface masqueraded while there
      are any. */
  predicate Mirrors(st: State, ps: seq<Pair>, up: string) {
    st.count == |ps| && st.forward == ChainFor(ps) && st.masq == if ps == [] then [] else [up]
  }

  /** The interface masqueraded behind a command: that of the pair enabled when there was none. */
  function UpStep(up: string, ps: seq<Pair>, c: Cmd): string {
    if c.EnableCmd? && ps == [] then c.p.ext else up
  }

  function PairStep(ps: seq<Pair>, c: Cmd): seq<Pair> {
    if c.EnableCmd? then ps + [c.p] else Delete(ps, c.p)
  }

  lemma {:induction false} TriplesConcat(a: seq<Pair>, b: seq<Pair>)
    ensures Triples(a + b) == Triples(a) + Triples(b)
    decreases |a|
  {
    if a == [] {
      assert a + b == b;
    } else {
      assert (a + b)[1..] == a[1..] + b;
      TriplesConcat(a[1..], b);
      assert Triple(a[0]) + (Triples(a[1..]) + Triples(b)) == Triple(a[0]) + Triples(a[1..]) + Triples(b);
    }
  }

  /** A rule of a chain of triples tells which pair it belongs to. */
  lemma {:induction false} RuleOwner(ps: seq<Pair>, r: Rule)
    requires r in Triples(ps)
    ensures exists p :: p in ps && r in Triple(p)
    decreases |ps|
  {
    if r in Triple(ps[0]) {
      assert ps[0] in ps;
    } else {
      RuleOwner(ps[1..], r);
      var p :| p in ps[1..] && r in Triple(p);
      assert p in ps;
    }
  }

  lemma OwnRules(p: Pair, q: Pair)
    ensures Back(p) in Triple(q) || Bad(p) in Triple(q) || Out(p) in Triple(q) ==> p == q
    ensures DropAll !in Triple(q)
  {
  }

  /** No rule of a pair that is not enabled is in the chain, nor the bare DROP. */
  lemma NotInTriples(ps: seq<Pair>, p: Pair)
    ensures DropAll !in Triples(ps)
    ensures p !in ps ==> Back(p) !in Triples(ps) && Bad(p) !in Triples(ps) && Out(p) !in Triples(ps)
  {
    if DropAll in Triples(ps) {
      RuleOwner(ps, DropAll);
    }
    if p !in ps {
      forall r | r in Triple(p) && r in Triples(ps) ensures false {
        RuleOwner(ps, r);
        var q :| q in ps && r in Triple(q);
        OwnRules(p, q);
      }
      assert Back(p) in Triple(p) && Bad(p) in Triple(p) && Out(p) in Triple(p);
    }
  }

  lemma EnableMirrors(st: State, ps: seq<Pair>, up: string, p: Pair)
    requires Mirrors(st, ps, up)
    ensures Mirrors(Enable(st, p), ps + [p], UpStep(up, ps, EnableCmd(p)))
  {
    hide Delete, Triple, Triples;
    NotInTriples(ps, p);
    TriplesConcat(ps, [p]);
    assert Triples([p]) == Triple(p) by { OneTriple(p); }
    if ps == [] {
      assert st.forward + Triple(p) == Triple(p);
      NotInTriples([p], p);
      assert Triples(ps) == [] by { NoTriples(); }
      assert Triples(ps) + Triple(p) == Triple(p);
    } else {
      DeleteAt(Triples(ps), DropAll, Triple(p));
    }
  }

  lemma OneTriple(p: Pair)
    ensures Triples([p]) == Triple(p)
  {
    assert Triples([p]) == Triple(p) + Triples([]);
  }

  lemma NoTriples()
    ensures Triples([]) == []
  {
  }

  /** Deleting the rules of an enabled pair removes its first triple and nothing else. */
  lemma DeleteTripleAt(a: seq<Pair>, p: Pair, rest: Chain)
    requires p !in a
    ensures DeleteTriple(Triples(a) + Triple(p) + rest, p) == Triples(a) + rest
  {
    var t := Triples(a);
    NotInTriples(a, p);
    hide Delete, Triples;
    assert t + Triple(p) + rest == t + [Back(p)] + ([Bad(p), Out(p)] + rest);
    DeleteAt(t, Back(p), [Bad(p), Out(p)] + rest);
    assert t + ([Bad(p), Out(p)] + rest) == t + [Bad(p)] + ([Out(p)] + rest);
    DeleteAt(t, Bad(p), [Out(p)] + rest);
    assert t + ([Out(p)] + rest) == t + [Out(p)] + rest;
    DeleteAt(t, Out(p), rest);
  }

  lemma SplitAt(ps: seq<Pair>, p: Pair) returns (a: seq<Pair>, b: seq<Pair>)
    requires p in ps
    ensures ps == a + [p] + b && p !in a && Delete(ps, p) == a + b
  {
    hide Delete;
    var i := 0;
    while ps[i] != p
      invariant 0 <= i < |ps| && p !in ps[..i]
      invariant p in ps[i..]
      decreases |ps| - i
    {
      assert ps[i..] == [ps[i]] + ps[i + 1..];
      i := i + 1;
    }
    a, b := ps[..i], ps[i + 1..];
    assert ps == a + [p] + b;
    DeleteAt(a, p, b);
  }

  lemma Assoc(a: Chain, b: Chain, c: Chain)
    ensures a + b + c == a + (b + c)
  {
  }

  lemma DeleteEnabledTriple(ps: seq<Pair>, p: Pair)
    requires p in ps
    ensures DeleteTriple(Triples(ps) + [DropAll], p) == Triples(Delete(ps, p)) + [DropAll]
  {
    var a, b := SplitAt(ps, p);
    hide Delete, DeleteTriple, Triples;
    TriplesConcat(a + [p], b);
    TriplesConcat(a, [p]);
    TriplesConcat(a, b);
    OneTriple(p);
    hide Triple;
    Assoc(Triples(a) + Triple(p), Triples(b), [DropAll]);
    DeleteTripleAt(a, p, Triples(b) + [DropAll]);
    Assoc(Triples(a), Triples(b), [DropAll]);
  }

  lemma DeleteAbsentTriple(ps: seq<Pair>, p: Pair)
    requires p !in ps
    ensures DeleteTriple(Triples(ps) + [DropAll], p) == Triples(ps) + [DropAll]
  {
    NotInTriples(ps, p);
  }

  /** Disabling keeps the mirror exactly when the pair was enabled (or nothing was): a stray
      disable makes the count fall behind the rules, or drops pairs that are still enabled. */
  lemma DisableMirrorsExactly(st: State, ps: seq<Pair>, up: string, p: Pair)
    requires Mirrors(st, ps, up)
    ensures Mirrors(Disable(st, p), Delete(ps, p), up) <==> ps == [] || p in ps
  {
    hide DeleteTriple, Triples;
    if |ps| >= 2 {
      if p in ps {
        DeleteEnabledTriple(ps, p);
      } else {
        DeleteAbsentTriple(ps, p);
      }
    } else {
      NoTriples();
      if |ps| == 1 {
        OneTriple(ps[0]);
      }
    }
  }

  datatype Cmd = EnableCmd(p: Pair) | DisableCmd(p: Pair)

  function Run(st: State, cs: seq<Cmd>): State
    decreases |cs|
  {
    if cs == [] then st
    else Run(if cs[0].EnableCmd? then Enable(st, cs[0].p) else Disable(st, cs[0].p), cs[1..])
  }

  function PairsAfter(ps: seq<Pair>, cs: seq<Cmd>): seq<Pair>
    decreases |cs|
  {
    if cs == [] then ps else PairsAfter(PairStep(ps, cs[0]), cs[1..])
  }

  function UpAfter(up: string, ps: seq<Pair>, cs: seq<Cmd>): string
    decreases |cs|
  {
    if cs == [] then up else UpAfter(UpStep(up, ps, cs[0]), PairStep(ps, cs[0]), cs[1..])
  }

  /** Every disable is of a pair enabled at that point. */
  predicate Balanced(ps: seq<Pair>, cs: seq<Cmd>)
    decreases |cs|
  {
    cs == [] || ((cs[0].DisableCmd? ==> cs[0].p in ps) && Balanced(PairStep(ps, cs[0]), cs[1..]))
  }

  /** Over every balanced run the count, the chain and the masquerading mirror the pairs. */
  lemma {:induction false} BalancedRunMirrors(st: State, ps: seq<Pair>, up: string, cs: seq<Cmd>)
    requires Mirrors(st, ps, up) && Balanced(ps, cs)
    ensures Mirrors(Run(st, cs), PairsAfter(ps, cs), UpAfter(up, ps, cs))
    decreases |cs|
  {
    hide Enable, Disable, Mirrors, Delete;
    if cs != [] {
      if cs[0].EnableCmd? {
        EnableMirrors(st, ps, up, cs[0].p);
      } else {
        DisableMirrorsExactly(st, ps, up, cs[0].p);
      }
      BalancedRunMirrors(if cs[0].EnableCmd? then Enable(st, cs[0].p) else Disable(st, cs[0].p), PairStep(ps, cs[0]),
                         UpStep(up, ps, cs[0]), cs[1..]);
    }
  }

  /** So after every balanced run that leaves a pair enabled, packets are let through exactly as
      the enabled pairs allow. */
  lemma BalancedRunFilters(cs: seq<Cmd>, k: Packet)
    requires Balanced([], cs) && PairsAfter([], cs) != []
    ensures Verdict(Run(DEFAULTS, cs).forward, k) == RETURN <==> Allowed(PairsAfter([], cs), k)
  {
    hide Verdict, Run;
    assert Mirrors(DEFAULTS, [], "") by { NoTriples(); }
    BalancedRunMirrors(DEFAULTS, [], "", cs);
    FirstMatchMeaning(PairsAfter([], cs), k);
  }

  /** How many of the pairs go out through the interface. */
  function Outgoing(ps: seq<Pair>, ext: string): nat {
    if ps == [] then 0 else (if ps[0].ext == ext then 1 else 0) + Outgoing(ps[1..], ext)
  }

  lemma {:induction false} OutgoingConcat(a: seq<Pair>, b: seq<Pair>, ext: string)
    ensures Outgoing(a + b, ext) == Outgoing(a, ext) + Outgoing(b, ext)
    decreases |a|
  {
    if a == [] {
      assert a + b == b;
    } else {
      assert (a + b)[1..] == a[1..] + b;
      OutgoingConcat(a[1..], b, ext);
    }
  }

  lemma OutgoingOne(p: Pair, ext: string)
    ensures Outgoing([p], ext) == if p.ext == ext then 1 else 0
  {
    assert [p][1..] == [];
  }

  /** What is masqueraded should be the interface of a pair that is enabled, when there is one. After an enable it is,
      if it was before; after disabling an enabled pair exactly if that was the last pair of all, or it was not on the
      masqueraded interface, or another one is. */
  lemma MasqueradeExactly(st: State, ps: seq<Pair>, up: string, p: Pair)
    requires Mirrors(st, ps, up) && (ps != [] ==> Outgoing(ps, up) > 0)
    ensures var e := Enable(st, p).masq; |e| == 1 && Outgoing(ps + [p], e[0]) > 0
    ensures p in ps ==>
      var d := Disable(st, p).masq;
      if |ps| == 1 then d == []
      else d == [up] && (Outgoing(Delete(ps, p), up) > 0 <==> p.ext != up || Outgoing(ps, up) >= 2)
  {
    hide Delete, ChainFor, Outgoing;
    OutgoingConcat(ps, [p], up);
    OutgoingConcat(ps, [p], p.ext);
    OutgoingOne(p, up);
    OutgoingOne(p, p.ext);
    if p in ps {
      var a, b := SplitAt(ps, p);
      OutgoingConcat(a + [p], b, up);
      OutgoingConcat(a, [p], up);
      OutgoingConcat(a, b, up);
    }
  }

  lemma RunCons(up: string, ps: seq<Pair>, c: Cmd, more: seq<Cmd>)
    ensures PairsAfter(ps, [c] + more) == PairsAfter(PairStep(ps, c), more)
    ensures UpAfter(up, ps, [c] + more) == UpAfter(UpStep(up, ps, c), PairStep(ps, c), more)
    ensures Balanced(ps, [c] + more) <==> (c.DisableCmd? ==> c.p in ps) && Balanced(PairStep(ps, c), more)
    ensures PairsAfter(ps, []) == ps && UpAfter(up, ps, []) == up && Balanced(ps, [])
  {
    assert ([c] + more)[1..] == more;
  }

  /** The failing run: two pairs, and the first one disabled. Masqueraded is still its interface. */
  lemma StaleMasquerade(i: string, e1: string, e2: string)
    requires e1 != e2
    ensures var cs := [EnableCmd(Pair(i, e1)), EnableCmd(Pair(i, e2)), DisableCmd(Pair(i, e1))];
      Balanced([], cs) && PairsAfter([], cs) == [Pair(i, e2)] && Run(DEFAULTS, cs).masq == [e1]
  {
    var p, q := Pair(i, e1), Pair(i, e2);
    var cs := [EnableCmd(p), EnableCmd(q), DisableCmd(p)];
    RunCons("", [], EnableCmd(p), [EnableCmd(q), DisableCmd(p)]);
    RunCons(e1, [p], EnableCmd(q), [DisableCmd(p)]);
    RunCons(e1, [p, q], DisableCmd(p), []);
    assert cs == [EnableCmd(p)] + [EnableCmd(q), DisableCmd(p)];
    assert [EnableCmd(q), DisableCmd(p)] == [EnableCmd(q)] + [DisableCmd(p)] && [DisableCmd(p)] == [DisableCmd(p)] + [];
    assert [] + [p] == [p] && [p] + [q] == [p, q] && Delete([p, q], p) == [q];
    hide Triple, UpAfter, PairsAfter;
    assert Mirrors(DEFAULTS, [], "") by { NoTriples(); }
    BalancedRunMirrors(DEFAULTS, [], "", cs);
  }

  // --------------------------------------------------------- when a command fails

  /** setForwardRules(add) with the answers of its three additions: on a failure the rules
      added so far are deleted again, by first match. */
  function AddForward(ch: Chain, p: Pair, ok1: bool, ok2: bool, ok3: bool): (Chain, bool) {
    if !ok1 then (ch, false)
    else if !ok2 then (Delete(ch + [Back(p)], Back(p)), false)
    else if !ok3 then (Delete(Delete(ch + [Back(p), Bad(p)], Bad(p)), Back(p)), false)
    else (ch + Triple(p), true)
  }

  lemma InChain(ps: seq<Pair>, p: Pair)
    ensures p !in ps ==> Back(p) !in ChainFor(ps) && Bad(p) !in ChainFor(ps)
    ensures p in ps ==> Back(p) in ChainFor(ps) && Bad(p) in ChainFor(ps)
    ensures ps != [] ==> ChainFor(ps) != [] && ChainFor(ps)[|ChainFor(ps)| - 1] == DropAll
  {
    NotInTriples(ps, p);
    if p in ps {
      var a, b := SplitAt(ps, p);
      TriplesConcat(a + [p], b);
      TriplesConcat(a, [p]);
      OneTriple(p);
      assert Back(p) in Triple(p) && Bad(p) in Triple(p);
    }
  }

  /** Unwinding after a later failure gives the chain back exactly when the pair was not enabled
      before; otherwise the older, working copy of its rules is what gets deleted. */
  lemma ForwardUnwindExactly(ps: seq<Pair>, p: Pair, ok2: bool)
    ensures var r := AddForward(ChainFor(ps), p, true, ok2, false);
            !r.1 && (r.0 == ChainFor(ps) <==> p !in ps)
  {
    var ch := ChainFor(ps);
    InChain(ps, p);
    hide Delete, ChainFor, Triple;
    if p !in ps {
      UnwindNew(ch, p);
    } else {
      DeleteInFront(ch, [Back(p)], Back(p));
      DeleteInFront(ch, [Back(p), Bad(p)], Bad(p));
      DeleteKeepsOther(ch, Bad(p), Back(p));
      DeleteInFront(Delete(ch, Bad(p)), [Back(p), Bad(p)], Back(p));
      var r := AddForward(ch, p, true, ok2, false).0;
      assert r[|r| - 1] != DropAll;
    }
  }

  lemma UnwindNew(ch: Chain, p: Pair)
    requires Back(p) !in ch && Bad(p) !in ch
    ensures Delete(ch + [Back(p)], Back(p)) == ch
    ensures Delete(Delete(ch + [Back(p), Bad(p)], Bad(p)), Back(p)) == ch
  {
    hide Delete;
    DeleteAt(ch, Back(p), []);
    assert ch + [Back(p)] + [] == ch + [Back(p)] && ch + [] == ch;
    assert ch + [Back(p), Bad(p)] == ch + [Back(p)] + [Bad(p)] + [];
    DeleteAt(ch + [Back(p)], Bad(p), []);
    assert ch + [Back(p)] + [] == ch + [Back(p)];
  }

  // --------------------------------------------------------------------- the program

  /** A slot in use. */
  predicate Live(s: Slot) { s.name != "" }

  predicate AllGranted(addrs: seq<string>, ok: string -> bool, lok: string -> bool) {
    forall i :: 0 <= i < |addrs| ==> ok(addrs[i]) && lok(addrs[i])
  }

  lemma GrantedNone(ok: string -> bool, lok: string -> bool)
    ensures AllGranted([], ok, lok)
  {
  }

  lemma GrantedStep(addrs: seq<string>, i: nat, ok: string -> bool, lok: string -> bool)
    requires i < |addrs|
    ensures AllGranted(addrs[..i + 1], ok, lok) <==> AllGranted(addrs[..i], ok, lok) && ok(addrs[i]) && lok(addrs[i])
  {
    assert addrs[..i + 1] == addrs[..i] + [addrs[i]];
  }

  /** setDefaults, given what the two flushes answer: it stops at the first that fails. */
  function Reset(st: State, f1: bool, f2: bool): State {
    if !f1 then st else if !f2 then st.(forward := []) else DEFAULTS
  }

  /** disableNat with those answers. */
  function DisableWith(st: State, p: Pair, f1: bool, f2: bool): State {
    var d := State(st.count - 1, DeleteTriple(st.forward, p), st.masq);
    if d.count <= 0 then Reset(d, f1, f2) else d
  }

  lemma DisableFlushed(st: State, p: Pair)
    ensures DisableWith(st, p, true, true) == Disable(st, p)
  {
  }

  /** checkInterface for both, and the count of addresses is met by the arguments. */
  predicate Admitted(p: Pair, count: int, args: seq<string>) {
    |p.int_| <= IFNAMSIZ && |p.ext| <= IFNAMSIZ && count <= |args|
  }

  /** The addresses the loops go through: none for a negative count. */
  function Addrs(count: int, args: seq<string>): seq<string> { if 0 <= count <= |args| then args[..count] else [] }

  /** A rule for each of the first `count` arguments, and two counts. */
  predicate Given(was: Loaded, now: Loaded, count: int, args: seq<string>)
    requires count <= |args|
  {
    && now.rules == was.rules + (set k | 0 <= k < count :: args[k])
    && now.slot == Slot(was.slot.name, was.slot.count + if count > 0 then 2 * count else 0)
  }

  lemma AddressesAdded(s: Slot, rules: set<string>, count: int, args: seq<string>, tok: string -> bool,
                       lok: string -> bool)
    requires s.name != "" && count <= |args|
    requires Addrs(count, args) == [] || AllGranted(Addrs(count, args), tok, lok)
    ensures Given(Loaded(s, rules), AddAll(Loaded(s, rules), Addrs(count, args), tok), count, args)
  {
    var addrs := Addrs(count, args);
    AddAllGranted(Loaded(s, rules), addrs, tok);
    SameAddrs(count, args);
  }

  lemma SameAddrs(count: int, args: seq<string>)
    requires count <= |args|
    ensures |Addrs(count, args)| == if count > 0 then count else 0
    ensures (set i | 0 <= i < |Addrs(count, args)| :: Addrs(count, args)[i]) == set k | 0 <= k < count :: args[k]
  {
    var addrs := Addrs(count, args);
    var here, there := set i | 0 <= i < |addrs| :: addrs[i], set k | 0 <= k < count :: args[k];
    forall a | a in here ensures a in there {
      var i :| 0 <= i < |addrs| && addrs[i] == a;
      assert args[i] == a;
    }
    forall a | a in there ensures a in here {
      var k :| 0 <= k < count && args[k] == a;
      assert addrs[k] == a;
    }
  }

  /** The slot is in use, and the addresses are distinct and have their rules and their counts. */
  predicate Held(s: Slot, rules: set<string>, count: int, args: seq<string>) {
    && s.name != "" && count <= |args| && s.count >= 2 * count
    && (forall i, j :: 0 <= i < j < count ==> args[i] != args[j])
    && forall i :: 0 <= i < count ==> args[i] in rules
  }

  lemma AddressesDropped(s: Slot, rules: set<string>, count: int, args: seq<string>)
    requires Held(s, rules, count, args)
    ensures var left := s.count - if count > 0 then 2 * count else 0;
      DelAll(Loaded(s, rules), Addrs(count, args)) ==
      Loaded(if left > 0 || count <= 0 then s.(count := left) else Slot("", 0),
             rules - set k | 0 <= k < count :: args[k])
  {
    SameAddrs(count, args);
    if count > 0 {
      DelAllHeld(Loaded(s, rules), Addrs(count, args));
    }
  }

  /** What enableNat leaves of the controller when it fails: nothing happened if it is not admitted or a command for an
      address failed, the unwound chain if an addition to it failed, and the defaults, as far as they can be
      restored, if masquerading did. */
  function EnableFailed(st: State, p: Pair, granted: bool, ok1: bool, ok2: bool, ok3: bool, f1: bool, f2: bool): State {
    if !granted then st
    else if !(ok1 && ok2 && ok3) then st.(forward := AddForward(st.forward, p, ok1, ok2, ok3).0)
    else Reset(State(st.count + 1, Enable(st, p).forward, st.masq), f1, f2)
  }

  /** netd's controller over one chain. */
  class Controller {
    var natCount: int
    var forward: Chain
    var masq: seq<string>

    ghost function Model(): State
      reads this
    {
      State(natCount, forward, masq)
    }

    constructor ()
      ensures Model() == DEFAULTS
    {
      natCount, forward, masq := 0, [], [];
    }

    /** setDefaults. The routing rules are flushed with the rest. */
    method SetDefaults(f1: bool, f2: bool, rules0: set<string>) returns (rc: int, rules: set<string>)
      modifies this
      ensures Model() == Reset(old(Model()), f1, f2)
      ensures rc == if f1 && f2 then 0 else -1
      ensures rules == if f1 && f2 then {} else rules0
    {
      if !f1 { return -1, rules0; }
      forward := [];
      if !f2 { return -1, rules0; }
      masq, natCount := [], 0;
      return 0, {};
    }

    /** setForwardRules(true): three additions, each of which may be refused. */
    method AddForwardRules(p: Pair, ok1: bool, ok2: bool, ok3: bool) returns (rc: int)
      modifies this`forward
      ensures (forward, rc == 0) == AddForward(old(forward), p, ok1, ok2, ok3)
    {
      hide Delete;
      if !ok1 { return -1; }
      forward := forward + [Back(p)];
      if !ok2 {
        forward := Delete(forward, Back(p));
        return -1;
      }
      forward := forward + [Bad(p)];
      assert forward == old(forward) + [Back(p), Bad(p)];
      if !ok3 {
        forward := Delete(forward, Bad(p));
        forward := Delete(forward, Back(p));
        return -1;
      }
      forward := forward + [Out(p)];
      assert forward == old(forward) + Triple(p);
      rc := 0;
    }

    /** setForwardRules(false): failures are ignored. */
    method DeleteForwardRules(p: Pair)
      modifies this`forward
      ensures forward == DeleteTriple(old(forward), p)
    {
      hide Delete;
      forward := Delete(forward, Back(p));
      forward := Delete(forward, Bad(p));
      forward := Delete(forward, Out(p));
    }

    /** One turn of that loop: a from-rule and a local route for an address. */
    method AddAddress(ctl: SecondaryTableController, t: nat, addr: string, ok: bool, lok: bool, rules0: set<string>)
      returns (ret: int, rules: set<string>)
      requires ctl.Valid() && t < TRACKED
      modifies ctl.interfaceTable, ctl.ruleCount
      ensures Loaded(ctl.Slots()[t], rules)
           == LocalRouteFor(FromRuleFor(Loaded(old(ctl.Slots())[t], rules0), ADD, addr, ok), ADD)
      ensures forall i :: 0 <= i < TRACKED && i != t ==> ctl.Slots()[i] == old(ctl.Slots())[i]
      ensures ret == 0 || ret == -1
      ensures Live(ctl.Slots()[t]) <==> Live(old(ctl.Slots())[t])
      ensures ret == 0 <==> Live(old(ctl.Slots())[t]) && ok && lok
    {
      rules := if ctl.interfaceTable[t] != "" && ok then rules0 + {addr} else rules0;
      var r1 := ctl.ModifyFromRule(t, ADD, ok);
      var r2 := ctl.ModifyLocalRoute(t, ADD, lok);
      ret := if r1 != 0 || r2 != 0 then -1 else 0;
    }

    /** The loop of enableNat over the addresses. */
    method AddAddresses(ctl: SecondaryTableController, t: nat, addrs: seq<string>, ok: string -> bool,
                        lok: string -> bool, rules0: set<string>)
      returns (ret: int, rules: set<string>)
      requires ctl.Valid() && t < TRACKED
      modifies ctl.interfaceTable, ctl.ruleCount
      ensures Loaded(ctl.Slots()[t], rules) == AddAll(Loaded(old(ctl.Slots())[t], rules0), addrs, ok)
      ensures forall i :: 0 <= i < TRACKED && i != t ==> ctl.Slots()[i] == old(ctl.Slots())[i]
      ensures ret == 0 || ret == -1
      ensures ret == 0 <==> addrs == [] || (Live(old(ctl.Slots())[t]) && AllGranted(addrs, ok, lok))
    {
      hide Counted, Added, Granted, LocalRouteFor, FromRuleFor, Live, AllGranted;
      rules, ret := rules0, 0;
      ghost var x0 := Loaded(ctl.Slots()[t], rules0);
      GrantedNone(ok, lok);
      var i := 0;
      while i < |addrs|
        invariant 0 <= i <= |addrs|
        invariant AddAll(Loaded(ctl.Slots()[t], rules), addrs[i..], ok) == AddAll(x0, addrs, ok)
        invariant ret == 0 || ret == -1
        invariant Live(x0.slot) <==> Live(ctl.Slots()[t])
        invariant ret == 0 <==> i == 0 || (Live(x0.slot) && AllGranted(addrs[..i], ok, lok))
        invariant forall i :: 0 <= i < TRACKED && i != t ==> ctl.Slots()[i] == old(ctl.Slots())[i]
      {
        assert addrs[i..][1..] == addrs[i + 1..];
        GrantedStep(addrs, i, ok, lok);
        var r;
        r, rules := AddAddress(ctl, t, addrs[i], ok(addrs[i]), lok(addrs[i]), rules);
        if r != 0 { ret := -1; }
        i := i + 1;
      }
      assert addrs[..i] == addrs;
    }

    /** The unwinding loop, also the loop of disableNat. */
    method DeleteAddresses(ctl: SecondaryTableController, t: nat, addrs: seq<string>, rules0: set<string>)
      returns (rules: set<string>)
      requires ctl.Valid() && t < TRACKED
      modifies ctl.interfaceTable, ctl.ruleCount
      ensures Loaded(ctl.Slots()[t], rules) == DelAll(Loaded(old(ctl.Slots())[t], rules0), addrs)
      ensures forall i :: 0 <= i < TRACKED && i != t ==> ctl.Slots()[i] == old(ctl.Slots())[i]
    {
      hide Counted;
      rules := rules0;
      ghost var x0 := Loaded(ctl.Slots()[t], rules0);
      var i := 0;
      while i < |addrs|
        invariant 0 <= i <= |addrs|
        invariant DelAll(Loaded(ctl.Slots()[t], rules), addrs[i..]) == DelAll(x0, addrs)
        invariant forall i :: 0 <= i < TRACKED && i != t ==> ctl.Slots()[i] == old(ctl.Slots())[i]
      {
        assert addrs[i..][1..] == addrs[i + 1..];
        var r := ctl.ModifyLocalRoute(t, DEL, true);
        var has := addrs[i] in rules;
        if ctl.interfaceTable[t] != "" && has { rules := rules - {addrs[i]}; }
        r := ctl.ModifyFromRule(t, DEL, has);
        i := i + 1;
      }
    }

    /** The forward rules, the final DROP moved behind them, and the count. */
    method AddPair(p: Pair, ok1: bool, ok2: bool, ok3: bool) returns (ret: int)
      modifies this`forward, this`natCount
      ensures ret == 0 <==> ok1 && ok2 && ok3
      ensures Model() == if ret == 0 then State(old(natCount) + 1, Enable(old(Model()), p).forward, masq)
                         else old(Model()).(forward := AddForward(old(forward), p, ok1, ok2, ok3).0)
    {
      hide Delete, AddForward;
      ForwardAdded(forward, p, ok1, ok2, ok3);
      ret := AddForwardRules(p, ok1, ok2, ok3);
      if ret != 0 { return; }
      forward := Delete(forward, DropAll);
      forward := forward + [DropAll];
      natCount := natCount + 1;
    }

    /** enableNat. `count` is its addrcnt, `args` what follows it. `tok` and `lok` answer the rule and route commands,
        `ok1` to `ok3` the three additions to the chain, `mok` the masquerading rule, `f1` and `f2` the flushes. Every
        failure takes the addresses back. */
    method EnableNat(ctl: SecondaryTableController, p: Pair, count: int, args: seq<string>, tok: string -> bool,
                     lok: string -> bool, ok1: bool, ok2: bool, ok3: bool, mok: bool, f1: bool, f2: bool,
                     rules0: set<string>)
      returns (rc: int, rules: set<string>, ghost granted: bool)
      requires ctl.Valid()
      modifies this, ctl.interfaceTable, ctl.ruleCount
      ensures rc == 0 || rc == -1
      ensures rc == 0 <==> granted && ok1 && ok2 && ok3 && (old(natCount) == 0 ==> mok)
      ensures Model() == if rc == 0 then Enable(old(Model()), p)
                         else EnableFailed(old(Model()), p, granted, ok1, ok2, ok3, f1, f2)
      ensures var addrs := Addrs(count, args);
        granted <==>
          && Admitted(p, count, args)
          && (Find(old(ctl.Slots()), p.ext) < 0 || addrs == [] || (p.ext != "" && AllGranted(addrs, tok, lok)))
      ensures var t := Find(old(ctl.Slots()), p.ext);
        Admitted(p, count, args) && t >= 0 ==>
          var addrs := Addrs(count, args);
          var added := AddAll(Loaded(old(ctl.Slots())[t], rules0), addrs, tok);
          && ctl.Slots()[t] == (if rc == 0 then added else DelAll(added, addrs)).slot
          && rules == if rc == 0 then added.rules
                      else if granted && ok1 && ok2 && ok3 && f1 && f2 then {} else DelAll(added, addrs).rules
      ensures Admitted(p, count, args) && Find(old(ctl.Slots()), p.ext) < 0 ==>
        rules == if rc != 0 && ok1 && ok2 && ok3 && f1 && f2 then {} else rules0
      ensures forall i :: 0 <= i < TRACKED && i != Find(old(ctl.Slots()), p.ext) ==>
        ctl.Slots()[i] == old(ctl.Slots())[i]
      ensures !Admitted(p, count, args) ==> ctl.Slots() == old(ctl.Slots()) && rules == rules0
      // What that comes to: who is refused, and what each of the addresses has got.
      ensures |p.int_| > 16 || |p.ext| > 16 || |args| < count ==>
        rc == -1 && Model() == old(Model()) && ctl.Slots() == old(ctl.Slots()) && rules == rules0
      ensures var t := Find(old(ctl.Slots()), p.ext);
        rc == 0 && t >= 0 && p.ext != "" && count <= |args| ==>
          Given(Loaded(old(ctl.Slots())[t], rules0), Loaded(ctl.Slots()[t], rules), count, args)
    {
      hide Find, AddAll, DelAll, Delete, AddForward, AllGranted, Reset, Addrs, Given;
      rules := rules0;
      granted := false;
      if |p.int_| > IFNAMSIZ || |p.ext| > IFNAMSIZ { return -1, rules, granted; }
      if |args| < count { return -1, rules, granted; }
      var addrs := Addrs(count, args);
      var t := ctl.FindTableNumber(p.ext);
      var ret := 0;
      if t != -1 {
        ret, rules := AddAddresses(ctl, t, addrs, tok, lok, rules0);
      }
      granted := ret == 0;
      if ret == 0 {
        ret := AddPair(p, ok1, ok2, ok3);
      }
      if ret != 0 {
        if t != -1 {
          rules := DeleteAddresses(ctl, t, addrs, rules);
        }
        return -1, rules, granted;
      }
      if t != -1 && p.ext != "" { AddressesAdded(old(ctl.Slots())[t], rules0, count, args, tok, lok); }
      if natCount == 1 {
        if !mok {
          if t != -1 {
            rules := DeleteAddresses(ctl, t, addrs, rules);
          }
          var r;
          r, rules := SetDefaults(f1, f2, rules);
          return -1, rules, granted;
        }
        masq := masq + [p.ext];
      }
      rc := 0;
    }

    /** disableNat, likewise. */
    method DisableNat(ctl: SecondaryTableController, p: Pair, count: int, args: seq<string>, f1: bool, f2: bool,
                      rules0: set<string>)
      returns (rc: int, rules: set<string>)
      requires ctl.Valid()
      modifies this, ctl.interfaceTable, ctl.ruleCount
      ensures rc == if Admitted(p, count, args) then 0 else -1
      ensures Model() == if rc == 0 then DisableWith(old(Model()), p, f1, f2) else old(Model())
      ensures rc == 0 && Find(old(ctl.Slots()), p.ext) >= 0 ==>
        var t := Find(old(ctl.Slots()), p.ext);
        var left := DelAll(Loaded(old(ctl.Slots())[t], rules0), Addrs(count, args));
        && ctl.Slots()[t] == left.slot
        && rules == if old(natCount) <= 1 && f1 && f2 then {} else left.rules
      ensures rc == 0 && Find(old(ctl.Slots()), p.ext) < 0 ==>
        rules == if old(natCount) <= 1 && f1 && f2 then {} else rules0
      ensures forall i :: 0 <= i < TRACKED && i != Find(old(ctl.Slots()), p.ext) ==>
        ctl.Slots()[i] == old(ctl.Slots())[i]
      ensures rc == -1 ==> ctl.Slots() == old(ctl.Slots()) && rules == rules0
      // What that comes to: who is refused, and what the addresses lose that an enable gave them.
      ensures rc == -1 <==> |p.int_| > 16 || |p.ext| > 16 || |args| < count
      ensures var t := Find(old(ctl.Slots()), p.ext);
        rc == 0 && t >= 0 && Held(old(ctl.Slots())[t], rules0, count, args) ==>
          var left := old(ctl.Slots())[t].count - if count > 0 then 2 * count else 0;
          && ctl.Slots()[t] == (if left > 0 || count <= 0 then Slot(p.ext, left) else Slot("", 0))
          && rules == if old(natCount) <= 1 && f1 && f2 then {} else rules0 - (set k | 0 <= k < count :: args[k])
    {
      hide Find, DelAll, DeleteTriple, Addrs, Held;
      rules := rules0;
      if |p.int_| > IFNAMSIZ || |p.ext| > IFNAMSIZ { return -1, rules; }
      if |args| < count { return -1, rules; }
      var addrs := Addrs(count, args);
      DeleteForwardRules(p);
      var t := ctl.FindTableNumber(p.ext);
      if t != -1 {
        rules := DeleteAddresses(ctl, t, addrs, rules0);
      }
      if t != -1 && Held(old(ctl.Slots())[t], rules0, count, args) {
        AddressesDropped(old(ctl.Slots())[t], rules0, count, args);
      }
      natCount := natCount - 1;
      rc := 0;
      if natCount <= 0 {
        var r;
        r, rules := SetDefaults(f1, f2, rules);
      }
    }

    /** Any number of requests, whatever their commands are answered: if all were careful, the controller mirrors the
        pairs of those answered with 0, and packets are let through exactly as these allow. */
    method Serve(ctl: SecondaryTableController, reqs: seq<Request>, rules0: set<string>, ghost ps: seq<Pair>,
                 ghost up: string)
      returns (rcs: seq<int>, rules: set<string>)
      requires ctl.Valid() && Mirrors(Model(), ps, up)
      modifies this, ctl.interfaceTable, ctl.ruleCount
      ensures |rcs| == |reqs|
      ensures Careful(ps, reqs, rcs) ==>
        var cs := Effective(reqs, rcs);
        && Balanced(ps, cs) && Mirrors(Model(), PairsAfter(ps, cs), UpAfter(up, ps, cs))
        && forall k :: PairsAfter(ps, cs) != [] ==> (Verdict(forward, k) == RETURN <==> Allowed(PairsAfter(ps, cs), k))
    {
      hide Careful, Effective, Balanced, Mirrors, PairsAfter, UpAfter, Follows, Verdict, Allowed, PairStep, UpStep;
      rcs, rules := [], rules0;
      ghost var ps', up' := ps, up;
      ServeNone(reqs, ps, up);
      while |rcs| < |reqs|
        invariant |rcs| <= |reqs| && ctl.Valid()
        invariant Careful(ps, reqs[..|rcs|], rcs) ==> Mirrors(Model(), ps', up')
        invariant Follows(ps, up, reqs[..|rcs|], rcs, ps', up')
      {
        var n := |rcs|;
        var rc;
        rc, rules := ServeOne(ctl, reqs[n], rules, ps', up');
        ServeStep(ps, up, reqs, rcs, rc, ps', up');
        up' := if rc == 0 then UpStep(up', ps', reqs[n].c) else up';
        ps' := if rc == 0 then PairStep(ps', reqs[n].c) else ps';
        rcs := rcs + [rc];
      }
      assert reqs[..|rcs|] == reqs;
      ServeEnd(Model(), ps, up, reqs, rcs, ps', up');
    }

    /** One request: answered 0 it takes effect, otherwise a careful one leaves the controller as it was. */
    method ServeOne(ctl: SecondaryTableController, q: Request, rules0: set<string>, ghost ps: seq<Pair>,
                    ghost up: string)
      returns (rc: int, rules: set<string>)
      requires ctl.Valid()
      modifies this, ctl.interfaceTable, ctl.ruleCount
      ensures Mirrors(old(Model()), ps, up) && CarefulOne(ps, q, rc) ==>
        if rc == 0 then Mirrors(Model(), PairStep(ps, q.c), UpStep(up, ps, q.c)) else Mirrors(Model(), ps, up)
    {
      hide Mirrors, EnableFailed, Enable, Disable, DisableWith, Delete;
      ghost var st := Model();
      match q.c {
      case EnableCmd(p) =>
        ghost var granted;
        rc, rules, granted := EnableNat(ctl, p, q.count, q.args, q.tok, q.lok, q.ok1, q.ok2, q.ok3, q.mok, q.f1, q.f2,
                                        rules0);
        if Mirrors(st, ps, up) && CarefulOne(ps, q, rc) {
          if rc == 0 {
            EnableMirrors(st, ps, up, p);
          } else {
            FailedHarmless(st, ps, up, p, granted, q);
          }
        }
      case DisableCmd(p) =>
        rc, rules := DisableNat(ctl, p, q.count, q.args, q.f1, q.f2, rules0);
        if Mirrors(st, ps, up) && CarefulOne(ps, q, rc) && rc == 0 {
          DisableFlushed(st, p);
          DisableMirrorsExactly(st, ps, up, p);
        }
      }
    }
  }

  // ------------------------------------------------------- requests and their answers

  /** A command with its addresses and what every command it runs is answered. */
  datatype Request = Request(c: Cmd, count: int, args: seq<string>, tok: string -> bool, lok: string -> bool,
                             ok1: bool, ok2: bool, ok3: bool, mok: bool, f1: bool, f2: bool)

  /** Careful: the flushes work, a disable is of an enabled pair, and an enable that fails is of one that is not. */
  predicate CarefulOne(ps: seq<Pair>, q: Request, rc: int) {
    && q.f1 && q.f2
    && if q.c.DisableCmd? then rc == 0 ==> q.c.p in ps else rc != 0 ==> q.c.p !in ps
  }

  predicate Careful(ps: seq<Pair>, reqs: seq<Request>, rcs: seq<int>)
    requires |rcs| == |reqs|
    decreases |reqs|
  {
    reqs == []
    || (CarefulOne(ps, reqs[0], rcs[0])
        && Careful(if rcs[0] == 0 then PairStep(ps, reqs[0].c) else ps, reqs[1..], rcs[1..]))
  }

  /** The commands that were answered 0. */
  function Effective(reqs: seq<Request>, rcs: seq<int>): seq<Cmd>
    requires |rcs| == |reqs|
    decreases |reqs|
  {
    if reqs == [] then []
    else (if rcs[0] == 0 then [reqs[0].c] else []) + Effective(reqs[1..], rcs[1..])
  }

  /** An enable that fails, of a pair that was not enabled, leaves everything as it was. */
  lemma FailedHarmless(st: State, ps: seq<Pair>, up: string, p: Pair, granted: bool, q: Request)
    requires Mirrors(st, ps, up) && p !in ps && q.f1 && q.f2
    requires !(granted && q.ok1 && q.ok2 && q.ok3 && (st.count == 0 ==> q.mok))
    ensures EnableFailed(st, p, granted, q.ok1, q.ok2, q.ok3, q.f1, q.f2) == st
  {
    NoTriples();
    InChain(ps, p);
    UnwindNew(ChainFor(ps), p);
    hide Delete, Triple, ChainFor;
  }

  /** Where a run has got to. */
  predicate Follows(ps: seq<Pair>, up: string, reqs: seq<Request>, rcs: seq<int>, ps': seq<Pair>, up': string) {
    && |rcs| == |reqs|
    && ps' == PairsAfter(ps, Effective(reqs, rcs)) && up' == UpAfter(up, ps, Effective(reqs, rcs))
    && (Careful(ps, reqs, rcs) ==> Balanced(ps, Effective(reqs, rcs)))
  }

  lemma ServeNone(reqs: seq<Request>, ps: seq<Pair>, up: string)
    ensures Careful(ps, reqs[..0], []) && Follows(ps, up, reqs[..0], [], ps, up)
  {
  }

  lemma ServeStep(ps: seq<Pair>, up: string, reqs: seq<Request>, rcs: seq<int>, rc: int, ps': seq<Pair>, up': string)
    requires |rcs| < |reqs| && Follows(ps, up, reqs[..|rcs|], rcs, ps', up')
    ensures var n := |rcs|;
      && (Careful(ps, reqs[..n + 1], rcs + [rc]) <==> Careful(ps, reqs[..n], rcs) && CarefulOne(ps', reqs[n], rc))
      && Follows(ps, up, reqs[..n + 1], rcs + [rc],
                 if rc == 0 then PairStep(ps', reqs[n].c) else ps',
                 if rc == 0 then UpStep(up', ps', reqs[n].c) else up')
  {
    var n := |rcs|;
    assert reqs[..n + 1] == reqs[..n] + [reqs[n]];
    FollowSnoc(ps, up, reqs[..n], rcs, reqs[n], rc);
  }

  lemma {:induction false} FollowSnoc(ps: seq<Pair>, up: string, reqs: seq<Request>, rcs: seq<int>, q: Request, rc: int)
    requires |rcs| == |reqs|
    ensures var cs, ds := Effective(reqs, rcs), Effective(reqs + [q], rcs + [rc]);
      var ps', up' := PairsAfter(ps, cs), UpAfter(up, ps, cs);
      && (Careful(ps, reqs + [q], rcs + [rc]) <==> Careful(ps, reqs, rcs) && CarefulOne(ps', q, rc))
      && PairsAfter(ps, ds) == (if rc == 0 then PairStep(ps', q.c) else ps')
      && UpAfter(up, ps, ds) == (if rc == 0 then UpStep(up', ps', q.c) else up')
      && (Balanced(ps, ds) <==> Balanced(ps, cs) && (rc == 0 && q.c.DisableCmd? ==> q.c.p in ps'))
    decreases |reqs|
  {
    hide PairStep, UpStep, CarefulOne;
    if reqs == [] {
      assert reqs + [q] == [q] && rcs + [rc] == [rc] && [q][1..] == [] && [rc][1..] == [];
      assert [q.c] + [] == [q.c] && [q.c][1..] == [];
    } else {
      var c, now := reqs[0].c, rcs[0] == 0;
      FollowSnoc(if now then PairStep(ps, c) else ps, if now then UpStep(up, ps, c) else up, reqs[1..], rcs[1..], q,
                 rc);
      assert (reqs + [q])[1..] == reqs[1..] + [q] && (rcs + [rc])[1..] == rcs[1..] + [rc];
      assert forall more: seq<Cmd> :: ([c] + more)[1..] == more && [] + more == more;
    }
  }

  lemma ServeEnd(st: State, ps: seq<Pair>, up: string, reqs: seq<Request>, rcs: seq<int>, ps': seq<Pair>, up': string)
    requires Follows(ps, up, reqs, rcs, ps', up') && (Careful(ps, reqs, rcs) ==> Mirrors(st, ps', up'))
    ensures Careful(ps, reqs, rcs) ==>
      var cs := Effective(reqs, rcs);
      && Balanced(ps, cs) && Mirrors(st, PairsAfter(ps, cs), UpAfter(up, ps, cs))
      && forall k :: PairsAfter(ps, cs) != [] ==> (Verdict(st.forward, k) == RETURN <==> Allowed(PairsAfter(ps, cs), k))
  {
    hide Verdict, Allowed, Careful, Effective, Balanced, PairsAfter, UpAfter;
    if Careful(ps, reqs, rcs) && ps' != [] {
      forall k ensures Verdict(st.forward, k) == RETURN <==> Allowed(ps', k) {
        FirstMatchMeaning(ps', k);
      }
    }
  }

  lemma ForwardAdded(ch: Chain, p: Pair, ok1: bool, ok2: bool, ok3: bool)
    ensures AddForward(ch, p, ok1, ok2, ok3).1 <==> ok1 && ok2 && ok3
    ensures AddForward(ch, p, ok1, ok2, ok3).1 ==> AddForward(ch, p, ok1, ok2, ok3).0 == ch + Triple(p)
  {
  }
}
