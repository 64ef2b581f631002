/** Secondary routing tables (netd/SecondaryTableController.cpp): ten slots, each a name and a
    count of the rules that need it, over the kernel's "from" rules. */
module SecondaryTable {

  const TRACKED: nat := 10
  const IFNAMSIZ: nat := 16

  datatype Slot = Slot(name: string, count: int)

  datatype Action = ADD | DEL

  /** modifyRuleCount on one slot: a slot whose count falls below one is freed. */
  function Counted(s: Slot, a: Action): Slot {
    if a.ADD? then s.(count := s.count + 1)
    else if s.count - 1 < 1 then Slot("", 0)
    else s.(count := s.count - 1)
  }

  /** findTableNumber: the first slot of that name, or -1. */
  function Find(slots: seq<Slot>, name: string): (r: int)
    ensures -1 <= r < |slots|
    ensures r >= 0 ==> slots[r].name == name
    ensures forall i :: 0 <= i < (if r >= 0 then r else |slots|) ==> slots[i].name != name
  {
    if slots == [] then -1
    else if slots[0].name == name then 0
    else var r := Find(slots[1..], name);
         if r < 0 then -1 else r + 1
  }

  // ----------------------------------------------------------------- what is counted

  /** What is alive in one slot: routes, from-rules, local routes asked for. */
  datatype Ledger = Ledger(routes: nat, froms: nat, locals: nat)
  {
    function Weight(): nat { 2 * routes + froms + locals }
  }

  /** Used names are distinct, and a count is two per route plus one per from-rule and one per
      local route. */
  ghost predicate Consistent(slots: seq<Slot>, ledgers: seq<Ledger>) {
    && |slots| == |ledgers| == TRACKED
    && (forall i, j :: 0 <= i < j < |slots| && slots[i].name != "" ==> slots[i].name != slots[j].name)
    && (forall i :: 0 <= i < |slots| ==> slots[i].count == ledgers[i].Weight())
    && (forall i :: 0 <= i < |slots| && slots[i].name == "" ==> slots[i].count == 0)
  }

  /** The commands: route changes by interface, rule and local route changes by slot. `ok` is
      what the ip command answers. */
  datatype Cmd =
    | AddRoute(iface: string, ok: bool)
    | RemoveRoute(iface: string, ok: bool)
    | FromRule(t: int, a: Action, ok: bool)
    | LocalRoute(t: int, a: Action, ok: bool)

  /** modifyRoute: two counts per route. */
  function ModifyRoute(slots: seq<Slot>, t: nat, a: Action, ok: bool): seq<Slot>
    requires t < |slots|
  {
    if !ok then slots else slots[t := Counted(Counted(slots[t], a), a)]
  }

  function Truncated(iface: string): string {
    if |iface| <= IFNAMSIZ then iface else iface[..IFNAMSIZ]
  }

  predicate Usable(slots: seq<Slot>, t: int) { 0 <= t < |slots| && slots[t].name != "" }

  function Step(slots: seq<Slot>, c: Cmd): (r: seq<Slot>)
    requires |slots| == TRACKED
    ensures |r| == TRACKED
  {
    match c
    case AddRoute(iface, ok) =>
      var t := Find(slots, iface);
      if t >= 0 then ModifyRoute(slots, t, ADD, ok)
      else
        var e := Find(slots, "");
        if e < 0 then slots
        else ModifyRoute(slots[e := slots[e].(name := Truncated(iface))], e, ADD, ok)
    case RemoveRoute(iface, ok) =>
      var t := Find(slots, iface);
      if t < 0 then slots else ModifyRoute(slots, t, DEL, ok)
    case FromRule(t, a, ok) =>
      if Usable(slots, t) && ok then slots[t := Counted(slots[t], a)] else slots
    case LocalRoute(t, a, ok) =>
      if Usable(slots, t) then slots[t := Counted(slots[t], a)] else slots
  }

  /** The ledger after a command that took effect. */
  function Entered(slots: seq<Slot>, ledgers: seq<Ledger>, c: Cmd): (r: seq<Ledger>)
    requires |slots| == |ledgers| == TRACKED
    ensures |r| == TRACKED
  {
    match c
    case AddRoute(iface, ok) =>
      var t := if Find(slots, iface) >= 0 then Find(slots, iface) else Find(slots, "");
      if t < 0 || !ok then ledgers else ledgers[t := ledgers[t].(routes := ledgers[t].routes + 1)]
    case RemoveRoute(iface, ok) =>
      var t := Find(slots, iface);
      if t < 0 || !ok || ledgers[t].routes == 0 then ledgers
      else ledgers[t := ledgers[t].(routes := ledgers[t].routes - 1)]
    case FromRule(t, a, ok) =>
      if !Usable(slots, t) || !ok then ledgers
      else if a.ADD? then ledgers[t := ledgers[t].(froms := ledgers[t].froms + 1)]
      else if ledgers[t].froms == 0 then ledgers
      else ledgers[t := ledgers[t].(froms := ledgers[t].froms - 1)]
    case LocalRoute(t, a, ok) =>
      if !Usable(slots, t) then ledgers
      else if a.ADD? then ledgers[t := ledgers[t].(locals := ledgers[t].locals + 1)]
      else if ledgers[t].locals == 0 then ledgers
      else ledgers[t := ledgers[t].(locals := ledgers[t].locals - 1)]
  }

  /** Interface names of one to sixteen characters, and every deletion undoes an addition. */
  predicate Matched(slots: seq<Slot>, ledgers: seq<Ledger>, c: Cmd)
    requires |slots| == |ledgers| == TRACKED
  {
    match c
    case AddRoute(iface, _) => 1 <= |iface| <= IFNAMSIZ
    case RemoveRoute(iface, ok) =>
      1 <= |iface| && (Find(slots, iface) >= 0 && ok ==> ledgers[Find(slots, iface)].routes > 0)
    case FromRule(t, a, ok) => Usable(slots, t) && a.DEL? && ok ==> ledgers[t].froms > 0
    case LocalRoute(t, a, _) => Usable(slots, t) && a.DEL? ==> ledgers[t].locals > 0
  }

  /** What NatController's `ip rule flush` leaves alive: it takes every from-rule and no count. */
  function RulesFlushed(ledgers: seq<Ledger>): seq<Ledger> {
    seq(|ledgers|, i requires 0 <= i < |ledgers| => ledgers[i].(froms := 0))
  }

  /** So the counts stay right exactly when no from-rule was alive. */
  lemma FlushKeepsCountsExactly(slots: seq<Slot>, ledgers: seq<Ledger>)
    requires Consistent(slots, ledgers)
    ensures Consistent(slots, RulesFlushed(ledgers)) <==> forall i :: 0 <= i < |ledgers| ==> ledgers[i].froms == 0
  {
    var left := RulesFlushed(ledgers);
    forall i | 0 <= i < |ledgers|
      ensures slots[i].count == left[i].Weight() <==> ledgers[i].froms == 0
    {
    }
  }

  /** One slot and its ledger change together. */
  lemma ChangeOne(slots: seq<Slot>, ledgers: seq<Ledger>, t: nat, s: Slot, l: Ledger)
    requires Consistent(slots, ledgers) && t < TRACKED
    requires s.count == l.Weight() && (s.name == "" ==> s.count == 0)
    requires s.name == "" || s.name == slots[t].name || forall i :: 0 <= i < TRACKED ==> slots[i].name != s.name
    ensures Consistent(slots[t := s], ledgers[t := l])
  {
  }

  /** A count goes down by one of something alive: the slot is freed iff that was the last. */
  lemma CountedWeight(s: Slot, l: Ledger, l': Ledger, a: Action)
    requires s.count == l.Weight() && s.name != ""
    requires l'.Weight() == if a.ADD? then l.Weight() + 1 else l.Weight() - 1
    ensures Counted(s, a).count == l'.Weight()
    ensures Counted(s, a) == if l'.Weight() == 0 then Slot("", 0) else Slot(s.name, l'.Weight())
  {
  }

  lemma RouteCounted(s: Slot, l: Ledger, l': Ledger, a: Action)
    requires s.count == l.Weight() && s.name != ""
    requires l'.Weight() == if a.ADD? then l.Weight() + 2 else l.Weight() - 2
    ensures Counted(Counted(s, a), a) == if l'.Weight() == 0 then Slot("", 0) else Slot(s.name, l'.Weight())
  {
  }

  /** Every matched command keeps the slots consistent, and frees a slot only when nothing is
      alive in it. */
  lemma StepConsistent(slots: seq<Slot>, ledgers: seq<Ledger>, c: Cmd)
    requires Consistent(slots, ledgers) && Matched(slots, ledgers, c)
    ensures Consistent(Step(slots, c), Entered(slots, ledgers, c))
    ensures forall i :: 0 <= i < TRACKED && slots[i].name != "" && Step(slots, c)[i].name != slots[i].name ==>
      Entered(slots, ledgers, c)[i].Weight() == 0
  {
    hide Find, Counted;
    match c
    case AddRoute(iface, ok) =>
      var t := Find(slots, iface);
      var e := Find(slots, "");
      if t < 0 && e >= 0 {
        ChangeOne(slots, ledgers, e, slots[e].(name := iface), ledgers[e]);
        var named := slots[e := slots[e].(name := iface)];
        assert ledgers[e := ledgers[e]] == ledgers;
        var l := ledgers[e].(routes := ledgers[e].routes + 1);
        RouteCounted(named[e], ledgers[e], l, ADD);
        ChangeOne(named, ledgers, e, Counted(Counted(named[e], ADD), ADD), l);
      } else if t >= 0 && ok {
        var l := ledgers[t].(routes := ledgers[t].routes + 1);
        RouteCounted(slots[t], ledgers[t], l, ADD);
        ChangeOne(slots, ledgers, t, Counted(Counted(slots[t], ADD), ADD), l);
      }
    case RemoveRoute(iface, ok) =>
      var t := Find(slots, iface);
      if t >= 0 && ok {
        var l := ledgers[t].(routes := ledgers[t].routes - 1);
        RouteCounted(slots[t], ledgers[t], l, DEL);
        ChangeOne(slots, ledgers, t, Counted(Counted(slots[t], DEL), DEL), l);
      }
    case FromRule(t, a, ok) =>
      if Usable(slots, t) && ok {
        var l := ledgers[t].(froms := if a.ADD? then ledgers[t].froms + 1 else ledgers[t].froms - 1);
        CountedWeight(slots[t], ledgers[t], l, a);
        ChangeOne(slots, ledgers, t, Counted(slots[t], a), l);
      }
    case LocalRoute(t, a, ok) =>
      if Usable(slots, t) {
        var l := ledgers[t].(locals := if a.ADD? then ledgers[t].locals + 1 else ledgers[t].locals - 1);
        CountedWeight(slots[t], ledgers[t], l, a);
        ChangeOne(slots, ledgers, t, Counted(slots[t], a), l);
      }
  }

  function Run(slots: seq<Slot>, cs: seq<Cmd>): (r: seq<Slot>)
    requires |slots| == TRACKED
    ensures |r| == TRACKED
    decreases |cs|
  {
    if cs == [] then slots else Run(Step(slots, cs[0]), cs[1..])
  }

  function LedgerRun(slots: seq<Slot>, ledgers: seq<Ledger>, cs: seq<Cmd>): (r: seq<Ledger>)
    requires |slots| == |ledgers| == TRACKED
    ensures |r| == TRACKED
    decreases |cs|
  {
    if cs == [] then ledgers else LedgerRun(Step(slots, cs[0]), Entered(slots, ledgers, cs[0]), cs[1..])
  }

  predicate AllMatched(slots: seq<Slot>, ledgers: seq<Ledger>, cs: seq<Cmd>)
    requires |slots| == |ledgers| == TRACKED
    decreases |cs|
  {
    cs == [] || (Matched(slots, ledgers, cs[0])
                 && AllMatched(Step(slots, cs[0]), Entered(slots, ledgers, cs[0]), cs[1..]))
  }

  /** Over every run of matched commands. */
  lemma {:induction false} RunConsistent(slots: seq<Slot>, ledgers: seq<Ledger>, cs: seq<Cmd>)
    requires Consistent(slots, ledgers) && AllMatched(slots, ledgers, cs)
    ensures Consistent(Run(slots, cs), LedgerRun(slots, ledgers, cs))
    decreases |cs|
  {
    assert |slots| == |ledgers| == TRACKED;
    hide Step, Entered, Matched, Consistent;
    if cs != [] {
      StepConsistent(slots, ledgers, cs[0]);
      RunConsistent(Step(slots, cs[0]), Entered(slots, ledgers, cs[0]), cs[1..]);
    }
  }

  /** A name longer than sixteen characters is stored cut and never found again: two additions
      for it take two slots. */
  lemma LongNameTakesTwoSlots(iface: string)
    requires |iface| > IFNAMSIZ
    ensures var slots := Run(NO_SLOTS, [AddRoute(iface, true), AddRoute(iface, true)]);
            slots[0] == slots[1] == Slot(iface[..IFNAMSIZ], 2)
  {
    var empty := NO_SLOTS;
    var c := AddRoute(iface, true);
    var one := Step(empty, c);
    assert one == empty[0 := Slot(iface[..IFNAMSIZ], 2)];
    assert one[0].name != iface && one[0].name != "";
    assert Find(one, iface) == -1;
    assert Find(one, "") == 1;
    var two := Step(one, c);
    assert [c, c][1..] == [c] && [c][1..] == [];
    assert Run(empty, [c, c]) == Run(one, [c]) == Run(two, []) == two;
  }

  const NO_SLOTS: seq<Slot> := seq(TRACKED, i => Slot("", 0))
  const NO_LEDGERS: seq<Ledger> := seq(TRACKED, i => Ledger(0, 0, 0))

  ghost predicate OnlyAdds(iface: string, cs: seq<Cmd>) {
    forall c :: c in cs ==> c.AddRoute? && c.iface == iface
  }

  lemma {:induction false} AddsMatched(slots: seq<Slot>, ledgers: seq<Ledger>, iface: string, cs: seq<Cmd>)
    requires |slots| == |ledgers| == TRACKED && OnlyAdds(iface, cs) && 1 <= |iface| <= IFNAMSIZ
    ensures AllMatched(slots, ledgers, cs)
    decreases |cs|
  {
    hide Step, Entered;
    if cs != [] {
      AddsMatched(Step(slots, cs[0]), Entered(slots, ledgers, cs[0]), iface, cs[1..]);
    }
  }

  /** Routes for one interface keep the slots consistent, however many are added, exactly when its
      name has one to sixteen characters. */
  lemma NameLengthExactly(iface: string)
    ensures (forall cs :: OnlyAdds(iface, cs) ==>
               Consistent(Run(NO_SLOTS, cs), LedgerRun(NO_SLOTS, NO_LEDGERS, cs)))
            <==> 1 <= |iface| <= IFNAMSIZ
  {
    hide LedgerRun, Step;
    if 1 <= |iface| <= IFNAMSIZ {
      hide Consistent, Run;
      forall cs | OnlyAdds(iface, cs)
        ensures Consistent(Run(NO_SLOTS, cs), LedgerRun(NO_SLOTS, NO_LEDGERS, cs))
      {
        AddsMatched(NO_SLOTS, NO_LEDGERS, iface, cs);
        RunConsistent(NO_SLOTS, NO_LEDGERS, cs);
      }
    } else {
      var c := AddRoute(iface, true);
      assert OnlyAdds(iface, [c, c]);
      if |iface| > IFNAMSIZ {
        LongNameTakesTwoSlots(iface);
      } else {
        EmptyNameCounts(iface);
      }
    }
  }

  /** A route for the empty name is counted in a slot that looks free. */
  lemma EmptyNameCounts(iface: string)
    requires iface == ""
    ensures Run(NO_SLOTS, [AddRoute(iface, true), AddRoute(iface, true)])[0] == Slot("", 4)
  {
    var c := AddRoute(iface, true);
    var one := Step(NO_SLOTS, c);
    assert one == NO_SLOTS[0 := Slot("", 2)];
    var two := Step(one, c);
    assert [c, c][1..] == [c] && [c][1..] == [];
    assert Run(NO_SLOTS, [c, c]) == Run(one, [c]) == Run(two, []) == two;
  }

  // ------------------------------------------------------- adding, then taking back

  /** One slot with the from-rules the kernel holds for its table. */
  datatype Loaded = Loaded(slot: Slot, rules: set<string>)

  /** modifyFromRule for one address; `ok` is the answer to an addition, a deletion works
      exactly when the kernel has the rule. */
  function FromRuleFor(x: Loaded, a: Action, addr: string, ok: bool): Loaded {
    if x.slot.name == "" then x
    else if a.ADD? then
      if ok then Loaded(Counted(x.slot, ADD), x.rules + {addr}) else x
    else
      if addr in x.rules then Loaded(Counted(x.slot, DEL), x.rules - {addr}) else x
  }

  /** modifyLocalRoute: counted before the command runs, whatever it answers. */
  function LocalRouteFor(x: Loaded, a: Action): Loaded {
    if x.slot.name == "" then x else x.(slot := Counted(x.slot, a))
  }

  /** The first loop of enableNat: per address a from-rule and a local route. */
  function AddAll(x: Loaded, addrs: seq<string>, ok: string -> bool): Loaded
    decreases |addrs|
  {
    if addrs == [] then x
    else AddAll(LocalRouteFor(FromRuleFor(x, ADD, addrs[0], ok(addrs[0])), ADD), addrs[1..], ok)
  }

  /** Its unwinding: per address the local route, then the from-rule. */
  function DelAll(x: Loaded, addrs: seq<string>): Loaded
    decreases |addrs|
  {
    if addrs == [] then x
    else DelAll(FromRuleFor(LocalRouteFor(x, DEL), DEL, addrs[0], true), addrs[1..])
  }

  predicate DistinctAddrs(addrs: seq<string>) {
    forall i, j :: 0 <= i < j < |addrs| ==> addrs[i] != addrs[j]
  }

  /** The from-rules that the additions got through, and how many. */
  function Added(addrs: seq<string>, ok: string -> bool): set<string> {
    set a | a in addrs && ok(a)
  }

  function Granted(addrs: seq<string>, ok: string -> bool): nat {
    if addrs == [] then 0 else (if ok(addrs[0]) then 1 else 0) + Granted(addrs[1..], ok)
  }

  lemma AddedCons(addrs: seq<string>, ok: string -> bool)
    requires addrs != []
    ensures Added(addrs, ok) == (if ok(addrs[0]) then {addrs[0]} else {}) + Added(addrs[1..], ok)
  {
    assert forall a :: a in addrs <==> a == addrs[0] || a in addrs[1..];
  }

  lemma {:induction false} AddAllEffect(x: Loaded, addrs: seq<string>, ok: string -> bool)
    requires x.slot.name != ""
    ensures AddAll(x, addrs, ok) ==
      Loaded(x.slot.(count := x.slot.count + |addrs| + Granted(addrs, ok)), x.rules + Added(addrs, ok))
    decreases |addrs|
  {
    if addrs != [] {
      var x1 := LocalRouteFor(FromRuleFor(x, ADD, addrs[0], ok(addrs[0])), ADD);
      AddAllEffect(x1, addrs[1..], ok);
      AddedCons(addrs, ok);
    }
  }

  /** One address taken back, `left` being what remains counted. */
  lemma DelOne(name: string, left: nat, others: set<string>, a: string, got: bool)
    requires name != "" && a !in others
    ensures var x := Loaded(Slot(name, left + 1 + if got then 1 else 0), if got then others + {a} else others);
            FromRuleFor(LocalRouteFor(x, DEL), DEL, a, true)
            == Loaded(if left > 0 then Slot(name, left) else Slot("", 0), others)
  {
    if got {
      assert others + {a} - {a} == others;
    }
  }

  /** Unwinding undoes exactly what got through, address by address; the slot survives iff
      something else was counted in it. */
  lemma {:induction false} DelAllEffect(s: Slot, rules: set<string>, addrs: seq<string>, ok: string -> bool)
    requires s.name != "" && s.count >= 0 && DistinctAddrs(addrs)
    requires forall a :: a in addrs ==> a !in rules
    ensures DelAll(Loaded(s.(count := s.count + |addrs| + Granted(addrs, ok)), rules + Added(addrs, ok)), addrs)
         == Loaded(if s.count > 0 || addrs == [] then s else Slot("", 0), rules)
    decreases |addrs|
  {
    if addrs == [] {
      assert rules + Added(addrs, ok) == rules;
    } else {
      var a, rest := addrs[0], addrs[1..];
      AddedCons(addrs, ok);
      var others := rules + Added(rest, ok);
      assert a !in rest;
      assert a !in others;
      var left := s.count + |rest| + Granted(rest, ok);
      assert rules + Added(addrs, ok) == if ok(a) then others + {a} else others;
      assert |addrs| == |rest| + 1;
      hide FromRuleFor, LocalRouteFor, Added;
      DelOne(s.name, left, others, a, ok(a));
      if rest != [] {
        DelAllEffect(s, rules, rest, ok);
      } else {
        NothingAdded(ok);
      }
    }
  }

  lemma NothingAdded(ok: string -> bool)
    ensures Added([], ok) == {} && Granted([], ok) == 0
  {
  }

  /** With every addition granted: a rule for each address, and two counts. */
  lemma AddAllGranted(x: Loaded, addrs: seq<string>, ok: string -> bool)
    requires x.slot.name != "" && forall i :: 0 <= i < |addrs| ==> ok(addrs[i])
    ensures AddAll(x, addrs, ok) ==
      Loaded(x.slot.(count := x.slot.count + 2 * |addrs|), x.rules + set i | 0 <= i < |addrs| :: addrs[i])
  {
    AddAllEffect(x, addrs, ok);
    AddedEach(addrs, ok);
  }

  lemma {:induction false} GrantedEach(addrs: seq<string>, ok: string -> bool)
    requires forall i :: 0 <= i < |addrs| ==> ok(addrs[i])
    ensures Granted(addrs, ok) == |addrs|
    decreases |addrs|
  {
    if addrs != [] { GrantedEach(addrs[1..], ok); }
  }

  /** Taking back distinct addresses that all have their rule and their counts: the rules are gone and two counts each,
      and the slot is free if those were all. */
  lemma DelAllHeld(x: Loaded, addrs: seq<string>)
    requires x.slot.name != "" && x.slot.count >= 2 * |addrs| && DistinctAddrs(addrs)
    requires forall i :: 0 <= i < |addrs| ==> addrs[i] in x.rules
    ensures var left := x.slot.count - 2 * |addrs|;
      DelAll(x, addrs) ==
      Loaded(if left > 0 || addrs == [] then x.slot.(count := left) else Slot("", 0),
             x.rules - set i | 0 <= i < |addrs| :: addrs[i])
  {
    var all := set i | 0 <= i < |addrs| :: addrs[i];
    var yes: string -> bool := _ => true;
    AddedEach(addrs, yes);
    hide DelAll, Granted, Added, DistinctAddrs;
    assert x.rules - all + all == x.rules;
    DelAllEffect(x.slot.(count := x.slot.count - 2 * |addrs|), x.rules - all, addrs, yes);
  }

  lemma AddedEach(addrs: seq<string>, ok: string -> bool)
    requires forall i :: 0 <= i < |addrs| ==> ok(addrs[i])
    ensures Added(addrs, ok) == (set i | 0 <= i < |addrs| :: addrs[i]) && Granted(addrs, ok) == |addrs|
  {
    GrantedEach(addrs, ok);
  }

  /** A failed enableNat with new, distinct addresses puts slot and rules back as they were
      exactly when the slot was already counted for something, or there was nothing to add;
      otherwise the slot is freed. */
  lemma UnwindRestoresExactly(x: Loaded, addrs: seq<string>, ok: string -> bool)
    requires x.slot.name != "" && x.slot.count >= 0 && DistinctAddrs(addrs)
    requires forall a :: a in addrs ==> a !in x.rules
    ensures DelAll(AddAll(x, addrs, ok), addrs) == x <==> x.slot.count > 0 || addrs == []
    ensures DelAll(AddAll(x, addrs, ok), addrs).rules == x.rules
  {
    hide AddAll, DelAll, Added;
    AddAllEffect(x, addrs, ok);
    DelAllEffect(x.slot, x.rules, addrs, ok);
  }

  // -------------------------------------------------------------------- the program

  /** The controller's two arrays. */
  class SecondaryTableController {
    const interfaceTable: array<string>
    const ruleCount: array<int>

    ghost predicate Valid()
      reads this
    {
      interfaceTable.Length == ruleCount.Length == TRACKED
    }

    ghost function Slots(): (r: seq<Slot>)
      requires Valid()
      reads this, interfaceTable, ruleCount
      ensures |r| == TRACKED
      ensures forall i :: 0 <= i < TRACKED ==> r[i] == Slot(interfaceTable[i], ruleCount[i])
    {
      seq(TRACKED, i requires 0 <= i < TRACKED reads this, interfaceTable, ruleCount =>
        Slot(interfaceTable[i], ruleCount[i]))
    }

    constructor ()
      ensures Valid() && fresh(interfaceTable) && fresh(ruleCount)
      ensures forall i :: 0 <= i < TRACKED ==> Slots()[i] == Slot("", 0)
    {
      interfaceTable := new string[TRACKED](_ => "");
      ruleCount := new int[TRACKED](_ => 0);
    }

    method FindTableNumber(iface: string) returns (r: int)
      requires Valid()
      ensures r == Find(Slots(), iface)
    {
      hide Find;
      var i := 0;
      while i < TRACKED
        invariant 0 <= i <= TRACKED
        invariant forall j :: 0 <= j < i ==> interfaceTable[j] != iface
      {
        if interfaceTable[i] == iface {
          FindUnique(Slots(), iface, i);
          return i;
        }
        i := i + 1;
      }
      FindAbsent(Slots(), iface);
      r := -1;
    }

    /** modifyRuleCount. */
    method ModifyRuleCount(t: nat, a: Action)
      requires Valid() && t < TRACKED
      modifies interfaceTable, ruleCount
      ensures Slots() == old(Slots())[t := Counted(old(Slots())[t], a)]
    {
      if a.ADD? {
        ruleCount[t] := ruleCount[t] + 1;
      } else {
        ruleCount[t] := ruleCount[t] - 1;
        if ruleCount[t] < 1 {
          ruleCount[t] := 0;
          interfaceTable[t] := "";
        }
      }
    }

    method ModifyRouteAt(t: nat, a: Action, ok: bool) returns (rc: int)
      requires Valid() && t < TRACKED
      modifies interfaceTable, ruleCount
      ensures Slots() == ModifyRoute(old(Slots()), t, a, ok) && rc == if ok then 0 else -1
    {
      if !ok { return -1; }
      ModifyRuleCount(t, a);
      ModifyRuleCount(t, a);
      rc := 0;
    }

    method AddRoute(iface: string, ok: bool) returns (rc: int)
      requires Valid()
      modifies interfaceTable, ruleCount
      ensures Slots() == Step(old(Slots()), Cmd.AddRoute(iface, ok))
      ensures rc == if ok && (Find(old(Slots()), iface) != -1 || Find(old(Slots()), "") != -1) then 0 else -1
    {
      hide Find, ModifyRoute;
      var t := FindTableNumber(iface);
      if t == -1 {
        t := FindTableNumber("");
        if t == -1 { return -1; }
        interfaceTable[t] := Truncated(iface);
        assert Slots() == old(Slots())[t := old(Slots())[t].(name := Truncated(iface))];
      }
      rc := ModifyRouteAt(t, ADD, ok);
    }

    method RemoveRoute(iface: string, ok: bool) returns (rc: int)
      requires Valid()
      modifies interfaceTable, ruleCount
      ensures Slots() == Step(old(Slots()), Cmd.RemoveRoute(iface, ok))
      ensures rc == if ok && Find(old(Slots()), iface) != -1 then 0 else -1
    {
      hide Find, ModifyRoute;
      var t := FindTableNumber(iface);
      if t == -1 { return -1; }
      rc := ModifyRouteAt(t, DEL, ok);
    }

    method ModifyFromRule(t: int, a: Action, ok: bool) returns (rc: int)
      requires Valid()
      modifies interfaceTable, ruleCount
      ensures Slots() == Step(old(Slots()), Cmd.FromRule(t, a, ok))
      ensures rc == if ok && Usable(old(Slots()), t) then 0 else -1
    {
      if t < 0 || t >= TRACKED || interfaceTable[t] == "" || !ok { return -1; }
      ModifyRuleCount(t, a);
      rc := 0;
    }

    method ModifyLocalRoute(t: int, a: Action, ok: bool) returns (rc: int)
      requires Valid()
      modifies interfaceTable, ruleCount
      ensures Slots() == Step(old(Slots()), Cmd.LocalRoute(t, a, ok))
      ensures rc == if ok && Usable(old(Slots()), t) then 0 else -1
    {
      if t < 0 || t >= TRACKED || interfaceTable[t] == "" { return -1; }
      ModifyRuleCount(t, a);
      rc := if ok then 0 else -1;
    }
  }

  lemma {:induction false} FindUnique(slots: seq<Slot>, name: string, i: nat)
    requires i < |slots| && slots[i].name == name && forall j :: 0 <= j < i ==> slots[j].name != name
    ensures Find(slots, name) == i
  {
  }

  lemma {:induction false} FindAbsent(slots: seq<Slot>, name: string)
    requires forall j :: 0 <= j < |slots| ==> slots[j].name != name
    ensures Find(slots, name) == -1
  {
  }
}
