/** The adb event loop, select variant (core/adb/fdevent.c): an intrusive circular list of
    pending events, a table indexed by file descriptor, three descriptor sets for select(2)
    and a flag word per event object. A callback is any finite sequence of API calls, nested
    through the subprocess handler. */
module FdEvent {

  const READ: bv8 := 0x01
  const WRITE: bv8 := 0x02
  const ERROR: bv8 := 0x04
  const FD_SETSIZE: nat := 1024

  /** struct fdevent. The state word is split into its event mask and its flags. */
  class Fde {
    var next: Fde?
    var prev: Fde?
    var fd: int
    var forceEof: bool
    var mask: bv8
    var active: bool
    var pending: bool
    var events: bv8

    constructor ()
      ensures !active && !pending && events == 0 && mask == 0
      ensures next == null && prev == null && fd == 0 && !forceEof
    {
      next, prev, fd, forceEof := null, null, 0, false;
      mask, active, pending, events := 0, false, false, 0;
    }
  }

  /** Some bit of `bits` is set in a mask. */
  predicate Has(mask: bv8, bits: bv8) { mask & bits != 0 }

  predicate Live(events: bv8) { events != 0 }

  function Merge(a: bv8, b: bv8): bv8 { a | b }

  lemma MergeNothing()
    ensures forall x: bv8 :: Merge(0, x) == x
  {
  }

  lemma HasNothing()
    ensures !Has(0, READ) && !Has(0, WRITE) && !Has(0, ERROR)
  {
  }

  /** The events three descriptor sets report for one descriptor. */
  function Bits(r: set<int>, w: set<int>, e: set<int>, x: int): bv8 {
    (if x in r then READ else 0) | (if x in w then WRITE else 0) | (if x in e then ERROR else 0)
  }

  lemma BitsNonzero(r: set<int>, w: set<int>, e: set<int>, x: int)
    ensures Live(Bits(r, w, e, x)) <==> x in r || x in w || x in e
  {
  }

  lemma MergeLive(a: bv8, b: bv8)
    ensures Live(b) ==> Live(Merge(a, b))
    ensures !Live(b) ==> Merge(a, b) == a
  {
  }

  lemma ReadMerged(a: bv8)
    ensures Live(Merge(a, READ)) && (!Live(a) ==> Merge(a, READ) == READ)
  {
  }

  /** The events of `a` that are not in `b`. */
  function Less(a: bv8, b: bv8): bv8 { a & !b }

  /** Of the events waiting some are left when fdevent_add asks for more. */
  predicate StillWaits(mask: bv8, ev: bv8, events: bv8) {
    Merge(mask, ev) == mask || Live(Less(events, Merge(mask, ev)))
  }

  /** No event waits that the mask does not ask for. */
  predicate OnlyWanted(events: bv8, mask: bv8) { !Live(Less(events, mask)) }

  lemma ClearingKeeps(events: bv8, mask: bv8)
    ensures OnlyWanted(Less(events, mask), mask) <==> OnlyWanted(events, mask)
  {
  }

  /** The list without one of its members, the others in the same order. */
  ghost function Without(s: seq<Fde>, f: Fde): (r: seq<Fde>)
    ensures f !in s ==> r == s
  {
    if s == [] then [] else if s[0] == f then s[1..] else [s[0]] + Without(s[1..], f)
  }

  lemma {:induction false} WithoutAt(s: seq<Fde>, k: nat)
    requires k < |s| && forall i, j :: 0 <= i < j < |s| ==> s[i] != s[j]
    ensures Without(s, s[k]) == s[..k] + s[k + 1..]
    decreases k
  {
    if k > 0 {
      var t := s[1..];
      forall i, j | 0 <= i < j < |t| ensures t[i] != t[j] {
        assert t[i] == s[i + 1] && t[j] == s[j + 1];
      }
      WithoutAt(t, k - 1);
      assert s[..k] + s[k + 1..] == [s[0]] + (t[..k - 1] + t[k..]);
    }
  }

  /** What lies between the two sights of the sentinel. */
  ghost function Inner(c: seq<Fde>): seq<Fde> { if |c| < 2 then [] else c[1..|c| - 1] }

  ghost predicate DistinctInner(c: seq<Fde>) {
    forall i, j :: 0 < i < j < |c| - 1 ==> c[i] != c[j]
  }

  lemma TwoApart(c: seq<Fde>)
    requires |c| > 3 && DistinctInner(c)
    ensures c[1] != c[2]
  {
  }

  /** Taking one place out of the ring takes its object out of the list. */
  lemma CutWithout(c: seq<Fde>, k: nat)
    requires 0 < k < |c| - 1 && DistinctInner(c)
    ensures Inner(c[..k] + c[k + 1..]) == Without(Inner(c), c[k])
  {
    hide Without;
    var s := Inner(c);
    WithoutAt(s, k - 1);
    assert Inner(c[..k] + c[k + 1..]) == s[..k - 1] + s[k..];
  }

  lemma CutMembers(c: seq<Fde>, k: nat, head: Fde)
    requires 0 < k < |c| - 1 && DistinctInner(c) && c[0] == c[|c| - 1] == head
    requires forall i :: 0 < i < |c| - 1 ==> c[i] != head
    ensures forall f :: f in c[..k] + c[k + 1..] <==> f in c && f != c[k]
  {
    var d := c[..k] + c[k + 1..];
    forall f ensures f in d <==> f in c && f != c[k] {
      if f in c && f != c[k] {
        var i :| 0 <= i < |c| && c[i] == f;
        assert f == d[if i < k then i else i - 1];
      }
    }
  }

  /** How many members of `s` are `i` or more. */
  function CountFrom(s: set<int>, i: int): nat {
    |set x | x in s && i <= x|
  }

  lemma CountStep(s: set<int>, i: int)
    ensures CountFrom(s, i) == CountFrom(s, i + 1) + if i in s then 1 else 0
  {
    var a, b := set x | x in s && i <= x, set x | x in s && i + 1 <= x;
    if i in s {
      assert a == b + {i};
    } else {
      assert a == b;
    }
  }

  lemma CountAll(s: set<int>)
    requires forall x :: x in s ==> 0 <= x
    ensures CountFrom(s, 0) == |s|
  {
    assert (set x | x in s && 0 <= x) == s;
  }

  lemma CountNone(s: set<int>, i: int)
    requires CountFrom(s, i) == 0
    ensures forall x :: x in s ==> x < i
  {
    forall x | x in s ensures x < i {
      var t := set y | y in s && i <= y;
      assert t == {};
      assert x !in t;
    }
  }

  datatype Result = Ok | Fatal

  /** What select(2) came back with. */
  datatype Selected = Ready(r: set<int>, w: set<int>, e: set<int>) | Interrupted | BadFd | OtherError

  /** What a callback may do, one call at a time. A call to the subprocess handler ends in
      the callback of another object, here `nested`. */
  datatype Call =
    | CallInstall(f: Fde, fd: int)
    | CallRemove(f: Fde)
    | CallSet(f: Fde, ev: bv8)
    | CallAdd(f: Fde, ev: bv8)
    | CallDel(f: Fde, ev: bv8)
    | CallSubproc(notify: int, ev: bv8, sub: int, rcount: int, nested: seq<Call>)

  ghost predicate CallIn(c: Call, all: set<Fde>)
    decreases c
  {
    if c.CallSubproc? then AllIn(c.nested, all) else c.f in all
  }

  /** A callback that handles objects of `all` only. */
  ghost predicate AllIn(calls: seq<Call>, all: set<Fde>)
    decreases calls
  {
    forall i :: 0 <= i < |calls| ==> CallIn(calls[i], all)
  }

  /** A callback that installs nothing on a descriptor from FD_SETSIZE on. */
  ghost predicate LowCall(c: Call)
    decreases c
  {
    match c
    case CallInstall(_, fd) => fd < FD_SETSIZE
    case CallSubproc(_, _, _, _, nested) => Low(nested)
    case _ => true
  }

  ghost predicate Low(calls: seq<Call>)
    decreases calls
  {
    forall i :: 0 <= i < |calls| ==> LowCall(calls[i])
  }

  /** One turn of the loop: what is ready, what is bad, and what the k-th callback does. */
  datatype Turn = Turn(sel: Selected, bad: set<int>, script: nat -> seq<Call>)

  /** Callbacks that touch no event object. */
  ghost predicate Quiet(script: nat -> seq<Call>) { forall k :: script(k) == [] }

  lemma QuietAt(script: nat -> seq<Call>, k: nat)
    requires Quiet(script)
    ensures script(k) == []
  {
  }

  /** `called` are distinct objects of the list `c0`, and none of them is on the list `c` now. */
  ghost predicate Dispatched(c0: seq<Fde>, c: seq<Fde>, called: seq<Fde>) {
    && (forall f :: f in c ==> f in c0 && f !in called)
    && (forall f :: f in called ==> f in c0)
    && (forall i, j :: 0 <= i < j < |called| ==> called[i] != called[j])
  }

  lemma DispatchedNone(c: seq<Fde>, was: map<Fde, bv8>)
    ensures Dispatched(c, c, []) && Deliveries([], was) == []
  {
  }

  lemma DispatchedStep(c0: seq<Fde>, c: seq<Fde>, c': seq<Fde>, called: seq<Fde>, fde: Fde)
    requires Dispatched(c0, c, called) && fde in c && fde !in c' && forall f :: f in c' ==> f in c
    ensures Dispatched(c0, c', called + [fde]) && fde !in called
  {
  }

  /** The callbacks for a list of objects, each with the events it had. */
  ghost function Deliveries(fs: seq<Fde>, was: map<Fde, bv8>): seq<(Fde, bv8)> {
    if fs == [] then []
    else
      var f := fs[|fs| - 1];
      Deliveries(fs[..|fs| - 1], was) + [(f, if f in was then was[f] else 0)]
  }

  lemma {:induction false} DeliveriesAt(fs: seq<Fde>, was: map<Fde, bv8>)
    requires forall i :: 0 <= i < |fs| ==> fs[i] in was
    ensures |Deliveries(fs, was)| == |fs|
    ensures forall i :: 0 <= i < |fs| ==> Deliveries(fs, was)[i] == (fs[i], was[fs[i]])
    decreases |fs|
  {
    if fs != [] { DeliveriesAt(fs[..|fs| - 1], was); }
  }

  /** So far `called` were called, with the events they had, and `ring` is still to come. */
  ghost predicate InTurn(ring0: seq<Fde>, log0: seq<(Fde, bv8)>, was: map<Fde, bv8>,
                         called: seq<Fde>, ring: seq<Fde>, log: seq<(Fde, bv8)>)
  {
    called + ring == ring0 && log == log0 + Deliveries(called, was)
  }

  /** After `k` callbacks, one of them at least, the first was for the oldest object, with the events it had. */
  ghost predicate First(ring0: seq<Fde>, log0: seq<(Fde, bv8)>, was: map<Fde, bv8>, k: nat, ring: seq<Fde>,
                        log: seq<(Fde, bv8)>)
  {
    if k == 0 then ring == ring0 && log == log0
    else ring0 != [] && ring0[0] in was && log0 + [(ring0[0], was[ring0[0]])] <= log
  }

  lemma FirstStep(ring0: seq<Fde>, log0: seq<(Fde, bv8)>, was: map<Fde, bv8>, k: nat, ring: seq<Fde>,
                  log: seq<(Fde, bv8)>, ring': seq<Fde>, log': seq<(Fde, bv8)>)
    requires First(ring0, log0, was, k, ring, log) && log <= log'
    requires k == 0 ==> ring != [] && ring[0] in was && log + [(ring[0], was[ring[0]])] <= log'
    ensures First(ring0, log0, was, k + 1, ring', log')
  {
  }

  lemma FirstEnd(ring0: seq<Fde>, log0: seq<(Fde, bv8)>, was: map<Fde, bv8>, k: nat, log: seq<(Fde, bv8)>)
    requires First(ring0, log0, was, k, [], log)
    ensures ring0 != [] ==> ring0[0] in was && log0 + [(ring0[0], was[ring0[0]])] <= log
  {
  }

  lemma InTurnStep(ring0: seq<Fde>, log0: seq<(Fde, bv8)>, was: map<Fde, bv8>,
                   called: seq<Fde>, ring: seq<Fde>, log: seq<(Fde, bv8)>)
    requires ring != [] && ring[0] in was && InTurn(ring0, log0, was, called, ring, log)
    ensures InTurn(ring0, log0, was, called + [ring[0]], ring[1..], log + [(ring[0], was[ring[0]])])
  {
    assert (called + [ring[0]])[..|called|] == called;
  }

  /** What callbacks that touch no event object leave alone. */
  datatype Setup = Arranged(table: seq<Fde?>, n: nat, r: set<int>, w: set<int>, e: set<int>,
                            who: map<Fde, int>, masks: map<Fde, bv8>)

  /** What one API call does to it. An install that is skipped does nothing; what the callback inside a subprocess
      handler does comes on top. */
  ghost predicate Done(c: Call, a: Setup, b: Setup) {
    match c
    case CallInstall(f, fd) => b == a || (b.who == a.who[f := fd] && b.masks == a.masks[f := 0])
    case CallRemove(f) => b.who == a.who - {f} && b.masks == a.masks[f := 0]
    case CallSet(f, ev) => b.who == a.who && b.masks == a.masks[f := ev]
    case CallAdd(f, ev) => f in a.masks && b.who == a.who && b.masks == a.masks[f := Merge(a.masks[f], ev)]
    case CallDel(f, ev) => f in a.masks && b.who == a.who && b.masks == a.masks[f := a.masks[f] & !ev]
    case CallSubproc(notify, _, _, _, nested) =>
      nested == [] ==> Rearmed(notify, a, b)
  }

  ghost predicate Rearmed(notify: int, a: Setup, b: Setup) {
    && b.who == a.who
    && if 0 <= notify < |a.table| && a.table[notify] != null
       then var f := a.table[notify]; f in a.masks && b.masks == a.masks[f := Merge(a.masks[f], READ)]
       else b.masks == a.masks
  }

  /** All the calls of the first `n` callbacks. */
  ghost function Calls(script: nat -> seq<Call>, n: nat): seq<Call> {
    if n == 0 then [] else Calls(script, n - 1) + script(n - 1)
  }

  /** The setups that calls in order go through. */
  ghost predicate Trace(calls: seq<Call>, tr: seq<Setup>) {
    |tr| == |calls| + 1 && forall i :: 0 <= i < |calls| ==> Done(calls[i], tr[i], tr[i + 1])
  }

  ghost predicate Leads(calls: seq<Call>, a: Setup, tr: seq<Setup>, b: Setup) {
    Trace(calls, tr) && tr[0] == a && tr[|calls|] == b
  }

  lemma LeadsNowhere(a: Setup)
    ensures Leads([], a, [a], a)
  {
  }

  lemma LeadsOn(a: Setup, c: Call, b: Setup, more: seq<Call>, tr: seq<Setup>, d: Setup)
    requires Done(c, a, b) && Leads(more, b, tr, d)
    ensures Leads([c] + more, a, [a] + tr, d)
  {
    hide Done;
  }

  lemma LeadsJoin(x: seq<Call>, a: Setup, tr: seq<Setup>, b: Setup, y: seq<Call>, tr': seq<Setup>, d: Setup)
    requires Leads(x, a, tr, b) && Leads(y, b, tr', d)
    ensures |tr'| > 0 && Leads(x + y, a, tr + tr'[1..], d)
  {
    hide Done;
    var z, t := x + y, tr + tr'[1..];
    forall i | 0 <= i < |z| ensures Done(z[i], t[i], t[i + 1]) {
      if i >= |x| { assert z[i] == y[i - |x|] && t[i] == tr'[i - |x|] && t[i + 1] == tr'[i - |x| + 1]; }
    }
  }

  lemma NoCalls(script: nat -> seq<Call>)
    ensures Calls(script, 0) == []
  {
  }

  lemma NextCalls(script: nat -> seq<Call>, k: nat)
    ensures Calls(script, k + 1) == Calls(script, k) + script(k)
  {
  }

  /** What a turn goes by: of the answer of select(2) the descriptors it was asked about, or, when there are none or a
      descriptor is bad, the registered ones that fcntl(2) fails on as if they were readable. */
  ghost function Answer(su: Setup, sel: Selected, bad: set<int>): (set<int>, set<int>, set<int>) {
    var dead := set x | x in bad && 0 <= x < su.n && x < |su.table| && su.table[x] != null;
    match sel
    case Ready(r, w, e) =>
      if r * su.r + w * su.w + e * su.e == {} then (dead, {}, {}) else (r * su.r, w * su.w, e * su.e)
    case BadFd => (dead, {}, {})
    case _ => ({}, {}, {})
  }

  /** What is reported of a descriptor: its place in each of the three sets, and nothing else. */
  ghost predicate Tells(ev: bv8, t: (set<int>, set<int>, set<int>), x: int) {
    && (Has(ev, READ) <==> x in t.0) && (Has(ev, WRITE) <==> x in t.1) && (Has(ev, ERROR) <==> x in t.2)
    && ev & 0xF8 == 0
  }

  /** These callbacks are those due for these sets: every installed object of which something is reported, once, in
      descriptor order, with what is reported of it. */
  ghost predicate Due(made: seq<(Fde, bv8)>, t: (set<int>, set<int>, set<int>), who: map<Fde, int>) {
    && (forall i :: 0 <= i < |made| ==> made[i].0 in who && made[i].1 != 0 && Tells(made[i].1, t, who[made[i].0]))
    && (forall i, j :: 0 <= i < j < |made| ==> made[i].0 in who && made[j].0 in who && who[made[i].0] < who[made[j].0])
    && (forall f :: f in who && (who[f] in t.0 || who[f] in t.1 || who[f] in t.2) ==>
          exists i :: 0 <= i < |made| && made[i].0 == f)
  }

  predicate AsksNothing(mask: bv8) { !Has(mask, READ) && !Has(mask, WRITE) && !Has(mask, ERROR) }

  class EventLoop {
    const head: Fde                // list_pending
    var table: seq<Fde?>           // fd_table
    var readFds: set<int>
    var writeFds: set<int>
    var errorFds: set<int>
    var selectN: nat
    ghost const all: set<Fde>      // every event object the program ever uses
    ghost var cycle: seq<Fde>      // the pending list between two sights of the sentinel
    ghost var log: seq<(Fde, bv8)> // every callback made, with the events it was given

    // ------------------------------------------------------------------ invariants

    /** The list is a ring through the sentinel, prev inverse to next, no object twice. */
    ghost predicate RingOk()
      reads this`cycle, head`next, head`prev, all`next, all`prev
    {
      && head !in all
      && |cycle| >= 2 && cycle[0] == head && cycle[|cycle| - 1] == head
      && (forall i :: 0 < i < |cycle| - 1 ==> cycle[i] in all)
      && (forall i, j :: 0 < i < j < |cycle| - 1 ==> cycle[i] != cycle[j])
      && (forall i {:trigger cycle[i].next} :: 0 <= i < |cycle| - 1 ==> cycle[i].next == cycle[i + 1])
      && (forall i {:trigger cycle[i].prev} :: 0 < i < |cycle| ==> cycle[i].prev == cycle[i - 1])
    }

    /** The pending events, oldest first. */
    ghost function Ring(): seq<Fde>
      reads this`cycle
    {
      Inner(cycle)
    }

    /** Every active object is the table entry for its descriptor and conversely; every
        registered descriptor is below selectN; the three select sets hold exactly the
        registered descriptors whose mask asks for that event. `ex` is the one object just
        being installed or removed, not in the table. */
    ghost predicate TableOk(ex: Fde?)
      reads this`table, this`readFds, this`writeFds, this`errorFds, this`selectN
      reads all`fd, all`active, all`mask
    {
      && selectN <= |table|
      && (forall i :: 0 <= i < |table| && table[i] != null ==>
            table[i] in all && table[i] != ex && table[i].active && table[i].fd == i && i < selectN)
      && (forall f :: f in all && f.active && f != ex ==>
            0 <= f.fd < |table| && table[f.fd] == f
            && (f.fd in readFds <==> Has(f.mask, READ))
            && (f.fd in writeFds <==> Has(f.mask, WRITE))
            && (f.fd in errorFds <==> Has(f.mask, ERROR)))
      && (forall x :: x in readFds || x in writeFds || x in errorFds ==>
            0 <= x < |table| && table[x] != null)
    }

    /** An object is on the list iff it is flagged pending, iff it has events to deliver.
        `ex` is the one object just taken off the list and not yet called. */
    ghost predicate FlagsOk(ex: Fde?)
      reads this`cycle, all`pending, all`events, all`active
    {
      && (forall f :: f in all && f != ex ==>
            (f.pending <==> f in cycle) && (Live(f.events) <==> f.pending) && (f.pending ==> f.active))
      && (ex != null ==> ex in all && ex.pending && Live(ex.events) && ex !in cycle)
    }

    ghost predicate Valid()
      reads this, head, all
    {
      RingOk() && TableOk(null) && FlagsOk(null)
    }

    constructor (all: set<Fde>)
      requires forall f :: f in all ==> !f.active && !f.pending && f.events == 0
      ensures Valid() && Ring() == [] && this.all == all && fresh(head) && log == [] && selectN == 0
    {
      head := new Fde();
      table, readFds, writeFds, errorFds, selectN, log := [], {}, {}, {}, 0, [];
      this.all := all;
      new;
      head.next, head.prev := head, head;
      cycle := [head, head];
    }

    // ------------------------------------------------------------- the pending list

    method PlistEnqueue(node: Fde)
      requires RingOk() && node in all && node !in cycle
      modifies this`cycle, head`prev, head`next, all`next, all`prev
      ensures RingOk() && Ring() == old(Ring()) + [node]
      ensures forall f :: f in cycle <==> f in old(cycle) || f == node
    {
      ghost var n := |cycle|;
      assert cycle[n - 1].prev == cycle[n - 2];
      node.next := head;
      node.prev := head.prev;
      node.prev.next := node;
      head.prev := node;
      cycle := cycle[..n - 1] + [node, head];
    }

    /** The pointer updates of fdevent_plist_remove, for the node at place `k` of the ring. */
    method Detach(node: Fde, ghost k: nat)
      requires RingOk() && 0 < k < |cycle| - 1 && cycle[k] == node
      modifies this`cycle, head`prev, head`next, all`next, all`prev
      ensures RingOk() && cycle == old(cycle)[..k] + old(cycle)[k + 1..]
    {
      assert cycle[k].prev == cycle[k - 1] && cycle[k].next == cycle[k + 1];
      node.prev.next := node.next;
      node.next.prev := node.prev;
      node.next := null;
      node.prev := null;
      ghost var c := cycle;
      cycle := cycle[..k] + cycle[k + 1..];
      assert forall i :: 0 <= i < |cycle| ==> cycle[i] == c[if i < k then i else i + 1];
      forall i | 0 <= i < |cycle| - 1 ensures cycle[i].next == cycle[i + 1] {
        assert i < k - 1 ==> c[i].next == c[i + 1];
        assert i >= k ==> c[i + 1].next == c[i + 2];
      }
      forall i | 0 < i < |cycle| ensures cycle[i].prev == cycle[i - 1] {
        assert i < k ==> c[i].prev == c[i - 1];
        assert i > k ==> c[i + 1].prev == c[i];
      }
    }

    method PlistRemove(node: Fde) returns (ghost k: nat)
      requires RingOk() && node in all && node in cycle
      modifies this`cycle, head`prev, head`next, all`next, all`prev
      ensures RingOk()
      ensures 0 < k < |old(cycle)| - 1 && old(cycle)[k] == node
      ensures cycle == old(cycle)[..k] + old(cycle)[k + 1..]
      ensures forall f :: f in cycle <==> f in old(cycle) && f != node
    {
      k := PlaceOf(node);
      CutMembers(cycle, k, head);
      hide RingOk;
      Detach(node, k);
    }

    lemma PlaceOf(node: Fde) returns (k: nat)
      requires RingOk() && node in all && node in cycle
      ensures 0 < k < |cycle| - 1 && cycle[k] == node
      ensures DistinctInner(cycle) && cycle[0] == cycle[|cycle| - 1] == head && head !in all
      ensures forall i :: 0 < i < |cycle| - 1 ==> cycle[i] != head
    {
      k :| 0 <= k < |cycle| && cycle[k] == node;
    }

    method PlistDequeue() returns (node: Fde?)
      requires RingOk()
      modifies this`cycle, head`prev, head`next, all`next, all`prev
      ensures RingOk()
      ensures node == null <==> old(Ring()) == []
      ensures node == null ==> cycle == old(cycle)
      ensures node != null ==> old(Ring()) == [node] + Ring()
      ensures node != null ==> node in all && node !in cycle && |cycle| == |old(cycle)| - 1
      ensures node != null ==> forall f :: f in cycle <==> f in old(cycle) && f != node
    {
      RingHead();
      if head.next == head { return null; }
      ghost var k := PlaceOf(cycle[1]);
      CutMembers(cycle, 1, head);
      hide RingOk;
      assert old(Ring()) == [cycle[1]] + cycle[2..|cycle| - 1];
      node := DetachFirst();
    }

    /** The pointer updates of fdevent_plist_dequeue on a list that is not empty. */
    method DetachFirst() returns (node: Fde)
      requires RingOk() && |cycle| > 2
      modifies this`cycle, head`prev, head`next, all`next, all`prev
      ensures RingOk() && node == old(cycle)[1] && cycle == old(cycle)[..1] + old(cycle)[2..]
    {
      assert cycle[0].next == cycle[1] && cycle[1].next == cycle[2];
      node := head.next;
      head.next := node.next;
      head.next.prev := head;
      node.next := null;
      node.prev := null;
      cycle := cycle[..1] + cycle[2..];
    }

    lemma RingHead()
      requires RingOk()
      ensures |cycle| >= 2 && (head.next == head <==> |cycle| == 2)
      ensures |cycle| > 2 ==> cycle[1] in all && cycle[1] in cycle
    {
      assert cycle[0].next == cycle[1];
    }

    // -------------------------------------------------------- registration and masks

    /** The growth of the table in fdevent_register. */
    method GrowTable(fd: nat, ghost ex: Fde?)
      requires fd >= |table|
      modifies this`table
      ensures |table| > fd && old(table) <= table && forall i :: |old(table)| <= i < |table| ==> table[i] == null
      ensures |table| <= if old(table) == [] && fd < 256 then 256 else 2 * fd
      ensures old(TableOk(ex)) ==> TableOk(ex)
    {
      hide Has;
      var max := if |table| == 0 then 256 else |table|;
      while max <= fd
        invariant max >= |table| && max > 0
        invariant max == (if table == [] then 256 else |table|) || (max <= 2 * fd && (table == [] ==> fd >= 256))
      {
        max := max * 2;
      }
      table := table + seq(max - |table|, _ => null);
    }

    /** The links of an object cleared: the list breaks exactly when it was on it. */
    method ClearLinks(fde: Fde)
      requires RingOk() && fde in all
      modifies fde`next, fde`prev
      ensures RingOk() <==> fde !in cycle
      ensures fde.next == null && fde.prev == null
    {
      fde.next, fde.prev := null, null;
      if fde in cycle {
        ghost var i :| 0 <= i < |cycle| && cycle[i] == fde;
        assert cycle[i].next == null;
      }
    }

    method ClearEvents(fde: Fde)
      requires fde in all
      modifies fde`pending, fde`events
      ensures !fde.pending && fde.events == 0
      ensures old(FlagsOk(null)) && !old(fde.pending) ==> FlagsOk(null)
    {
      fde.pending, fde.events := false, 0;
    }

    method Activate(fde: Fde, fd: int)
      requires fde in all
      modifies fde`forceEof, fde`mask, fde`active, fde`fd
      ensures fde.active && fde.fd == fd && fde.mask == 0 && !fde.forceEof
      ensures old(TableOk(null)) && !old(fde.active) ==> TableOk(fde)
      ensures old(FlagsOk(null)) && !fde.pending ==> FlagsOk(null)
    {
      hide Has;
      assert TableOk(null) && !fde.active ==> TableOk(fde);
      fde.active := true;
      fde.mask, fde.fd := 0, fd;
      fde.forceEof := false;
    }

    /** The table entry and fdevent_connect. */
    method Enter(fde: Fde)
      requires fde in all && fde.active && fde.mask == 0 && 0 <= fde.fd < |table|
      modifies this`table, this`selectN
      ensures table == old(table)[fde.fd := fde]
      ensures selectN == if fde.fd >= old(selectN) then fde.fd + 1 else old(selectN)
      ensures old(TableOk(fde)) ==> (TableOk(null) <==> old(table)[fde.fd] == null)
    {
      HasNothing();
      hide Has;
      var fd := fde.fd;
      ghost var was := table[fd];
      assert TableOk(fde) && was != null ==> was in all && was.active && was.fd == fd && was != fde;
      table := table[fd := fde];
      if fd >= selectN {
        selectN := fd + 1;
      }
    }

    /** fdevent_register and fdevent_connect. */
    method Register(fde: Fde) returns (r: Result)
      requires fde in all && fde.active && fde.mask == 0
      modifies this`table, this`selectN, this`readFds, this`writeFds, this`errorFds
      ensures r.Fatal? <==> fde.fd < 0 || (fde.fd >= |old(table)| && fde.fd > 32000)
      ensures r.Ok? ==> fde.fd < |table| && table[fde.fd] == fde
      ensures r.Ok? && old(TableOk(fde)) ==> (TableOk(null) <==> fde.fd >= |old(table)| || old(table)[fde.fd] == null)
      ensures r.Ok? ==>
        |table| >= |old(table)| && forall i :: 0 <= i < |old(table)| && i != fde.fd ==> table[i] == old(table)[i]
      ensures r.Ok? ==> selectN == if fde.fd >= old(selectN) then fde.fd + 1 else old(selectN)
      ensures fde.fd < |old(table)| && r.Ok? ==>
        && table == old(table)[fde.fd := fde]
        && readFds == old(readFds) && writeFds == old(writeFds) && errorFds == old(errorFds)
    {
      var fd := fde.fd;
      if fd < 0 { return Fatal; }
      if fd >= |table| {
        if fd > 32000 { return Fatal; }
        if |table| == 0 {
          readFds, writeFds, errorFds := {}, {}, {};
        }
        assert old(TableOk(fde)) ==> TableOk(fde);
        hide TableOk, Has;
        GrowTable(fd, fde);
      }
      hide TableOk, Has;
      Enter(fde);
      r := Ok;
    }

    /** No other object is registered for the descriptor, or the object is registered for it already and asks for
        nothing. */
    predicate Connectable(fde: Fde, fd: int)
      reads this`table, fde`active, fde`fd, fde`mask
    {
      if fde.active then fde.fd == fd && AsksNothing(fde.mask)
      else 0 <= fd < |table| ==> table[fd] == null
    }

    /** An active object entered again with an empty mask: the table stays right iff it is entered where it was and
        was asking for nothing. */
    twostate lemma EnteredAgain(fde: Fde)
      requires old(TableOk(null)) && fde in all && old(fde.active) && fde.active && fde.mask == 0
      requires forall f :: f in all && f != fde ==>
        f.active == old(f.active) && f.mask == old(f.mask) && f.fd == old(f.fd)
      requires 0 <= fde.fd < |table| && table[fde.fd] == fde && |table| >= |old(table)|
      requires forall i :: 0 <= i < |old(table)| && i != fde.fd ==> table[i] == old(table)[i]
      requires fde.fd < |old(table)| ==>
        && |table| == |old(table)| && selectN == (if fde.fd >= old(selectN) then fde.fd + 1 else old(selectN))
        && readFds == old(readFds) && writeFds == old(writeFds) && errorFds == old(errorFds)
      ensures TableOk(null) <==> fde.fd == old(fde.fd) && AsksNothing(old(fde.mask))
    {
      HasNothing();
      hide Has;
      ghost var was := old(fde.fd);
      assert 0 <= was < |old(table)| && old(table)[was] == fde;
      if fde.fd != was {
        assert table[was] == fde;
      } else {
        assert table == old(table);
      }
    }

    /** The descriptor part of fdevent_install. */
    method Connect(fde: Fde, fd: int) returns (r: Result)
      requires TableOk(null) && fde in all
      modifies this`table, this`selectN, this`readFds, this`writeFds, this`errorFds
      modifies fde`forceEof, fde`mask, fde`active, fde`fd
      ensures r.Fatal? <==> fd < 0 || (fd >= |old(table)| && fd > 32000)
      ensures r.Ok? ==> (TableOk(null) <==> old(Connectable(fde, fd)))
      ensures r.Ok? ==> fde.active && fde.fd == fd && fd < |table| && table[fd] == fde && fde.mask == 0
      ensures r.Ok? ==> selectN == if fd >= old(selectN) then fd + 1 else old(selectN)
      ensures !fde.forceEof
      ensures old(FlagsOk(null)) && !fde.pending ==> FlagsOk(null)
    {
      hide TableOk, FlagsOk, AsksNothing;
      Activate(fde, fd);
      r := Register(fde);
      if r.Ok? && old(fde.active) {
        EnteredAgain(fde);
      }
    }

    /** fdevent_install: abort on a negative descriptor, or on one that would need a table
        beyond 32000. Otherwise the invariant survives exactly when the object was not pending
        and could be connected. */
    method Install(fde: Fde, fd: int) returns (r: Result)
      requires Valid() && fde in all
      modifies this`table, this`selectN, this`readFds, this`writeFds, this`errorFds, fde
      ensures r.Fatal? <==> fd < 0 || (fd >= |old(table)| && fd > 32000)
      ensures r.Ok? ==> (Valid() <==> !old(fde.pending) && old(Connectable(fde, fd)))
      ensures r.Ok? ==> fde.active && fde.fd == fd && fd < |table| && table[fd] == fde && fde.mask == 0
      ensures r.Ok? ==> selectN == if fd >= old(selectN) then fd + 1 else old(selectN)
      ensures !fde.pending && fde.events == 0 && !fde.forceEof && fde.next == null && fde.prev == null
    {
      assert fde.pending <==> fde in cycle;
      hide RingOk, TableOk, FlagsOk, Connectable;
      ClearLinks(fde);
      ClearEvents(fde);
      r := Connect(fde, fd);
    }

    /** fdevent_disconnect. */
    method Disconnect(fde: Fde)
      requires TableOk(null) && fde in all && fde.active
      modifies this`readFds, this`writeFds, this`errorFds, this`selectN
      ensures readFds == old(readFds) - {fde.fd}
      ensures writeFds == old(writeFds) - {fde.fd}
      ensures errorFds == old(errorFds) - {fde.fd}
      ensures 0 < selectN <= |table| && selectN <= old(selectN)
      ensures forall i :: 0 <= i < |table| && table[i] != null ==> i < selectN
    {
      hide Has;
      readFds, writeFds, errorFds := readFds - {fde.fd}, writeFds - {fde.fd}, errorFds - {fde.fd};
      var n, i := 0, 0;
      while i < selectN
        invariant 0 <= i <= selectN <= |table| && 0 <= n < selectN
        invariant forall j :: 0 <= j < i && table[j] != null ==> j <= n
      {
        if table[i] != null { n := i; }
        i := i + 1;
      }
      selectN := n + 1;
    }

    /** fdevent_unregister. */
    method Unregister(fde: Fde) returns (r: Result)
      modifies this`table
      ensures r.Fatal? <==> fde.fd < 0 || fde.fd >= |old(table)| || old(table)[fde.fd] != fde
      ensures r.Ok? ==> table == old(table)[fde.fd := null]
      ensures r.Fatal? ==> table == old(table)
    {
      if fde.fd < 0 || fde.fd >= |table| { return Fatal; }
      if table[fde.fd] != fde { return Fatal; }
      table := table[fde.fd := null];
      r := Ok;
    }

    /** Disconnect then unregister, as fdevent_remove does for an active object: the table is
        never out of sync, so neither aborts. */
    method Deregister(fde: Fde) returns (r: Result)
      requires TableOk(null) && fde in all && fde.active
      modifies this`table, this`selectN, this`readFds, this`writeFds, this`errorFds
      ensures r.Ok? && TableOk(fde) && fde.fd < selectN <= old(selectN)
    {
      hide Has;
      Disconnect(fde);
      r := Unregister(fde);
    }

    /** The last two lines of fdevent_remove. */
    method ClearState(fde: Fde, ghost ex: Fde?, ghost tex: Fde?)
      requires fde in all && TableOk(tex) && (if fde.active then tex == fde else tex == null)
      requires FlagsOk(ex) && fde !in cycle && (ex == fde || ex == null)
      modifies fde`mask, fde`active, fde`pending, fde`events
      ensures TableOk(null) && FlagsOk(null)
      ensures !fde.active && !fde.pending && fde.mask == 0 && fde.events == 0
    {
      hide Has;
      fde.mask, fde.active, fde.pending, fde.events := 0, false, false, 0;
    }

    lemma RingDistinct()
      requires RingOk()
      ensures DistinctInner(cycle) && head !in all
    {
    }

    method Unlink(fde: Fde)
      requires RingOk() && FlagsOk(null) && fde in all && fde.pending
      modifies this`cycle, head`prev, head`next, all`next, all`prev
      ensures RingOk() && FlagsOk(fde)
      ensures Ring() == Without(old(Ring()), fde)
      ensures forall f :: f in cycle <==> f in old(cycle) && f != fde
      ensures |cycle| == |old(cycle)| - 1
    {
      hide RingOk, Without, Live, DistinctInner;
      RingDistinct();
      ghost var k := PlistRemove(fde);
      CutWithout(old(cycle), k);
    }

    /** The first part of fdevent_remove: a pending object leaves the list. */
    method Unqueue(fde: Fde) returns (ghost ex: Fde?)
      requires RingOk() && FlagsOk(null) && fde in all
      modifies this`cycle, head`prev, head`next, all`next, all`prev
      ensures RingOk() && FlagsOk(ex) && fde !in cycle && (ex == fde || ex == null)
      ensures Ring() == Without(old(Ring()), fde)
      ensures forall f :: f in cycle <==> f in old(cycle) && f != fde
      ensures |cycle| <= |old(cycle)|
    {
      hide RingOk, Live, Without;
      ex := null;
      if fde.pending {
        hide FlagsOk;
        Unlink(fde);
        ex := fde;
      } else {
        assert fde !in cycle && fde !in Ring();
      }
    }

    /** fdevent_remove never aborts. */
    method Remove(fde: Fde) returns (r: Result)
      requires Valid() && fde in all
      modifies this`cycle, this`table, this`selectN, this`readFds, this`writeFds, this`errorFds
      modifies head`prev, head`next, all`next, all`prev
      modifies fde`mask, fde`active, fde`pending, fde`events
      ensures r.Ok? && Valid()
      ensures !fde.active && !fde.pending && fde.mask == 0 && fde.events == 0
      // The object is still in the table when select_n is computed again.
      ensures if old(fde.active) then fde.fd < selectN <= old(selectN) else selectN == old(selectN)
      ensures Ring() == Without(old(Ring()), fde)
      ensures forall f :: f in cycle <==> f in old(cycle) && f != fde
      ensures |cycle| <= |old(cycle)|
    {
      hide RingOk, TableOk, FlagsOk, Without;
      r := Ok;
      ghost var tex: Fde? := null;
      ghost var ex := Unqueue(fde);
      if fde.active {
        r := Deregister(fde);
        tex := fde;
      }
      ClearState(fde, ex, tex);
    }

    /** fdevent_update. */
    method Update(fde: Fde, ev: bv8)
      requires TableOk(null) && fde in all && fde.active
      modifies this`readFds, this`writeFds, this`errorFds, fde`mask
      ensures TableOk(null) && fde.mask == ev
    {
      hide Has;
      readFds := if Has(ev, READ) then readFds + {fde.fd} else readFds - {fde.fd};
      writeFds := if Has(ev, WRITE) then writeFds + {fde.fd} else writeFds - {fde.fd};
      errorFds := if Has(ev, ERROR) then errorFds + {fde.fd} else errorFds - {fde.fd};
      fde.mask := ev;
    }

    /** The part of fdevent_set about events already waiting. */
    method DropEvents(fde: Fde, ev: bv8)
      requires RingOk() && FlagsOk(null) && fde in all && fde.pending
      modifies this`cycle, head`prev, head`next, all`next, all`prev, fde`events, fde`pending
      ensures RingOk() && FlagsOk(null)
      ensures fde.events == Less(old(fde.events), ev)
      ensures Ring() == if !Live(fde.events) then Without(old(Ring()), fde) else old(Ring())
      ensures forall f :: f in cycle <==> f in old(cycle) && (f != fde || Live(fde.events))
      ensures |cycle| <= |old(cycle)|
    {
      hide Without, Ring, Less;
      var left := Less(fde.events, ev);
      if !Live(left) {
        Unlink(fde);
      }
      fde.events := left;
      fde.pending := Live(left);
    }

    /** fdevent_set. A pending object loses, of its undelivered events, those now asked for;
        if none is left it leaves the list. */
    method Set(fde: Fde, ev: bv8)
      requires Valid() && fde in all
      modifies this`readFds, this`writeFds, this`errorFds, this`cycle
      modifies head`prev, head`next, all`next, all`prev, fde`mask, fde`events, fde`pending
      ensures Valid() && fde.mask == ev
      ensures fde.events ==
        if old(fde.mask) != ev && old(fde.pending) then Less(old(fde.events), ev) else old(fde.events)
      // Meant to leave only wanted events waiting, it clears the wanted ones: that is so afterwards exactly
      // when nothing but the events now asked for was waiting before.
      ensures OnlyWanted(fde.events, fde.mask) <==> OnlyWanted(old(fde.events), ev)
      ensures Ring() == if old(fde.pending) && !Live(fde.events) then Without(old(Ring()), fde) else old(Ring())
      ensures forall f :: f in cycle <==> f in old(cycle) && (f != fde || Live(fde.events))
      ensures |cycle| <= |old(cycle)|
    {
      PendingHas(fde);
      hide Without, Ring, OnlyWanted, Less, Live, TableOk, RingOk, FlagsOk;
      ClearingKeeps(fde.events, ev);
      if fde.mask == ev { return; }
      SetMask(fde, ev);
      if fde.pending {
        DropEvents(fde, ev);
      }
    }

    lemma PendingHas(fde: Fde)
      requires FlagsOk(null) && fde in all
      ensures fde.pending <==> fde in cycle
      ensures fde.pending <==> Live(fde.events)
    {
    }

    /** The mask alone, in the object and in the select sets. */
    method SetMask(fde: Fde, ev: bv8)
      requires Valid() && fde in all
      modifies this`readFds, this`writeFds, this`errorFds, fde`mask
      ensures Valid() && fde.mask == ev
    {
      if fde.active {
        hide FlagsOk, RingOk, Has;
        Update(fde, ev);
      } else {
        hide RingOk, FlagsOk, Has;
        fde.mask := ev;
      }
    }

    method Add(fde: Fde, ev: bv8)
      requires Valid() && fde in all
      modifies this`readFds, this`writeFds, this`errorFds, this`cycle
      modifies head`prev, head`next, all`next, all`prev, fde`mask, fde`events, fde`pending
      ensures Valid() && fde.mask == Merge(old(fde.mask), ev)
      ensures fde.pending <==> old(fde.pending) && StillWaits(old(fde.mask), ev, old(fde.events))
      ensures forall f :: f in cycle ==> f in old(cycle)
      ensures |cycle| <= |old(cycle)|
    {
      PendingHas(fde);
      hide Valid;
      Set(fde, Merge(fde.mask, ev));
      PendingHas(fde);
    }

    method Del(fde: Fde, ev: bv8)
      requires Valid() && fde in all
      modifies this`readFds, this`writeFds, this`errorFds, this`cycle
      modifies head`prev, head`next, all`next, all`prev, fde`mask, fde`events, fde`pending
      ensures Valid() && fde.mask == old(fde.mask) & !ev
      ensures forall f :: f in cycle ==> f in old(cycle)
      ensures |cycle| <= |old(cycle)|
    {
      hide Valid;
      Set(fde, fde.mask & !ev);
    }

    // ------------------------------------------------------------------ fdevent_process

    /** Adds events to one registered object, queueing it unless it is queued already. */
    method Mark(fde: Fde, ev: bv8)
      requires RingOk() && FlagsOk(null) && fde in all && fde.active && Live(ev)
      modifies this`cycle, head`prev, head`next, all`next, all`prev, fde`events, fde`pending
      ensures RingOk() && FlagsOk(null)
      ensures fde.events == Merge(old(fde.events), ev)
      ensures Ring() == if old(fde.pending) then old(Ring()) else old(Ring()) + [fde]
    {
      MergeLive(fde.events, ev);
      hide RingOk, Live, Merge, Ring;
      fde.events := Merge(fde.events, ev);
      if !fde.pending {
        fde.pending := true;
        PlistEnqueue(fde);
      }
    }

    /** Every member of the set is a registered descriptor. */
    ghost predicate Registered(s: set<int>)
      reads this`table
    {
      forall x :: x in s ==> 0 <= x < |table| && table[x] != null
    }

    /** The events of every object after a scan of the descriptors below `i`, from `was`. */
    ghost predicate Scanned(r: set<int>, w: set<int>, e: set<int>, i: int, was: map<Fde, bv8>)
      requires was.Keys == all
      reads all`fd, all`active, all`events
    {
      forall f :: f in all ==>
        f.events == if f.active && f.fd < i then Merge(was[f], Bits(r, w, e, f.fd)) else was[f]
    }

    /** Objects queued by a scan of the descriptors below `i`, in descriptor order. */
    ghost predicate InOrder(added: seq<Fde>, i: int)
      reads all`fd
    {
      && (forall k :: 0 <= k < |added| ==> added[k] in all && added[k].fd < i)
      && (forall j, k :: 0 <= j < k < |added| ==> added[j].fd < added[k].fd)
    }

    /** The body of the scan loop for a descriptor with events. */
    method ScanHit(r: set<int>, w: set<int>, e: set<int>, i: nat, ev: bv8,
                   ghost was: map<Fde, bv8>, ghost ring: seq<Fde>, ghost added: seq<Fde>)
      returns (res: Result, ghost added': seq<Fde>)
      requires Valid() && i < selectN && was.Keys == all && Live(ev) && ev == Bits(r, w, e, i)
      requires table[i] != null && Scanned(r, w, e, i, was) && InOrder(added, i) && Ring() == ring + added
      modifies this`cycle, head`prev, head`next, all`next, all`prev, all`events, all`pending
      ensures Valid() && res.Ok? && Scanned(r, w, e, i + 1, was)
      ensures InOrder(added', i + 1) && Ring() == ring + added'
    {
      hide Bits, RingOk, Has, Live, Merge, FlagsOk, Ring;
      var fde := table[i];
      if fde == null { return Fatal, added; }
      added' := if fde.pending then added else added + [fde];
      Mark(fde, ev);
      res := Ok;
    }

    /** One round of the scan loop. */
    method ScanOne(r: set<int>, w: set<int>, e: set<int>, i: nat, n: int,
                   ghost was: map<Fde, bv8>, ghost ring: seq<Fde>, ghost added: seq<Fde>)
      returns (res: Result, n': int, ghost added': seq<Fde>)
      requires Valid() && i < selectN && was.Keys == all
      requires Registered(r) && Registered(w) && Registered(e)
      requires Scanned(r, w, e, i, was) && InOrder(added, i) && Ring() == ring + added
      modifies this`cycle, head`prev, head`next, all`next, all`prev, all`events, all`pending
      ensures Valid() && res.Ok? && Scanned(r, w, e, i + 1, was)
      ensures InOrder(added', i + 1) && Ring() == ring + added'
      ensures n' == n - (if i in r then 1 else 0) - (if i in w then 1 else 0) - (if i in e then 1 else 0)
    {
      var ev: bv8 := 0;
      n', added', res := n, added, Ok;
      if i in r { ev, n' := ev | READ, n' - 1; }
      if i in w { ev, n' := ev | WRITE, n' - 1; }
      if i in e { ev, n' := ev | ERROR, n' - 1; }
      assert ev == Bits(r, w, e, i);
      BitsNonzero(r, w, e, i);
      hide Bits, RingOk, Has, Merge, FlagsOk, Ring;
      if ev != 0 {
        hide Live, TableOk;
        res, added' := ScanHit(r, w, e, i, ev, was, ring, added);
      } else {
        hide Live;
        forall f | f in all && f.active && f.fd == i
          ensures f.events == Merge(was[f], Bits(r, w, e, f.fd))
        {
          MergeLive(was[f], ev);
        }
      }
    }

    method ScanLoop(r: set<int>, w: set<int>, e: set<int>, n0: int, ghost was: map<Fde, bv8>)
      returns (res: Result, ghost i: nat, ghost added: seq<Fde>)
      requires Valid() && Registered(r) && Registered(w) && Registered(e)
      requires n0 == CountFrom(r, 0) + CountFrom(w, 0) + CountFrom(e, 0)
      requires was.Keys == all && Scanned(r, w, e, 0, was)
      modifies this`cycle, head`prev, head`next, all`next, all`prev, all`events, all`pending
      ensures Valid() && res.Ok? && Scanned(r, w, e, i, was)
      ensures i >= selectN || (CountFrom(r, i) == 0 && CountFrom(w, i) == 0 && CountFrom(e, i) == 0)
      ensures InOrder(added, i) && Ring() == old(Ring()) + added
    {
      hide Bits, RingOk, Has, Merge, FlagsOk, Ring, Live, TableOk, Scanned, CountFrom, Registered;
      var n, k := n0, 0;
      added := [];
      assert InOrder(added, 0);
      hide InOrder;
      while k < selectN && n > 0
        invariant 0 <= k && Valid()
        invariant n == CountFrom(r, k) + CountFrom(w, k) + CountFrom(e, k)
        invariant Scanned(r, w, e, k, was) && InOrder(added, k) && Ring() == old(Ring()) + added
      {
        CountStep(r, k); CountStep(w, k); CountStep(e, k);
        res, n, added := ScanOne(r, w, e, k, n, was, old(Ring()), added);
        k := k + 1;
      }
      res, i := Ok, k;
    }

    /** The loop with its countdown does what a scan of every descriptor would do: exactly the
        reported events are added, each object is queued once, in descriptor order. */
    method Scan(r: set<int>, w: set<int>, e: set<int>, n0: int)
      returns (res: Result, ghost added: seq<Fde>)
      requires Valid() && Registered(r) && Registered(w) && Registered(e)
      requires n0 == |r| + |w| + |e|
      modifies this`cycle, head`prev, head`next, all`next, all`prev, all`events, all`pending
      ensures Valid() && res.Ok?
      ensures forall f :: f in all ==>
        f.events == if f.active then Merge(old(f.events), Bits(r, w, e, f.fd)) else old(f.events)
      ensures Ring() == old(Ring()) + added
      ensures forall j, k :: 0 <= j < k < |added| ==> added[j].fd < added[k].fd
    {
      assert forall f :: f in all && f.active ==> f.fd >= 0;
      hide Bits, RingOk, Has, Merge, FlagsOk, Ring, Live, TableOk;
      ghost var was := map f | f in all :: f.events;
      assert Scanned(r, w, e, 0, was);
      CountAll(r); CountAll(w); CountAll(e);
      hide Scanned, CountFrom;
      ghost var i;
      res, i, added := ScanLoop(r, w, e, n0, was);
      if i < selectN {
        CountNone(r, i); CountNone(w, i); CountNone(e, i);
      }
      ScanRest(r, w, e, i, was);
    }

    /** Descriptors that were not reached had nothing to report. */
    lemma ScanRest(r: set<int>, w: set<int>, e: set<int>, i: int, was: map<Fde, bv8>)
      requires TableOk(null) && was.Keys == all && Scanned(r, w, e, i, was)
      requires Registered(r) && Registered(w) && Registered(e)
      requires i >= selectN || (forall x :: x in r || x in w || x in e ==> x < i)
      ensures forall f :: f in all ==>
        f.events == if f.active then Merge(was[f], Bits(r, w, e, f.fd)) else was[f]
    {
      hide Has;
      forall f | f in all && f.active && f.fd >= i
        ensures f.events == Merge(was[f], Bits(r, w, e, f.fd))
      {
        assert f.fd !in r && f.fd !in w && f.fd !in e;
        BitsNonzero(r, w, e, f.fd);
        MergeLive(was[f], Bits(r, w, e, f.fd));
      }
    }

    /** fdevent_fd_check: registered descriptors below selectN that the kernel calls bad. */
    method FdCheck(bad: set<int>) returns (fds: set<int>, n: int)
      requires selectN <= |table|
      ensures fds == set x | x in bad && 0 <= x < selectN && table[x] != null
      ensures n == |fds|
    {
      fds, n := {}, 0;
      var i := 0;
      while i < selectN
        invariant 0 <= i <= selectN
        invariant fds == set x | x in bad && 0 <= x < i && table[x] != null
        invariant n == |fds|
      {
        if table[i] != null && i in bad {
          fds, n := fds + {i}, n + 1;
        }
        i := i + 1;
      }
    }

    /** The descriptor sets fdevent_process goes by, after an error or an idle select. */
    ghost function Reported(sel: Selected, bad: set<int>): (set<int>, set<int>, set<int>)
      requires selectN <= |table|
      reads this`table, this`selectN
    {
      var dead := set x | x in bad && 0 <= x < selectN && table[x] != null;
      match sel
      case Ready(r, w, e) => if r + w + e == {} then (dead, {}, {}) else (r, w, e)
      case BadFd => (dead, {}, {})
      case _ => ({}, {}, {})
    }

    /** fdevent_process. `sel` is what select(2) returned for the three sets, `bad` the
        descriptors fcntl(2) fails on. It never meets a descriptor without an object. */
    method Process(sel: Selected, bad: set<int>) returns (res: Result, ghost added: seq<Fde>)
      requires Valid()
      requires sel.Ready? ==> sel.r <= readFds && sel.w <= writeFds && sel.e <= errorFds
      modifies this`cycle, head`prev, head`next, all`next, all`prev, all`events, all`pending
      ensures Valid() && res.Ok? && selectN <= |table|
      ensures forall f :: f in all ==>
        f.events == if f.active
                    then var t := Reported(sel, bad); Merge(old(f.events), Bits(t.0, t.1, t.2, f.fd))
                    else old(f.events)
      ensures Ring() == old(Ring()) + added
      ensures forall j, k :: 0 <= j < k < |added| ==> added[j].fd < added[k].fd
    {
      assert Registered(readFds) && Registered(writeFds) && Registered(errorFds) && selectN <= |table|;
      hide RingOk, TableOk, FlagsOk, Ring, Has;
      res, added := Ok, [];
      if sel.Interrupted? || sel.OtherError? {
        forall f: Fde ensures Merge(f.events, Bits({}, {}, {}, f.fd)) == f.events {
          BitsNonzero({}, {}, {}, f.fd);
          MergeLive(f.events, Bits({}, {}, {}, f.fd));
        }
        return;
      }
      var r, w, e: set<int> := {}, {}, {};
      var n := -1;
      if sel.Ready? {
        r, w, e := sel.r, sel.w, sel.e;
        n := |r| + |w| + |e|;
      }
      if n <= 0 {
        assert r == {} && w == {} && e == {};
        r, n := FdCheck(bad);
      } else {
        assert r + w + e != {};
      }
      hide Merge, Bits;
      res, added := Scan(r, w, e, n);
    }

    // --------------------------------------------------------- callbacks and dispatch

    /** The list did not grow: what is on it was on it. The log only grows. */
    twostate predicate Shrunk()
      reads this`cycle, this`log
    {
      |cycle| <= |old(cycle)| && (forall f :: f in cycle ==> f in old(cycle)) && old(log) <= log
    }

    /** Table, select sets, and who is installed where and asks for what. */
    ghost function Setup(): Setup
      reads this`table, this`selectN, this`readFds, this`writeFds, this`errorFds, all`active, all`fd, all`mask
    {
      Arranged(table, selectN, readFds, writeFds, errorFds, map f | f in all && f.active :: f.fd,
               map f | f in all :: f.mask)
    }

    method Take() returns (node: Fde?)
      requires Valid()
      modifies this`cycle, head`prev, head`next, all`next, all`prev
      ensures RingOk() && TableOk(null) && FlagsOk(node)
      ensures node == null <==> old(Ring()) == []
      ensures node == null ==> cycle == old(cycle)
      ensures node != null ==> old(Ring()) == [node] + Ring()
      ensures node != null ==> node in all && node in old(cycle) && |cycle| == |old(cycle)| - 1
      ensures node != null ==> forall f :: f in cycle <==> f in old(cycle) && f != node
    {
      hide TableOk, Live;
      node := PlistDequeue();
      if node != null {
        assert node in old(Ring());
      }
    }

    /** fdevent_call_fdfunc: the callback gets the events that were waiting, and the object is no
        longer pending while it runs. With an empty callback nothing else happens. */
    method CallFdfunc(fde: Fde, script: seq<Call>) returns (ghost tr: seq<Setup>)
      requires RingOk() && TableOk(null) && FlagsOk(fde) && AllIn(script, all)
      modifies this, head, all
      ensures Valid() && Shrunk()
      ensures old(log) + [(fde, old(fde.events))] <= log
      ensures Low(script) && old(selectN) <= FD_SETSIZE ==> selectN <= FD_SETSIZE
      ensures script == [] ==>
        cycle == old(cycle) && log == old(log) + [(fde, old(fde.events))] && Setup() == old(Setup())
      ensures script == [] ==> forall f :: f in all && f != fde ==> f.events == old(f.events)
      ensures Leads(script, old(Setup()), tr, Setup())
      decreases script, 1
    {
      hide RingOk, TableOk;
      ghost var events := fde.events;
      fde.events := 0;
      if !fde.pending { return; }
      fde.pending := false;
      log := log + [(fde, events)];
      hide FlagsOk, AllIn;
      tr := Execute(script);
    }

    /** A callback: its calls in order. Skipped are an install that would abort or, as Install says, break the
        invariants, and the subprocess handler for a descriptor without an object. */
    method Execute(calls: seq<Call>) returns (ghost tr: seq<Setup>)
      requires Valid() && AllIn(calls, all)
      modifies this, head, all
      ensures Valid() && Shrunk()
      ensures Low(calls) && old(selectN) <= FD_SETSIZE ==> selectN <= FD_SETSIZE
      ensures calls == [] ==> cycle == old(cycle) && log == old(log) && Setup() == old(Setup())
      ensures calls == [] ==> forall f :: f in all ==> f.events == old(f.events)
      ensures Leads(calls, old(Setup()), tr, Setup())
      decreases calls, 0
    {
      hide RingOk, TableOk, FlagsOk, Done, Leads, Setup;
      ghost var su := Setup();
      tr := [su];
      if calls == [] {
        LeadsNowhere(su);
      } else {
        ExecuteOne(calls[0]);
        ghost var mid := Setup();
        tr := Execute(calls[1..]);
        LeadsOn(su, calls[0], mid, calls[1..], tr, Setup());
        tr := [su] + tr;
        assert [calls[0]] + calls[1..] == calls;
      }
    }

    /** Only `f` may have been changed. */
    twostate lemma OneMoved(f: Fde)
      requires f in all
      requires forall g :: g in all && g != f ==>
        g.active == old(g.active) && g.fd == old(g.fd) && g.mask == old(g.mask)
      ensures Setup().masks == old(Setup().masks)[f := f.mask] && f in old(Setup().masks)
      ensures Setup().who == if f.active then old(Setup().who)[f := f.fd] else old(Setup().who) - {f}
      ensures f.active == old(f.active) && f.fd == old(f.fd) ==> Setup().who == old(Setup().who)
      ensures old(Setup().masks)[f] == old(f.mask)
    {
    }

    /** One call of a callback. An install goes through exactly when it would not abort nor break the invariants. */
    method ExecuteOne(c: Call)
      requires Valid() && CallIn(c, all)
      modifies this, head, all
      ensures Valid() && Shrunk()
      ensures LowCall(c) && old(selectN) <= FD_SETSIZE ==> selectN <= FD_SETSIZE
      ensures c.CallInstall? ==>
        if 0 <= c.fd && (c.fd < |old(table)| || c.fd <= 32000) && !old(c.f.pending) && old(Connectable(c.f, c.fd))
        then c.f.active && c.f.fd == c.fd && c.f.mask == 0 else Setup() == old(Setup())
      ensures c.CallRemove? ==> !c.f.active && !c.f.pending
      ensures Done(c, old(Setup()), Setup())
      decreases c
    {
      hide Valid, Ring, Setup, Connectable, Has, Low, AllIn, Done;
      match c
      case CallInstall(f, fd) => TryInstall(f, fd);
      case CallRemove(f) => Withdraw(f);
      case CallSet(f, ev) => Remask(c);
      case CallAdd(f, ev) => Remask(c);
      case CallDel(f, ev) => Remask(c);
      case CallSubproc(notify, ev, sub, rcount, nested) => TrySubproc(notify, ev, sub, rcount, nested);
    }

    method Remask(c: Call)
      requires Valid() && (c.CallSet? || c.CallAdd? || c.CallDel?) && c.f in all
      modifies this`readFds, this`writeFds, this`errorFds, this`cycle
      modifies head`prev, head`next, all`next, all`prev, c.f`mask, c.f`events, c.f`pending
      ensures Valid() && |cycle| <= |old(cycle)| && (forall g :: g in cycle ==> g in old(cycle))
      ensures Done(c, old(Setup()), Setup())
    {
      hide Valid, Ring, Setup, Live, OnlyWanted, StillWaits, Without, Merge;
      match c {
      case CallSet(f, ev) => Set(f, ev);
      case CallAdd(f, ev) => Add(f, ev);
      case CallDel(f, ev) => Del(f, ev);
      }
      OneMoved(c.f);
    }

    method TrySubproc(notify: int, ev: bv8, sub: int, rcount: int, nested: seq<Call>)
      requires Valid() && AllIn(nested, all)
      modifies this, head, all
      ensures Valid() && Shrunk()
      ensures Low(nested) && old(selectN) <= FD_SETSIZE ==> selectN <= FD_SETSIZE
      ensures Done(CallSubproc(notify, ev, sub, rcount, nested), old(Setup()), Setup())
      decreases nested, 3
    {
      hide Valid, Ring, Setup, Rearmed, Has, Low, AllIn, StillWaits;
      if 0 <= notify < |table| && table[notify] != null {
        Subproc(notify, ev, sub, rcount, nested);
      } else {
        NotRearmed(notify);
      }
    }

    method TryInstall(f: Fde, fd: int)
      requires Valid() && f in all
      modifies this`table, this`selectN, this`readFds, this`writeFds, this`errorFds, f
      ensures Valid()
      ensures fd < FD_SETSIZE && old(selectN) <= FD_SETSIZE ==> selectN <= FD_SETSIZE
      ensures if 0 <= fd && (fd < |old(table)| || fd <= 32000) && !old(f.pending) && old(Connectable(f, fd))
        then f.active && f.fd == fd && f.mask == 0 else Setup() == old(Setup())
      ensures Done(CallInstall(f, fd), old(Setup()), Setup())
    {
      hide Valid, Ring, Setup, Connectable;
      if 0 <= fd && (fd < |table| || fd <= 32000) && !f.pending && Connectable(f, fd) {
        var r := Install(f, fd);
        assert r.Ok?;
        OneMoved(f);
      }
    }

    method Withdraw(f: Fde)
      requires Valid() && f in all
      modifies this`cycle, this`table, this`selectN, this`readFds, this`writeFds, this`errorFds
      modifies head`prev, head`next, all`next, all`prev
      modifies f`mask, f`active, f`pending, f`events
      ensures Valid() && |cycle| <= |old(cycle)| && (forall g :: g in cycle ==> g in old(cycle))
      ensures selectN <= old(selectN)
      ensures !f.active && !f.pending && Done(CallRemove(f), old(Setup()), Setup())
    {
      hide Valid, Ring, Setup, Without;
      var r := Remove(f);
      OneMoved(f);
    }

    lemma NotRearmed(notify: int)
      requires !(0 <= notify < |table| && table[notify] != null)
      ensures Rearmed(notify, Setup(), Setup())
    {
    }

    /** Flags an object as readable without queueing it; `due` tells whether to call it. */
    method ForceRead(fde: Fde) returns (due: bool)
      requires Valid() && fde in all && fde.active
      modifies fde`forceEof, fde`events, fde`pending
      ensures RingOk() && TableOk(null) && FlagsOk(if due then fde else null)
      ensures fde.forceEof && due == !old(fde.pending) && fde.events == Merge(old(fde.events), READ)
      ensures due ==> fde.events == READ
    {
      hide RingOk, TableOk, Live, Merge;
      ReadMerged(fde.events);
      fde.forceEof := true;
      fde.events := Merge(fde.events, READ);
      due := !fde.pending;
      if due {
        fde.pending := true;
      }
    }

    /** Its first line: the notification descriptor is asked about again. */
    method Rearm(notify: int) returns (fde: Fde)
      requires Valid() && 0 <= notify < |table| && table[notify] != null
      modifies this`readFds, this`writeFds, this`errorFds, this`cycle
      modifies head`prev, head`next, all`next, all`prev, all`mask, all`events, all`pending
      ensures fde == old(table)[notify] && fde in all && Valid() && fde.mask == Merge(old(fde.mask), READ)
      ensures fde.pending <==> old(fde.pending) && StillWaits(old(fde.mask), READ, old(fde.events))
      ensures forall g :: g in all && g != fde ==>
        g.pending == old(g.pending) && g.events == old(g.events) && g.mask == old(g.mask)
      ensures |cycle| <= |old(cycle)| && forall f :: f in cycle ==> f in old(cycle)
      ensures Rearmed(notify, old(Setup()), Setup())
    {
      SetupTable();
      assert table[notify] in all;
      hide Valid, StillWaits, Merge, Setup;
      fde := table[notify];
      Add(fde, READ);
      OneMoved(fde);
    }

    /** fdevent_subproc_event_func: re-arm, then call the object of an exited subprocess at once, as if
        readable, unless it is gone, has data left or is on the list already. */
    method Subproc(notify: int, ev: bv8, sub: int, rcount: int, nested: seq<Call>)
      requires Valid() && AllIn(nested, all)
      requires 0 <= notify < |table| && table[notify] != null
      modifies this, head, all
      ensures Valid() && Shrunk()
      ensures 0 <= sub < |old(table)| ==>
        var sf := old(table)[sub];
        if Has(ev, READ) && sf != null && rcount == 0
           && !(old(sf.pending) && (sub == notify ==> StillWaits(old(sf.mask), READ, old(sf.events))))
        then old(log) + [(sf, READ)] <= log else log == old(log)
      ensures Low(nested) && old(selectN) <= FD_SETSIZE ==> selectN <= FD_SETSIZE
      ensures var f := old(table)[notify]; nested == [] ==> f.mask == Merge(old(f.mask), READ)
      ensures nested == [] ==> Rearmed(notify, old(Setup()), Setup())
      decreases nested, 2
    {
      hide RingOk, FlagsOk, AllIn, Has, StillWaits, Low, Merge, Setup, Rearmed;
      var fde := Rearm(notify);
      if !Has(ev, READ) || sub < 0 || sub >= |table| { return; }
      var sf := table[sub];
      if sf == null || sf.fd != sub { return; }
      assert sf in all && sf.active;
      hide TableOk;
      if rcount != 0 {
        sf.forceEof := true;
        return;
      }
      var due := ForceRead(sf);
      if due {
        MaskOf(fde);
        ghost var tr := CallFdfunc(sf, nested);
        MaskOf(fde);
      }
    }

    lemma SetupTable()
      ensures Setup().table == table
    {
    }

    lemma MaskOf(f: Fde)
      requires f in all
      ensures f in Setup().masks && Setup().masks[f] == f.mask
    {
    }

    /** One round of the dispatch loop: the oldest pending object is called. */
    method DispatchOne(script: seq<Call>, ghost called: seq<Fde>, ghost was: map<Fde, bv8>)
      returns (fde: Fde?, ghost tr: seq<Setup>)
      requires Valid() && AllIn(script, all) && was.Keys == all
      modifies this, head, all
      ensures Valid() && Shrunk()
      ensures Low(script) && old(selectN) <= FD_SETSIZE ==> selectN <= FD_SETSIZE
      ensures fde == null <==> old(Ring()) == []
      ensures fde == null ==> cycle == old(cycle) && log == old(log) && Setup() == old(Setup())
      ensures fde == null && old(EventsKept(called, was)) ==> EventsKept(called, was)
      ensures fde != null ==> fde in old(cycle) && fde !in cycle && |cycle| < |old(cycle)|
      ensures fde != null ==> fde in all && fde == old(Ring())[0]
      ensures fde != null ==> old(log) + [(fde, old(fde.events))] <= log
      ensures fde != null && script == [] ==>
        Ring() == old(Ring())[1..] && log == old(log) + [(fde, old(fde.events))]
      ensures script == [] ==> Setup() == old(Setup())
      ensures script == [] && old(EventsKept(called, was)) ==>
        if fde == null then EventsKept(called, was)
        else EventsKept(called + [fde], was)
      ensures old(EventsKept(called, was)) && fde != null && fde !in called ==> old(fde.events) == was[fde]
      ensures fde != null ==> Leads(script, old(Setup()), tr, Setup())
    {
      hide RingOk, TableOk, FlagsOk, AllIn, Leads;
      fde := Take();
      tr := [];
      if fde == null { return; }
      tr := CallFdfunc(fde, script);
    }

    /** Nobody but the called objects has lost events. */
    ghost predicate EventsKept(called: seq<Fde>, was: map<Fde, bv8>)
      requires was.Keys == all
      reads all`events
    {
      forall f :: f in all && f !in called ==> f.events == was[f]
    }

    /** How things stand after `k` rounds of the dispatch loop that began with `ring0` on the list, `log0` logged, the
        events `was` and the setup `su`, and went through the setups `tr` with the calls `did`. */
    ghost predicate Rounds(quiet: bool, k: nat, called: seq<Fde>, was: map<Fde, bv8>, cycle0: seq<Fde>,
                           ring0: seq<Fde>, log0: seq<(Fde, bv8)>, su: Setup, did: seq<Call>, tr: seq<Setup>)
      reads this, all
    {
      && was.Keys == all && Dispatched(cycle0, cycle, called) && log0 <= log && (k == 0 ==> called == [])
      && (quiet || k == 0 ==> EventsKept(called, was))
      && (quiet ==> InTurn(ring0, log0, was, called, Ring(), log) && Setup() == su)
      && First(ring0, log0, was, k, Ring(), log) && Leads(did, su, tr, Setup())
    }

    /** One round of it. */
    method Round(script: seq<Call>, ghost quiet: bool, ghost k: nat, ghost called: seq<Fde>, ghost was: map<Fde, bv8>,
                 ghost cycle0: seq<Fde>, ghost ring0: seq<Fde>, ghost log0: seq<(Fde, bv8)>, ghost su: Setup,
                 ghost did: seq<Call>, ghost tr: seq<Setup>)
      returns (fde: Fde?, ghost tr': seq<Setup>)
      requires Valid() && AllIn(script, all) && Rounds(quiet, k, called, was, cycle0, ring0, log0, su, did, tr)
      requires quiet ==> script == []
      modifies this, head, all
      ensures Valid() && (Low(script) && old(selectN) <= FD_SETSIZE ==> selectN <= FD_SETSIZE)
      ensures fde == null ==> Ring() == [] && Rounds(quiet, k, called, was, cycle0, ring0, log0, su, did, tr')
      ensures fde != null ==>
        |cycle| < |old(cycle)| && Rounds(quiet, k + 1, called + [fde], was, cycle0, ring0, log0, su, did + script, tr')
    {
      hide Valid, Ring, AllIn, Low, Setup, Deliveries, EventsKept, InTurn, First, Dispatched, Leads;
      ghost var before, ring, made, mid := cycle, Ring(), log, Setup();
      ghost var t;
      fde, t := DispatchOne(script, called, was);
      tr' := tr;
      if fde != null {
        LeadsJoin(did, su, tr, mid, script, t, Setup());
        tr' := tr + t[1..];
        DispatchedStep(cycle0, before, cycle, called, fde);
        if quiet { InTurnStep(ring0, log0, was, called, ring, made); }
        FirstStep(ring0, log0, was, k, ring, made, Ring(), log);
      }
    }

    /** The inner loop of fdevent_loop: it ends, with the list empty, after calling each object
        that was on the list at most once, the oldest one first and with the events it had; callbacks
        cannot prolong it. If the callbacks touch no event object, every object on the list is
        called, in order, with the events it had. */
    method Dispatch(script: nat -> seq<Call>) returns (ghost called: seq<Fde>, ghost tr: seq<Setup>)
      requires Valid() && forall k :: AllIn(script(k), all)
      modifies this, head, all
      ensures Valid() && Ring() == []
      ensures Dispatched(old(cycle), cycle, called)
      ensures (forall k :: Low(script(k))) && old(selectN) <= FD_SETSIZE ==> selectN <= FD_SETSIZE
      ensures old(log) <= log
      ensures old(Ring()) != [] ==> old(log) + [old((Ring()[0], Ring()[0].events))] <= log
      ensures Quiet(script) ==> InTurn(old(Ring()), old(log), old(map f | f in all :: f.events), called, [], log)
      ensures Quiet(script) ==> Setup() == old(Setup())
      ensures Leads(Calls(script, |called|), old(Setup()), tr, Setup())
    {
      called := [];
      ghost var was := map f | f in all :: f.events;
      ghost var cycle0, ring0, log0, su, quiet := cycle, Ring(), log, Setup(), Quiet(script);
      var k := 0;
      RoundsBegin(quiet, was);
      tr := [su];
      NoCalls(script);
      hide *;
      while true
        invariant Valid() && k == |called|
        invariant Rounds(quiet, k, called, was, cycle0, ring0, log0, su, Calls(script, k), tr)
        invariant (forall k :: Low(script(k))) && old(selectN) <= FD_SETSIZE ==> selectN <= FD_SETSIZE
        decreases |cycle|
      {
        if quiet { QuietAt(script, k); }
        var fde;
        fde, tr := Round(script(k), quiet, k, called, was, cycle0, ring0, log0, su, Calls(script, k), tr);
        if fde == null { break; }
        called := called + [fde];
        NextCalls(script, k);
        k := k + 1;
      }
      RoundsEnd(quiet, k, called, was, cycle0, ring0, log0, su, Calls(script, k), tr);
    }

    lemma RoundsBegin(quiet: bool, was: map<Fde, bv8>)
      requires was == map f | f in all :: f.events
      ensures Rounds(quiet, 0, [], was, cycle, Ring(), log, Setup(), [], [Setup()])
    {
      DispatchedNone(cycle, was);
      KeptNow(was);
      assert [] + Ring() == Ring();
    }

    lemma RoundsEnd(quiet: bool, k: nat, called: seq<Fde>, was: map<Fde, bv8>, cycle0: seq<Fde>, ring0: seq<Fde>,
                    log0: seq<(Fde, bv8)>, su: Setup, did: seq<Call>, tr: seq<Setup>)
      requires Rounds(quiet, k, called, was, cycle0, ring0, log0, su, did, tr) && Ring() == []
      ensures Leads(did, su, tr, Setup())
      ensures Dispatched(cycle0, cycle, called) && log0 <= log
      ensures quiet ==> InTurn(ring0, log0, was, called, [], log) && Setup() == su
      ensures ring0 != [] ==> ring0[0] in was && log0 + [(ring0[0], was[ring0[0]])] <= log
    {
      hide Ring, Setup, InTurn, First, Dispatched, EventsKept, Leads;
      FirstEnd(ring0, log0, was, k, log);
    }

    lemma KeptNow(was: map<Fde, bv8>)
      requires was == map f | f in all :: f.events
      ensures EventsKept([], was)
    {
    }

    /** The objects on the list, oldest first, with the events they have. */
    ghost function Waiting(): seq<(Fde, bv8)>
      reads this`cycle, all`events
    {
      Deliveries(Ring(), map f | f in all :: f.events)
    }

    lemma SelectBound()
      requires Valid()
      ensures selectN <= |table|
    {
    }

    /** With nothing on the list no events wait. */
    lemma NothingWaits()
      requires Valid() && Ring() == []
      ensures forall f :: f in all ==> f.events == 0
    {
      forall f | f in all ensures f !in cycle {
        if f in cycle {
          var k := PlaceOf(f);
          assert false;
        }
      }
    }

    /** On the list are exactly the objects that have events. */
    lemma Listed(f: Fde)
      requires RingOk() && FlagsOk(null) && f in all
      ensures f in Ring() <==> f.events != 0
    {
      if f in cycle {
        var k := PlaceOf(f);
        assert Ring()[k - 1] == f;
      }
    }

    /** When all events are those just reported, the list is what is due. */
    lemma DueNow(t: (set<int>, set<int>, set<int>))
      requires Valid()
      requires forall f :: f in all ==> f.events == if f.active then Bits(t.0, t.1, t.2, f.fd) else 0
      requires forall i, j :: 0 <= i < j < |Ring()| ==> Ring()[i].fd < Ring()[j].fd
      ensures Due(Waiting(), t, Setup().who)
    {
      var ring, was := Ring(), map f | f in all :: f.events;
      RingIn();
      DeliveriesAt(ring, was);
      forall f | f in all ensures f in ring <==> f.events != 0 { Listed(f); }
      hide RingOk, FlagsOk, Ring, Bits, Deliveries;
      forall f | f in all && f.active
        ensures Tells(f.events, t, f.fd) && (f.events != 0 <==> f.fd in t.0 || f.fd in t.1 || f.fd in t.2)
      {
        BitsTell(t, f.fd);
        BitsNonzero(t.0, t.1, t.2, f.fd);
      }
      hide Tells;
      DueList(ring, was, t, Setup().who);
    }

    lemma DueList(ring: seq<Fde>, was: map<Fde, bv8>, t: (set<int>, set<int>, set<int>), who: map<Fde, int>)
      requires forall i :: 0 <= i < |ring| ==> ring[i] in was && was[ring[i]] != 0
      requires forall f :: f in was && was[f] != 0 ==> f in ring && f in who && Tells(was[f], t, who[f])
      requires forall f :: f in who ==> f in was && (was[f] != 0 <==> who[f] in t.0 || who[f] in t.1 || who[f] in t.2)
      requires forall i, j :: 0 <= i < j < |ring| ==> who[ring[i]] < who[ring[j]]
      ensures Due(Deliveries(ring, was), t, who)
    {
      var made := Deliveries(ring, was);
      DeliveriesAt(ring, was);
      hide Tells, Deliveries;
      forall f | f in who && (who[f] in t.0 || who[f] in t.1 || who[f] in t.2)
        ensures exists i :: 0 <= i < |made| && made[i].0 == f
      {
        var i :| 0 <= i < |ring| && ring[i] == f;
        assert made[i].0 == f;
      }
    }

    lemma RingIn()
      requires RingOk()
      ensures forall i :: 0 <= i < |Ring()| ==> Ring()[i] in all
    {
    }

    lemma BitsTell(t: (set<int>, set<int>, set<int>), x: int)
      ensures Tells(Bits(t.0, t.1, t.2, x), t, x)
    {
    }

    twostate lemma OnlyReported(t: (set<int>, set<int>, set<int>))
      requires forall f :: f in all ==> old(f.events) == 0
      requires forall f :: f in all ==>
        f.events == if f.active then Merge(old(f.events), Bits(t.0, t.1, t.2, f.fd)) else old(f.events)
      ensures forall f :: f in all ==> f.events == if f.active then Bits(t.0, t.1, t.2, f.fd) else 0
    {
      MergeNothing();
      hide Bits, Merge;
    }

    lemma AnswerMeans(sel0: Selected, sel: Selected, bad: set<int>)
      requires selectN <= |table|
      requires sel == match sel0
        case Ready(r, w, e) => Ready(r * readFds, w * writeFds, e * errorFds)
        case s => s
      ensures Reported(sel, bad) == Answer(Setup(), sel0, bad)
    {
      assert (set x | x in bad && 0 <= x < selectN && table[x] != null)
        == set x | x in bad && 0 <= x < selectN && x < |table| && table[x] != null;
    }

    /** fdevent_process in a turn. `made` are the callbacks due if nothing was pending. */
    method ProcessTurn(sel0: Selected, bad: set<int>) returns (r: Result, ghost made: seq<(Fde, bv8)>)
      requires Valid()
      modifies this`cycle, head`prev, head`next, all`next, all`prev, all`events, all`pending
      ensures Valid() && r.Ok?
      ensures made == Waiting() && old(Ring()) <= Ring()
      ensures Setup() == old(Setup())
      ensures old(Ring()) == [] ==> Due(made, Answer(Setup(), sel0, bad), Setup().who)
    {
      hide *;
      ghost var empty := Ring() == [];
      SelectBound();
      if empty { NothingWaits(); }
      var sel := match sel0
        case Ready(r, w, e) => Ready(r * readFds, w * writeFds, e * errorFds)
        case s => s;
      ghost var added;
      r, added := Process(sel, bad);
      made := Waiting();
      AnswerMeans(sel0, sel, bad);
      if empty {
        assert Ring() == added;
        OnlyReported(Reported(sel, bad));
        DueNow(Reported(sel, bad));
      }
    }

    /** One turn of fdevent_loop. The calls of its `n` callbacks take effect in order. With quiet callbacks, and nothing
        pending at its start, it makes exactly the callbacks that are due. Whatever the callbacks do, the first one made
        is for the oldest object, if one was pending, and else the first one due. */
    method TurnOnce(t: Turn) returns (r: Result, ghost made: seq<(Fde, bv8)>, ghost n: nat, ghost tr: seq<Setup>)
      requires Valid() && forall k :: AllIn(t.script(k), all)
      modifies this, head, all
      ensures Valid() && r.Ok? && Ring() == []
      ensures (forall k :: Low(t.script(k))) && old(selectN) <= FD_SETSIZE ==> selectN <= FD_SETSIZE
      ensures old(Ring()) == [] ==> Due(made, Answer(old(Setup()), t.sel, t.bad), old(Setup()).who)
      ensures old(log) <= log && (made != [] ==> old(log) + [made[0]] <= log)
      ensures old(Ring()) != [] ==> made != [] && made[0].0 == old(Ring())[0]
      ensures Quiet(t.script) ==> log == old(log) + made && Setup() == old(Setup())
      ensures Leads(Calls(t.script, n), old(Setup()), tr, Setup())
    {
      hide RingOk, TableOk, FlagsOk, AllIn, Low, Ring, Due, Dispatched, Deliveries, Leads;
      r, made := ProcessTurn(t.sel, t.bad);
      ghost var ring, was := Ring(), map f | f in all :: f.events;
      RingIn();
      DeliveriesAt(ring, was);
      ghost var called;
      called, tr := Dispatch(t.script);
      n := |called|;
      if Quiet(t.script) { assert called + [] == called; }
    }

    lemma JoinedMore(made: seq<seq<(Fde, bv8)>>, now: seq<(Fde, bv8)>)
      ensures Joined(made + [now]) == Joined(made) + now
    {
      assert (made + [now])[..|made|] == made;
    }

    /** All the callbacks of several turns. */
    ghost function Joined(made: seq<seq<(Fde, bv8)>>): seq<(Fde, bv8)> {
      if made == [] then [] else Joined(made[..|made| - 1]) + made[|made| - 1]
    }

    /** In every turn so far what was due was done. */
    ghost predicate AllDue(made: seq<seq<(Fde, bv8)>>, turns: seq<Turn>, su: Setup) {
      |made| <= |turns| && forall i :: 0 <= i < |made| ==> Due(made[i], Answer(su, turns[i].sel, turns[i].bad), su.who)
    }

    /** fdevent_loop for any finite number of turns: it never aborts. With quiet callbacks, and nothing pending at its
        start, it makes in every turn exactly the callbacks that are due, and no others; whatever the callbacks do, the
        first one due in the first turn is made. The kernel reports only descriptors it was asked about. */
    method Loop(turns: seq<Turn>) returns (r: Result, ghost made: seq<seq<(Fde, bv8)>>)
      requires Valid() && forall t, k :: t in turns ==> AllIn(t.script(k), all)
      modifies this, head, all
      ensures Valid() && r.Ok? && |made| == |turns|
      ensures turns != [] ==> Ring() == []
      ensures (forall t, k :: t in turns ==> Low(t.script(k))) && old(selectN) <= FD_SETSIZE ==> selectN <= FD_SETSIZE
      ensures old(Ring()) == [] && (forall t :: t in turns ==> Quiet(t.script)) ==>
        log == old(log) + Joined(made) && AllDue(made, turns, old(Setup()))
      ensures old(Ring()) == [] ==> AllDue(made[..if turns == [] then 0 else 1], turns, old(Setup()))
      ensures turns != [] && made[0] != [] ==> old(log) + [made[0][0]] <= log
    {
      NothingDue(turns, Setup());
      hide RingOk, TableOk, FlagsOk, Ring, AllIn, Low, Due, Setup, Answer, AllDue, Joined;
      r, made := Ok, [];
      ghost var log0, su := log, Setup();
      ghost var empty, quiet := Ring() == [], forall t :: t in turns ==> Quiet(t.script);
      var i := 0;
      while i < |turns|
        invariant 0 <= i <= |turns| && Valid() && r.Ok? && |made| == i && log0 <= log
        invariant i > 0 || empty ==> Ring() == []
        invariant i == 0 ==> log == log0 && Setup() == su
        invariant (forall t, k :: t in turns ==> Low(t.script(k))) && old(selectN) <= FD_SETSIZE ==>
          selectN <= FD_SETSIZE
        invariant empty && quiet ==> Setup() == su && log == log0 + Joined(made)
        invariant empty && (quiet || i == 0) ==> AllDue(made, turns, su)
        invariant empty && i > 0 ==> AllDue(made[..1], turns, su)
        invariant i > 0 && made[0] != [] ==> log0 + [made[0][0]] <= log
      {
        ghost var now, n, tr;
        r, now, n, tr := TurnOnce(turns[i]);
        JoinedMore(made, now);
        if empty && (quiet || i == 0) { DueMore(made, turns, su, now); }
        assert i > 0 ==> (made + [now])[..1] == made[..1] && (made + [now])[0] == made[0];
        assert i == 0 ==> (made + [now])[..1] == made + [now];
        made := made + [now];
        i := i + 1;
      }
    }

    lemma NothingDue(turns: seq<Turn>, su: Setup)
      ensures AllDue([], turns, su) && Joined([]) == []
    {
    }

    lemma DueMore(made: seq<seq<(Fde, bv8)>>, turns: seq<Turn>, su: Setup, now: seq<(Fde, bv8)>)
      requires AllDue(made, turns, su) && |made| < |turns|
      requires Due(now, Answer(su, turns[|made|].sel, turns[|made|].bad), su.who)
      ensures AllDue(made + [now], turns, su)
    {
      hide Due, Answer;
    }

    lemma NothingSet()
      requires TableOk(null) && forall f :: f in all ==> !f.active
      ensures readFds == {} && writeFds == {} && errorFds == {}
    {
      forall x ensures x !in readFds && x !in writeFds && x !in errorFds {
      }
    }

    lemma ReadSet(f: Fde)
      requires TableOk(null) && f in all && f.active && f.mask == READ
      ensures f.fd in readFds
    {
    }

    lemma OnlyOne(f: Fde)
      requires RingOk() && all == {f} && f in cycle
      ensures Ring() == [f]
    {
      var k := PlaceOf(f);
      if |cycle| > 3 {
        TwoApart(cycle);
        assert false;
      }
    }

    /** What the code may do next with its three sets stays inside an fd_set: FD_SET and FD_CLR for an installed object
        when its mask is changed or it is removed, FD_SET for a registered descriptor that turns out bad, and select(2)
        and FD_ISSET for everything below select_n. */
    ghost predicate SetsInside()
      reads this`table, this`selectN, all`active, all`fd
    {
      && (forall f :: f in all && f.active ==> 0 <= f.fd < FD_SETSIZE)
      && (forall i :: 0 <= i < |table| && table[i] != null ==> i < FD_SETSIZE)
      && (forall i: nat {:trigger Covered(i)} :: Covered(i) ==> i < FD_SETSIZE)
    }

    ghost predicate Covered(i: nat)
      reads this`selectN
    {
      i < selectN
    }

    /** That is so exactly when select_n is within an fd_set. */
    lemma SetsInsideExactly()
      requires TableOk(null)
      ensures SetsInside() <==> selectN <= FD_SETSIZE
    {
      hide Has;
      if selectN > FD_SETSIZE { assert Covered(FD_SETSIZE); }
    }
  }

  /** The failing run: an object installed on descriptor 2000 that waits for nothing. Nothing is in any set, and still
      select_n is beyond an fd_set; it stays there when the object is removed and nothing is registered at all. */
  method HighDescriptor() returns (loop: EventLoop, installed: nat)
    ensures loop.Valid() && installed == loop.selectN == 2001 && !loop.SetsInside()
    ensures loop.readFds == {} && loop.writeFds == {} && loop.errorFds == {} && forall f :: f in loop.all ==> !f.active
  {
    var f := new Fde();
    loop := new EventLoop({f});
    var r := loop.Install(f, 2000);
    installed := loop.selectN;
    hide EventLoop.RingOk, EventLoop.FlagsOk, Without, Has;
    r := loop.Remove(f);
    loop.SetsInsideExactly();
    loop.NothingSet();
  }

  /** A loop with one object, on descriptor 3, waiting to be readable. */
  method ReadingLoop() returns (loop: EventLoop, f: Fde)
    ensures fresh(loop) && fresh(loop.head) && fresh(f) && loop.all == {f} && loop.Valid()
    ensures f.active && f.fd == 3 && f.mask == READ && f.events == 0 && loop.log == []
  {
    f := new Fde();
    loop := new EventLoop({f});
    var r := loop.Install(f, 3);
    loop.PendingHas(f);
    hide EventLoop.RingOk, EventLoop.FlagsOk, EventLoop.TableOk, Without, OnlyWanted, Less;
    loop.Set(f, READ);
  }

  /** The object becomes readable. */
  method BecomesReadable(loop: EventLoop, f: Fde)
    requires loop.Valid() && f in loop.all && f.active && f.fd == 3 && f.mask == READ && f.events == 0
    modifies loop`cycle, loop.head, loop.all`next, loop.all`prev, loop.all`events, loop.all`pending
    ensures loop.Valid() && f.events == READ
  {
    loop.ReadSet(f);
    hide EventLoop.RingOk, EventLoop.FlagsOk, EventLoop.TableOk;
    ghost var added;
    var r;
    r, added := loop.Process(Ready({3}, {}, {}), {});
    assert Merge(0, Bits({3}, {}, {}, 3)) == READ;
  }

  /** Its one pending object is called with the events it has. */
  method CallOne(loop: EventLoop, f: Fde)
    requires loop.Valid() && loop.all == {f} && Live(f.events) && loop.log == []
    modifies loop, loop.head, loop.all
    ensures loop.log == [(f, old(f.events))]
  {
    loop.PendingHas(f);
    loop.OnlyOne(f);
    hide EventLoop.RingOk, EventLoop.FlagsOk, EventLoop.TableOk, Dispatched;
    var quiet: nat -> seq<Call> := _ => [];
    assert Quiet(quiet);
    ghost var called, tr := loop.Dispatch(quiet);
    ghost var was := old(map g | g in loop.all :: g.events);
    assert called == called + [] == [f] == [] + [f];
    InTurnStep([f], [], was, [], [f], []);
  }

  /** An event that is no longer wanted is signalled after all: readable while reading was asked for, then asked
      for writing only, the object is called back with READ. */
  method UnwantedSignalled() returns (f: Fde, wanted: bv8, ghost log: seq<(Fde, bv8)>)
    ensures wanted == WRITE && log == [(f, READ)]
  {
    var loop;
    loop, f := ReadingLoop();
    BecomesReadable(loop, f);
    loop.PendingHas(f);
    hide EventLoop.RingOk, EventLoop.FlagsOk, EventLoop.TableOk, Without, OnlyWanted;
    OneEvent();
    loop.Set(f, WRITE);
    wanted := f.mask;
    CallOne(loop, f);
    log := loop.log;
  }

  lemma OneEvent()
    ensures Less(READ, WRITE) == READ && Live(READ)
  {
  }
}
