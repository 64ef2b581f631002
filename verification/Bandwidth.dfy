/** Bandwidth control (netd/BandwidthController.cpp): lists of interfaces with quotas and a
    global alert, mirrored in the kernel's bw_INPUT, bw_OUTPUT, bw_FORWARD and costly chains.
    Commands succeed when iptables can carry them out. */
module Bandwidth {
  import opened Bytes
  import opened Iptables

  const MAX_IFACENAME_LEN: nat := 64

  /** The rules of the modelled chains. Quota and alert rules are told apart by name; the byte
      value is not part of a rule's identity. */
  datatype Rule =
    | Alert                                 // ! -i lo+ -m quota2 ! --quota N --name globalAlert
    | Jump(iface: string, chain: string)    // -i iface --jump chain
    | LoReturn                              // -i lo --jump RETURN
    | SocketExists                          // -m owner --socket-exists
    | Quota(name: string)                   // -m quota2 ! --quota N --name name --jump REJECT
    | PenaltyBox                            // --jump penalty_box

  const ACCOUNTING: seq<Rule> := [LoReturn, SocketExists]
  const SHARED: string := "costly_shared"

  function CostlyChain(ifn: string): string { "costly_" + ifn }

  lemma CostlyChainInjective(a: string, b: string)
    ensures CostlyChain(a) == CostlyChain(b) <==> a == b
    ensures CostlyChain("shared") == SHARED
  {
    assert CostlyChain(a)[7..] == a && CostlyChain(b)[7..] == b;
  }

  datatype QuotaInfo = QuotaInfo(ifaceName: string, quota: int)

  predicate HasQuota(qs: seq<QuotaInfo>, ifn: string) {
    exists i :: 0 <= i < |qs| && qs[i].ifaceName == ifn
  }

  /** The first interface of that name on the list, or -1. */
  function IndexOf(qs: seq<QuotaInfo>, ifn: string): (k: int)
    ensures -1 <= k < |qs|
    ensures k >= 0 ==> qs[k].ifaceName == ifn
    ensures HasQuota(qs, ifn) <==> k >= 0
    ensures forall j :: 0 <= j < k ==> qs[j].ifaceName != ifn
  {
    if qs == [] then -1
    else if qs[0].ifaceName == ifn then 0
    else
      var k := IndexOf(qs[1..], ifn);
      assert HasQuota(qs, ifn) <==> HasQuota(qs[1..], ifn);
      if k < 0 then -1 else k + 1
  }

  /** A quota set: a new interface goes in front, a known one gets a new value. */
  function QuotaSet(qs: seq<QuotaInfo>, ifn: string, bytes: int): seq<QuotaInfo> {
    var k := IndexOf(qs, ifn);
    if k < 0 then [QuotaInfo(ifn, bytes)] + qs else qs[k := QuotaInfo(ifn, bytes)]
  }

  function QuotaRemoved(qs: seq<QuotaInfo>, ifn: string): seq<QuotaInfo> {
    var k := IndexOf(qs, ifn);
    if k < 0 then qs else qs[..k] + qs[k + 1..]
  }

  /** The quota of an interface. */
  function QuotaOf(qs: seq<QuotaInfo>, ifn: string): Option<int> {
    var k := IndexOf(qs, ifn);
    if k < 0 then None else Some(qs[k].quota)
  }

  lemma {:induction false} QuotaAt(qs: seq<QuotaInfo>, n: string, k: nat)
    requires k < |qs| && qs[k].ifaceName == n && forall j :: 0 <= j < k ==> qs[j].ifaceName != n
    ensures IndexOf(qs, n) == k && QuotaOf(qs, n) == Some(qs[k].quota)
  {
    var i := IndexOf(qs, n);
    hide IndexOf;
    assert HasQuota(qs, n);
    if i < k { assert false; }
  }

  /** Setting a quota changes that of one interface, and removing it takes that away. */
  lemma QuotaSetOnly(qs: seq<QuotaInfo>, ifn: string, bytes: int, n: string)
    ensures QuotaOf(QuotaSet(qs, ifn, bytes), n) == if n == ifn then Some(bytes) else QuotaOf(qs, n)
  {
    var k, i, r := IndexOf(qs, ifn), IndexOf(qs, n), QuotaSet(qs, ifn, bytes);
    hide IndexOf;
    if n == ifn {
      QuotaAt(r, n, if k < 0 then 0 else k);
    } else if i >= 0 {
      QuotaAt(r, n, if k < 0 then i + 1 else i);
    } else {
      assert forall j :: 0 <= j < |qs| ==> qs[j].ifaceName != n;
      assert !HasQuota(r, n);
    }
  }

  lemma QuotaRemovedOnly(qs: seq<QuotaInfo>, ifn: string, n: string)
    requires ListsFit([], qs)
    ensures QuotaOf(QuotaRemoved(qs, ifn), n) == if n == ifn then None else QuotaOf(qs, n)
  {
    var k, i, r := IndexOf(qs, ifn), IndexOf(qs, n), QuotaRemoved(qs, ifn);
    hide IndexOf;
    if n != ifn && i >= 0 {
      QuotaAt(r, n, if k < 0 || i < k then i else i - 1);
    } else {
      assert n == ifn && k >= 0 ==> forall j :: 0 <= j < |qs| && j != k ==> qs[j].ifaceName != n;
      assert !HasQuota(r, n);
    }
  }

  function AlertPart(bytes: int): seq<Rule> { if bytes != 0 then [Alert] else [] }

  // ------------------------------------------------------------------ chain surgery

  /** A jump inserted behind the alert goes in front of all other jumps. */
  lemma InsertJump(alert: seq<Rule>, jumps: seq<Rule>, r: Rule)
    ensures InsertAt(alert + jumps + ACCOUNTING, |alert| + 1, r) == alert + ([r] + jumps) + ACCOUNTING
  {
    var ch := alert + jumps + ACCOUNTING;
    assert ch[..|alert|] == alert;
    assert ch[|alert|..] == jumps + ACCOUNTING;
  }

  lemma DeleteJump(alert: seq<Rule>, jumps: seq<Rule>, r: Rule)
    requires r.Jump? && r !in alert
    ensures Delete(alert + jumps + ACCOUNTING, r) == alert + Delete(jumps, r) + ACCOUNTING
  {
    hide Delete;
    if r in jumps {
      DeleteInFront(alert + jumps, ACCOUNTING, r);
      DeleteBehind(alert, jumps, r);
    }
  }

  lemma AlertIn(jumps: seq<Rule>)
    ensures InsertAt(AlertPart(0) + jumps + ACCOUNTING, 1, Alert) == [Alert] + jumps + ACCOUNTING
  {
    assert AlertPart(0) + jumps + ACCOUNTING == jumps + ACCOUNTING;
    assert (jumps + ACCOUNTING)[..0] == [];
  }

  lemma AlertOut(jumps: seq<Rule>)
    ensures Delete([Alert] + jumps + ACCOUNTING, Alert) == AlertPart(0) + jumps + ACCOUNTING
  {
    assert [Alert] + jumps + ACCOUNTING == [] + [Alert] + (jumps + ACCOUNTING);
    DeleteAt([], Alert, jumps + ACCOUNTING);
    assert [] + (jumps + ACCOUNTING) == AlertPart(0) + jumps + ACCOUNTING;
  }

  lemma SharedQuotaOut()
    ensures Delete([Quota("shared"), PenaltyBox], Quota("shared")) == [PenaltyBox]
  {
  }

  // --------------------------------------------------------------- what must agree

  /** A jump belongs to a tracked interface: one with the shared quota or one of its own. */
  ghost predicate Tracked(r: Rule, shared: seq<string>, qs: seq<QuotaInfo>) {
    r.Jump? && ((r.chain == SHARED && r.iface in shared)
                || (r.chain == CostlyChain(r.iface) && HasQuota(qs, r.iface)))
  }

  /** Exactly one jump per tracked interface and kind of quota. */
  ghost predicate JumpsMirror(jumps: seq<Rule>, shared: seq<string>, qs: seq<QuotaInfo>) {
    Distinct(jumps) && forall r :: r in jumps <==> Tracked(r, shared, qs)
  }

  predicate ListsFit(shared: seq<string>, qs: seq<QuotaInfo>) {
    && Distinct(shared)
    && (forall i, j :: 0 <= i < j < |qs| ==> qs[i].ifaceName != qs[j].ifaceName)
  }

  /** Every live costly chain has its quota rule in front of the penalty box. */
  ghost predicate CostlyShape(costly: map<string, seq<Rule>>, shared: seq<string>, qs: seq<QuotaInfo>) {
    && SHARED in costly
    && costly[SHARED] == (if shared == [] then [PenaltyBox] else [Quota("shared"), PenaltyBox])
    && (forall i :: 0 <= i < |qs| ==>
          var n := qs[i].ifaceName;
          CostlyChain(n) in costly && costly[CostlyChain(n)] == [Quota(n), PenaltyBox])
  }

  lemma ShareOne(jumps: seq<Rule>, shared: seq<string>, qs: seq<QuotaInfo>, ifn: string)
    requires JumpsMirror(jumps, shared, qs) && ListsFit(shared, qs) && ifn !in shared
    ensures JumpsMirror([Jump(ifn, SHARED)] + Delete(jumps, Jump(ifn, SHARED)), [ifn] + shared, qs)
    ensures ListsFit([ifn] + shared, qs)
  {
    var r := Jump(ifn, SHARED);
    DeleteDistinct(jumps, r);
    assert Distinct([ifn] + shared);
    AgainFirst(jumps, r);
    hide HasQuota, CostlyChain, Delete, Distinct;
    assert forall x :: x in [ifn] + shared <==> x == ifn || x in shared;
    assert forall x :: x in [r] + Delete(jumps, r) <==> x == r || x in jumps;
  }

  lemma AgainFirst(jumps: seq<Rule>, r: Rule)
    requires Distinct(jumps)
    ensures Distinct([r] + Delete(jumps, r))
    ensures forall x :: x in [r] + Delete(jumps, r) <==> x == r || x in jumps
  {
    DeleteDistinct(jumps, r);
    hide Delete;
  }

  /** An interface leaves the shared list with its jump; the jump of one called "shared" would still be
      needed if it has a quota of its own. */
  lemma UnshareOne(jumps: seq<Rule>, shared: seq<string>, qs: seq<QuotaInfo>, ifn: string)
    requires JumpsMirror(jumps, shared, qs) && ListsFit(shared, qs) && ifn in shared
    ensures Jump(ifn, SHARED) in jumps && ListsFit(Delete(shared, ifn), qs)
    ensures JumpsMirror(Delete(jumps, Jump(ifn, SHARED)), Delete(shared, ifn), qs)
      <==> !(ifn == "shared" && HasQuota(qs, "shared"))
  {
    var r := Jump(ifn, SHARED);
    CostlyChainInjective(ifn, "shared");
    hide HasQuota, CostlyChain;
    assert Tracked(r, shared, qs);
    DeleteDistinct(jumps, r);
    DeleteDistinct(shared, ifn);
    hide Delete, Distinct;
    if ifn == "shared" && HasQuota(qs, "shared") {
      assert Tracked(r, Delete(shared, ifn), qs);
    }
  }

  lemma QuotaOne(jumps: seq<Rule>, shared: seq<string>, qs: seq<QuotaInfo>, q: QuotaInfo)
    requires JumpsMirror(jumps, shared, qs) && ListsFit(shared, qs) && !HasQuota(qs, q.ifaceName)
    ensures var r := Jump(q.ifaceName, CostlyChain(q.ifaceName));
      JumpsMirror([r] + Delete(jumps, r), shared, [q] + qs)
    ensures ListsFit(shared, [q] + qs)
  {
    var r := Jump(q.ifaceName, CostlyChain(q.ifaceName));
    AddedQuota(qs, q);
    assert forall i :: 0 <= i < |qs| ==> qs[i].ifaceName != q.ifaceName;
    AgainFirst(jumps, r);
    hide HasQuota, CostlyChain, Delete, Distinct;
  }

  /** Taking an interface off the list takes its jump, and no other jump leads to its chain. */
  lemma UnquotaOne(jumps: seq<Rule>, shared: seq<string>, qs: seq<QuotaInfo>, k: nat)
    requires JumpsMirror(jumps, shared, qs) && ListsFit(shared, qs) && k < |qs|
    ensures var r := Jump(qs[k].ifaceName, CostlyChain(qs[k].ifaceName));
            var rest := qs[..k] + qs[k + 1..];
            && r in jumps && ListsFit(shared, rest)
            && (qs[k].ifaceName != "shared" ==>
                  && JumpsMirror(Delete(jumps, r), shared, rest)
                  && !LeadsTo(Delete(jumps, r), CostlyChain(qs[k].ifaceName)))
  {
    var ifn := qs[k].ifaceName;
    var r := Jump(ifn, CostlyChain(ifn));
    CostlyChainInjective(ifn, "shared");
    DroppedQuota(qs, k);
    assert HasQuota(qs, ifn);
    assert Tracked(r, shared, qs);
    DeleteDistinct(jumps, r);
    if ifn != "shared" {
      forall i | 0 <= i < |Delete(jumps, r)| && Delete(jumps, r)[i].Jump?
        ensures Delete(jumps, r)[i].chain != CostlyChain(ifn)
      {
        var x := Delete(jumps, r)[i];
        assert x in Delete(jumps, r);
        CostlyChainInjective(x.iface, ifn);
      }
    }
    hide HasQuota, CostlyChain, Delete, Distinct;
  }

  /** Some rule jumps to the chain. */
  predicate LeadsTo(rules: seq<Rule>, chain: string) {
    exists i :: 0 <= i < |rules| && rules[i].Jump? && rules[i].chain == chain
  }

  lemma JumpThrough(alert: seq<Rule>, jumps: seq<Rule>, r: Rule)
    requires r.Jump? && r !in alert
    ensures r in alert + jumps + ACCOUNTING <==> r in jumps
  {
  }

  lemma LeadsThrough(alert: seq<Rule>, jumps: seq<Rule>, chain: string)
    requires forall i :: 0 <= i < |alert| ==> !alert[i].Jump?
    ensures LeadsTo(alert + jumps + ACCOUNTING, chain) <==> LeadsTo(jumps, chain)
  {
    var ch := alert + jumps + ACCOUNTING;
    if LeadsTo(jumps, chain) {
      var i :| 0 <= i < |jumps| && jumps[i].Jump? && jumps[i].chain == chain;
      assert ch[|alert| + i] == jumps[i];
    }
  }

  /** A quota of its own brings the chain of the interface. The name "shared" brings the shared chain, whose
      quota rule is right exactly when somebody shares it. */
  lemma CostlyQuotaOne(costly: map<string, seq<Rule>>, shared: seq<string>, qs: seq<QuotaInfo>, q: QuotaInfo)
    requires CostlyShape(costly, shared, qs) && !HasQuota(qs, q.ifaceName)
    ensures CostlyShape(costly[CostlyChain(q.ifaceName) := [Quota(q.ifaceName), PenaltyBox]], shared, [q] + qs)
      <==> q.ifaceName != "shared" || shared != []
  {
    CostlyChainInjective(q.ifaceName, "shared");
    UniqueChainsApart(qs, q.ifaceName);
    hide CostlyChain, HasQuota;
    assert ([q] + qs)[0] == q;
  }

  lemma CostlyUnquotaOne(costly: map<string, seq<Rule>>, shared: seq<string>, qs: seq<QuotaInfo>, k: nat)
    requires CostlyShape(costly, shared, qs) && ListsFit(shared, qs) && k < |qs| && qs[k].ifaceName != "shared"
    ensures CostlyShape(costly - {CostlyChain(qs[k].ifaceName)}, shared, qs[..k] + qs[k + 1..])
  {
    var rest := qs[..k] + qs[k + 1..];
    CostlyChainInjective(qs[k].ifaceName, "shared");
    DroppedQuota(qs, k);
    UniqueChainsApart(rest, qs[k].ifaceName);
    hide CostlyChain, HasQuota;
  }

  /** The shared chain has its quota rule while somebody shares it; without anybody it fits exactly when no
      interface called "shared" has a quota of its own. */
  lemma CostlyReshare(costly: map<string, seq<Rule>>, shared: seq<string>, shared': seq<string>, qs: seq<QuotaInfo>)
    requires CostlyShape(costly, shared, qs)
    ensures CostlyShape(costly[SHARED := if shared' == [] then [PenaltyBox] else [Quota("shared"), PenaltyBox]],
                        shared', qs)
      <==> !(HasQuota(qs, "shared") && shared' == [])
    ensures (shared == [] <==> shared' == []) ==> CostlyShape(costly, shared', qs)
    ensures shared == [] ==> !HasQuota(qs, "shared")
  {
    forall i | 0 <= i < |qs| ensures CostlyChain(qs[i].ifaceName) == SHARED <==> qs[i].ifaceName == "shared" {
      CostlyChainInjective(qs[i].ifaceName, "shared");
    }
    hide CostlyChain;
  }

  class BandwidthController {
    var sharedQuotaIfaces: seq<string>
    var sharedQuotaBytes: int
    var quotaIfaces: seq<QuotaInfo>
    var globalAlertBytes: int
    var globalAlertTetherCount: int

    // the kernel
    var bwInput: seq<Rule>
    var bwOutput: seq<Rule>
    var bwForward: seq<Rule>
    var costly: map<string, seq<Rule>>

    ghost var jumps: seq<Rule>   // the jumps to costly chains, latest first

    // ------------------------------------------------------------------ invariants

    /** Alert first if set, then the jumps, then the two accounting rules. */
    ghost predicate ChainsOk()
      reads this`bwInput, this`bwOutput, this`jumps, this`globalAlertBytes
    {
      && bwInput == AlertPart(globalAlertBytes) + jumps + ACCOUNTING
      && bwOutput == AlertPart(globalAlertBytes) + jumps + ACCOUNTING
    }

    ghost predicate JumpsOk()
      reads this`jumps, this`sharedQuotaIfaces, this`quotaIfaces
    {
      JumpsMirror(jumps, sharedQuotaIfaces, quotaIfaces)
    }

    ghost predicate ListsOk()
      reads this`sharedQuotaIfaces, this`quotaIfaces, this`sharedQuotaBytes, this`globalAlertTetherCount
    {
      && ListsFit(sharedQuotaIfaces, quotaIfaces)
      && (sharedQuotaBytes != 0 <==> sharedQuotaIfaces != [])
      && globalAlertTetherCount >= 0
    }

    ghost predicate CostlyOk()
      reads this`costly, this`sharedQuotaIfaces, this`quotaIfaces
    {
      CostlyShape(costly, sharedQuotaIfaces, quotaIfaces)
    }

    /** The alert is in bw_FORWARD, once, iff it is set and something is tethered. */
    ghost predicate ForwardOk()
      reads this`bwForward, this`globalAlertBytes, this`globalAlertTetherCount
    {
      bwForward == if globalAlertBytes != 0 && globalAlertTetherCount >= 1 then [Alert] else []
    }

    ghost predicate Valid()
      reads this
    {
      ChainsOk() && JumpsOk() && ListsOk() && CostlyOk() && ForwardOk()
    }

    /** A controller before its first enable, over whatever the kernel holds. setupIptablesHooks
        has created costly_shared. */
    constructor (bwInput: seq<Rule>, bwOutput: seq<Rule>, bwForward: seq<Rule>, costly: map<string, seq<Rule>>)
      requires SHARED in costly
      ensures SHARED in this.costly
    {
      this.bwInput, this.bwOutput, this.bwForward, this.costly := bwInput, bwOutput, bwForward, costly;
      sharedQuotaIfaces, sharedQuotaBytes, quotaIfaces := [], 0, [];
      globalAlertBytes, globalAlertTetherCount, jumps := 0, 0, [];
    }

    /** enableBandwidthControl, when it is not switched off. Costly chains of single interfaces
        are not flushed. */
    method EnableBandwidthControl()
      requires SHARED in costly
      modifies this
      ensures Valid() && jumps == [] && sharedQuotaIfaces == [] && quotaIfaces == []
      ensures globalAlertBytes == 0 && globalAlertTetherCount == 0
      ensures costly == old(costly)[SHARED := [PenaltyBox]]
    {
      sharedQuotaIfaces, quotaIfaces := [], [];
      globalAlertBytes, globalAlertTetherCount, sharedQuotaBytes := 0, 0, 0;
      jumps := [];
      assert JumpsOk() && ListsOk();
      hide JumpsOk, ListsOk;
      FlushAndAccount();
    }

    /** IPT_FLUSH_COMMANDS, then IPT_BASIC_ACCOUNTING_COMMANDS. */
    method FlushAndAccount()
      requires SHARED in costly && jumps == [] && globalAlertBytes == 0
      requires sharedQuotaIfaces == [] && quotaIfaces == []
      modifies this`bwInput, this`bwOutput, this`bwForward, this`costly
      ensures ChainsOk() && CostlyOk() && ForwardOk()
      ensures costly == old(costly)[SHARED := [PenaltyBox]]
    {
      bwInput, bwOutput, bwForward := [], [], [];
      costly := costly[SHARED := []];
      bwInput := bwInput + [LoReturn] + [SocketExists];
      bwOutput := bwOutput + [LoReturn] + [SocketExists];
      costly := costly[SHARED := costly[SHARED] + [PenaltyBox]];
      assert costly[SHARED] == [PenaltyBox];
    }

    // --------------------------------------------------------- costly interfaces

    /** The part of prepCostlyIface and cleanupCostlyIface on bw_INPUT and bw_OUTPUT. */
    method AddJump(ifn: string, chain: string)
      requires ChainsOk()
      modifies this`bwInput, this`bwOutput, this`jumps
      ensures ChainsOk() && jumps == [Jump(ifn, chain)] + Delete(old(jumps), Jump(ifn, chain))
    {
      hide Delete, InsertAt;
      var r := Jump(ifn, chain);
      var pos := 1;
      if globalAlertBytes != 0 { pos := 2; }
      ghost var a := AlertPart(globalAlertBytes);
      DeleteJump(a, jumps, r);
      InsertJump(a, Delete(jumps, r), r);
      bwInput := Delete(bwInput, r);
      bwInput := InsertAt(bwInput, pos, r);
      bwOutput := Delete(bwOutput, r);
      bwOutput := InsertAt(bwOutput, pos, r);
      jumps := [r] + Delete(jumps, r);
    }

    method RemoveJump(ifn: string, chain: string)
      requires ChainsOk()
      modifies this`bwInput, this`bwOutput, this`jumps
      ensures ChainsOk() && jumps == Delete(old(jumps), Jump(ifn, chain))
    {
      hide Delete;
      var r := Jump(ifn, chain);
      DeleteJump(AlertPart(globalAlertBytes), jumps, r);
      bwInput := Delete(bwInput, r);
      bwOutput := Delete(bwOutput, r);
      jumps := Delete(jumps, r);
    }

    /** The chain of a single interface. Flushing fails if it does not exist, creating it fails
        if it does; exactly one of the two works, and the result is the same. */
    method PrepUniqueChain(ifn: string) returns (rc: int)
      modifies this`costly
      ensures rc == 0
      ensures costly == old(costly)[CostlyChain(ifn) := [PenaltyBox]]
    {
      var c := CostlyChain(ifn);
      var res1, res2 := c !in costly, c in costly;
      costly := costly[c := []];
      rc := if (res1 && res2) || (!res1 && !res2) then 1 else 0;
      costly := costly[c := costly[c] + [PenaltyBox]];
      assert costly[c] == [PenaltyBox];
    }

    // ---------------------------------------------------------------- shared quota

    /** The first shared interface brings the quota rule with it. */
    method AddShared(ifn: string, maxBytes: int)
      requires Valid() && ifn !in sharedQuotaIfaces && maxBytes != 0
      modifies this`bwInput, this`bwOutput, this`jumps, this`costly, this`sharedQuotaBytes, this`sharedQuotaIfaces
      ensures Valid() && sharedQuotaIfaces == [ifn] + old(sharedQuotaIfaces)
      ensures jumps == [Jump(ifn, SHARED)] + Delete(old(jumps), Jump(ifn, SHARED))
    {
      ShareOne(jumps, sharedQuotaIfaces, quotaIfaces, ifn);
      CostlyReshare(costly, sharedQuotaIfaces, [ifn] + sharedQuotaIfaces, quotaIfaces);
      assert sharedQuotaIfaces == [] ==> costly[SHARED] == [PenaltyBox];
      hide ChainsOk, ForwardOk, JumpsMirror, ListsFit, CostlyShape, Delete, HasQuota;
      AddJump(ifn, SHARED);
      if sharedQuotaIfaces == [] {
        assert InsertAt([PenaltyBox], 1, Quota("shared")) == [Quota("shared"), PenaltyBox];
        costly := costly[SHARED := InsertAt(costly[SHARED], 1, Quota("shared"))];
        sharedQuotaBytes := maxBytes;
      }
      sharedQuotaIfaces := [ifn] + sharedQuotaIfaces;
    }

    /** The last shared interface takes the quota rule with it. */
    method DropShared(ifn: string)
      requires Valid() && ifn in sharedQuotaIfaces
      modifies this`bwInput, this`bwOutput, this`jumps, this`costly, this`sharedQuotaBytes, this`sharedQuotaIfaces
      ensures sharedQuotaIfaces == Delete(old(sharedQuotaIfaces), ifn)
      ensures Valid() <==> !(HasQuota(quotaIfaces, "shared") && (ifn == "shared" || sharedQuotaIfaces == []))
      ensures sharedQuotaBytes == if sharedQuotaIfaces == [] then 0 else old(sharedQuotaBytes)
    {
      UnshareOne(jumps, sharedQuotaIfaces, quotaIfaces, ifn);
      CostlyReshare(costly, sharedQuotaIfaces, Delete(sharedQuotaIfaces, ifn), quotaIfaces);
      assert costly[SHARED] == [Quota("shared"), PenaltyBox];
      hide ChainsOk, ForwardOk, JumpsMirror, ListsFit, CostlyShape, Delete, HasQuota;
      RemoveJump(ifn, SHARED);
      sharedQuotaIfaces := Delete(sharedQuotaIfaces, ifn);
      if sharedQuotaIfaces == [] {
        SharedQuotaOut();
        costly := costly[SHARED := Delete(costly[SHARED], Quota("shared"))];
        sharedQuotaBytes := 0;
      }
    }

    /** removeInterfaceSharedQuota. */
    method RemoveInterfaceSharedQuota(ifn: string) returns (rc: int)
      requires Valid()
      modifies this`bwInput, this`bwOutput, this`jumps, this`costly, this`sharedQuotaBytes, this`sharedQuotaIfaces
      ensures rc == if |ifn| < MAX_IFACENAME_LEN && ifn in old(sharedQuotaIfaces) then 0 else -1
      ensures sharedQuotaIfaces == if rc == 0 then Delete(old(sharedQuotaIfaces), ifn) else old(sharedQuotaIfaces)
      ensures Valid() <==> !Breaks(old(Lists(sharedQuotaIfaces, quotaIfaces)), RemoveShared(ifn))
      ensures sharedQuotaBytes == if rc == 0 && sharedQuotaIfaces == [] then 0 else old(sharedQuotaBytes)
    {
      hide ChainsOk, JumpsOk, ListsOk, CostlyOk, ForwardOk, Delete, HasQuota;
      if |ifn| >= MAX_IFACENAME_LEN || ifn !in sharedQuotaIfaces { return -1; }
      DropShared(ifn);
      rc := 0;
    }

    /** setInterfaceSharedQuota: 0 is refused, -1 removes. */
    method SetInterfaceSharedQuota(ifn: string, maxBytes: int) returns (rc: int)
      requires Valid()
      modifies this`bwInput, this`bwOutput, this`jumps, this`costly, this`sharedQuotaBytes, this`sharedQuotaIfaces
      ensures Valid() <==> !Breaks(old(Lists(sharedQuotaIfaces, quotaIfaces)), SetShared(ifn, maxBytes))
      ensures rc == if maxBytes == 0 || |ifn| >= MAX_IFACENAME_LEN || (maxBytes == -1 && ifn !in old(sharedQuotaIfaces))
                    then -1 else 0
      ensures sharedQuotaIfaces ==
        if rc == -1 then old(sharedQuotaIfaces)
        else if maxBytes == -1 then Delete(old(sharedQuotaIfaces), ifn)
        else if ifn in old(sharedQuotaIfaces) then old(sharedQuotaIfaces) else [ifn] + old(sharedQuotaIfaces)
      ensures sharedQuotaBytes ==
        if rc == 0 && maxBytes != -1 then maxBytes
        else if rc == 0 && sharedQuotaIfaces == [] then 0 else old(sharedQuotaBytes)
      ensures rc == 0 && maxBytes != -1 && ifn !in old(sharedQuotaIfaces) ==>
        jumps == [Jump(ifn, SHARED)] + Delete(old(jumps), Jump(ifn, SHARED))
    {
      hide ChainsOk, JumpsOk, CostlyOk, ForwardOk, Delete, HasQuota;
      if maxBytes == 0 || |ifn| >= MAX_IFACENAME_LEN { return -1; }
      if maxBytes == -1 {
        rc := RemoveInterfaceSharedQuota(ifn);
        return;
      }
      if ifn !in sharedQuotaIfaces {
        AddShared(ifn, maxBytes);
      }
      if maxBytes != sharedQuotaBytes {
        sharedQuotaBytes := maxBytes;
      }
      rc := 0;
    }

    // ------------------------------------------------------------ quota per interface

    method FindQuota(ifn: string) returns (k: int)
      ensures k == IndexOf(quotaIfaces, ifn)
    {
      hide IndexOf;
      k := 0;
      while k < |quotaIfaces|
        invariant 0 <= k <= |quotaIfaces|
        invariant forall j :: 0 <= j < k ==> quotaIfaces[j].ifaceName != ifn
      {
        if quotaIfaces[k].ifaceName == ifn { return; }
        k := k + 1;
      }
      k := -1;
    }

    /** What a new quota does to the chains, in shape or not. */
    ghost predicate QuotaAdded(jumps0: seq<Rule>, costly0: map<string, seq<Rule>>, ifn: string)
      reads this`bwInput, this`bwOutput, this`jumps, this`globalAlertBytes, this`costly
    {
      var r := Jump(ifn, CostlyChain(ifn));
      && ChainsOk() && jumps == [r] + Delete(jumps0, r)
      && costly == costly0[CostlyChain(ifn) := [Quota(ifn), PenaltyBox]]
    }

    /** What taking a quota away does: a chain that is still jumped to is flushed but cannot be removed. */
    ghost predicate QuotaDropped(jumps0: seq<Rule>, costly0: map<string, seq<Rule>>, ifn: string)
      reads this`bwInput, this`bwOutput, this`jumps, this`globalAlertBytes, this`costly
    {
      var c := CostlyChain(ifn);
      && ChainsOk() && jumps == Delete(jumps0, Jump(ifn, c))
      && costly == if c in costly0 && LeadsTo(jumps, c) then costly0[c := []] else costly0 - {c}
    }

    /** A new interface with a quota of its own, in front of the list. One called "shared" gets the shared
        chain, and that is right exactly when somebody shares it. */
    method AddUnique(ifn: string, maxBytes: int)
      requires ChainsOk() && !HasQuota(quotaIfaces, ifn)
      modifies this`bwInput, this`bwOutput, this`jumps, this`costly, this`quotaIfaces
      ensures quotaIfaces == [QuotaInfo(ifn, maxBytes)] + old(quotaIfaces)
      ensures QuotaAdded(old(jumps), old(costly), ifn)
      ensures old(Valid()) ==> (Valid() <==> ifn != "shared" || sharedQuotaIfaces != [])
    {
      var c, q := CostlyChain(ifn), QuotaInfo(ifn, maxBytes);
      if Valid() {
        QuotaOne(jumps, sharedQuotaIfaces, quotaIfaces, q);
        CostlyQuotaOne(costly, sharedQuotaIfaces, quotaIfaces, q);
      }
      hide ChainsOk, ForwardOk, JumpsMirror, ListsFit, CostlyShape, Delete, HasQuota, CostlyChain;
      var r := PrepUniqueChain(ifn);
      AddJump(ifn, c);
      assert InsertAt([PenaltyBox], 1, Quota(ifn)) == [Quota(ifn), PenaltyBox];
      costly := costly[c := InsertAt(costly[c], 1, Quota(ifn))];
      assert costly == old(costly)[c := [Quota(ifn), PenaltyBox]];
      quotaIfaces := [q] + quotaIfaces;
    }

    /** cleanupCostlyIface for a single interface. */
    method DropChain(ifn: string) returns (rc: int)
      requires ChainsOk()
      modifies this`bwInput, this`bwOutput, this`jumps, this`costly
      ensures QuotaDropped(old(jumps), old(costly), ifn)
      ensures rc == 0 || rc == 1
      ensures var c := CostlyChain(ifn);
        rc == 0 <==> Jump(ifn, c) in old(jumps) && c in old(costly) && !LeadsTo(jumps, c)
    {
      var c := CostlyChain(ifn);
      hide Delete, CostlyChain;
      JumpThrough(AlertPart(globalAlertBytes), jumps, Jump(ifn, c));
      var jumped := Jump(ifn, c) in bwInput;
      RemoveJump(ifn, c);
      LeadsThrough(AlertPart(globalAlertBytes), jumps, c);
      var led, was := LeadsTo(bwInput, c), c in costly;
      hide ChainsOk, LeadsTo;
      rc := if !jumped || !was || led then 1 else 0;
      if was { costly := costly[c := []]; }
      if was && !led { costly := costly - {c}; }
      assert !(was && led) ==> costly == old(costly) - {c};
    }

    /** Taking an interface off the list with its jump and its chain. For the name "shared" that is the shared
        chain. */
    method DropUnique(k: nat) returns (rc: int)
      requires ChainsOk() && k < |quotaIfaces|
      modifies this`bwInput, this`bwOutput, this`jumps, this`costly, this`quotaIfaces
      ensures quotaIfaces == old(quotaIfaces)[..k] + old(quotaIfaces)[k + 1..]
      ensures QuotaDropped(old(jumps), old(costly), old(quotaIfaces)[k].ifaceName)
      ensures rc == 0 || rc == 1
      ensures old(Valid()) ==>
        ListsOk() && (Valid() <==> old(quotaIfaces)[k].ifaceName != "shared") && (Valid() ==> rc == 0)
    {
      var ifn := quotaIfaces[k].ifaceName;
      if Valid() {
        UnquotaOne(jumps, sharedQuotaIfaces, quotaIfaces, k);
        assert CostlyChain(ifn) in costly;
        if ifn != "shared" { CostlyUnquotaOne(costly, sharedQuotaIfaces, quotaIfaces, k); }
      }
      CostlyChainInjective(ifn, "shared");
      hide ForwardOk, JumpsMirror, ListsFit, Delete, HasQuota, CostlyChain, LeadsTo, ChainsOk;
      rc := DropChain(ifn);
      quotaIfaces := quotaIfaces[..k] + quotaIfaces[k + 1..];
    }

    /** setInterfaceQuota: 0 is refused, -1 removes, a tracked interface only gets a new value. */
    method SetInterfaceQuota(ifn: string, maxBytes: int) returns (rc: int)
      requires ChainsOk()
      modifies this`bwInput, this`bwOutput, this`jumps, this`costly, this`quotaIfaces
      ensures old(Valid()) ==>
        (Valid() <==> !Breaks(old(Lists(sharedQuotaIfaces, quotaIfaces)), SetQuota(ifn, maxBytes)))
      ensures rc == -1 <==>
        maxBytes == 0 || |ifn| >= MAX_IFACENAME_LEN || (maxBytes == -1 && !HasQuota(old(quotaIfaces), ifn))
      ensures old(Valid()) && rc != 0 && rc != -1 ==> !Valid()
      ensures maxBytes != -1 ==> rc == 0 || rc == -1
      ensures quotaIfaces ==
        if rc == -1 then old(quotaIfaces)
        else if maxBytes == -1 then QuotaRemoved(old(quotaIfaces), ifn)
        else QuotaSet(old(quotaIfaces), ifn, maxBytes)
      ensures rc == 0 && maxBytes != -1 && !HasQuota(old(quotaIfaces), ifn) ==> QuotaAdded(old(jumps), old(costly), ifn)
    {
      hide IndexOf, ChainsOk, JumpsOk, CostlyOk, ForwardOk, ListsOk, HasQuota, QuotaAdded, QuotaDropped;
      if maxBytes == 0 { return -1; }
      if maxBytes == -1 {
        rc := RemoveInterfaceQuota(ifn);
        return;
      }
      if |ifn| >= MAX_IFACENAME_LEN { return -1; }
      var k := FindQuota(ifn);
      if k == -1 {
        AddUnique(ifn, maxBytes);
      } else {
        Revalue(k, maxBytes);
      }
      rc := 0;
    }

    method Revalue(k: nat, maxBytes: int)
      requires k < |quotaIfaces|
      modifies this`quotaIfaces
      ensures quotaIfaces == old(quotaIfaces)[k := old(quotaIfaces)[k].(quota := maxBytes)]
      ensures old(Valid()) ==> Valid()
    {
      hide ChainsOk, ForwardOk;
      SameNames(quotaIfaces, k, maxBytes);
      quotaIfaces := quotaIfaces[k := quotaIfaces[k].(quota := maxBytes)];
    }

    /** removeInterfaceQuota. */
    method RemoveInterfaceQuota(ifn: string) returns (rc: int)
      requires ChainsOk()
      modifies this`bwInput, this`bwOutput, this`jumps, this`costly, this`quotaIfaces
      ensures rc == -1 <==> |ifn| >= MAX_IFACENAME_LEN || !HasQuota(old(quotaIfaces), ifn)
      ensures quotaIfaces == if rc == -1 then old(quotaIfaces) else QuotaRemoved(old(quotaIfaces), ifn)
      ensures rc != -1 ==> QuotaDropped(old(jumps), old(costly), ifn)
      ensures old(Valid()) ==>
        && ListsOk() && (rc != 0 && rc != -1 ==> !Valid())
        && (Valid() <==> !Breaks(old(Lists(sharedQuotaIfaces, quotaIfaces)), RemoveQuota(ifn)))
    {
      hide IndexOf, ChainsOk, JumpsOk, CostlyOk, ForwardOk, HasQuota, QuotaDropped;
      if |ifn| >= MAX_IFACENAME_LEN { return -1; }
      var k := FindQuota(ifn);
      if k == -1 { return -1; }
      rc := DropUnique(k);
    }

    // --------------------------------------------------------------- the global alert

    /** setGlobalAlert. */
    method SetGlobalAlert(bytes: int) returns (rc: int)
      requires Valid()
      modifies this`bwInput, this`bwOutput, this`bwForward, this`globalAlertBytes
      ensures Valid()
      ensures rc == if bytes == 0 then -1 else 0
      ensures globalAlertBytes == if bytes == 0 then old(globalAlertBytes) else bytes
    {
      assert globalAlertTetherCount >= 0;
      hide JumpsOk, CostlyOk, ListsOk;
      if bytes == 0 { return -1; }
      if globalAlertBytes == 0 {
        AlertIn(jumps);
        bwInput := InsertAt(bwInput, 1, Alert);
        bwOutput := InsertAt(bwOutput, 1, Alert);
        if globalAlertTetherCount != 0 {
          bwForward := InsertAt(bwForward, 1, Alert);
        }
      }
      globalAlertBytes := bytes;
      rc := 0;
    }

    /** removeGlobalAlert. */
    method RemoveGlobalAlert() returns (rc: int)
      requires Valid()
      modifies this`bwInput, this`bwOutput, this`bwForward, this`globalAlertBytes
      ensures Valid() && globalAlertBytes == 0
      ensures rc == if old(globalAlertBytes) == 0 then -1 else 0
    {
      assert globalAlertTetherCount >= 0;
      hide JumpsOk, CostlyOk, ListsOk;
      if globalAlertBytes == 0 { return -1; }
      AlertOut(jumps);
      bwInput := Delete(bwInput, Alert);
      bwOutput := Delete(bwOutput, Alert);
      if globalAlertTetherCount != 0 {
        bwForward := Delete(bwForward, Alert);
      }
      globalAlertBytes := 0;
      rc := 0;
    }

    /** setGlobalAlertInForwardChain: one more tether. */
    method AddTether()
      requires Valid()
      modifies this`bwForward, this`globalAlertTetherCount
      ensures Valid() && globalAlertTetherCount == old(globalAlertTetherCount) + 1
    {
      hide ChainsOk, JumpsOk, CostlyOk;
      globalAlertTetherCount := globalAlertTetherCount + 1;
      if globalAlertBytes == 0 || globalAlertTetherCount != 1 { return; }
      bwForward := InsertAt(bwForward, 1, Alert);
    }

    /** removeGlobalAlertInForwardChain: one tether less. */
    method RemoveTether() returns (rc: int)
      requires Valid()
      modifies this`bwForward, this`globalAlertTetherCount
      ensures Valid()
      ensures rc == if old(globalAlertTetherCount) == 0 then -1 else 0
      ensures globalAlertTetherCount == old(globalAlertTetherCount) - if rc == 0 then 1 else 0
    {
      hide ChainsOk, JumpsOk, CostlyOk;
      if globalAlertTetherCount == 0 { return -1; }
      globalAlertTetherCount := globalAlertTetherCount - 1;
      rc := 0;
      if globalAlertBytes == 0 || globalAlertTetherCount >= 1 { return; }
      bwForward := Delete(bwForward, Alert);
    }

    // ----------------------------------------------------------------- every run

    /** One command. */
    method Execute(c: Cmd)
      requires Valid()
      modifies this
      ensures Lists(sharedQuotaIfaces, quotaIfaces) == ListStep(old(Lists(sharedQuotaIfaces, quotaIfaces)), c)
      ensures Valid() <==> !Breaks(old(Lists(sharedQuotaIfaces, quotaIfaces)), c)
      ensures globalAlertBytes == AlertStep(old(globalAlertBytes), c)
      ensures globalAlertTetherCount == TetherStep(old(globalAlertTetherCount), c)
    {
      hide ChainsOk, JumpsOk, CostlyOk, ForwardOk, ListsOk, Delete, HasQuota, IndexOf;
      var rc;
      match c {
      case SetShared(ifn, bytes) => rc := SetInterfaceSharedQuota(ifn, bytes);
      case RemoveShared(ifn) => rc := RemoveInterfaceSharedQuota(ifn);
      case SetQuota(ifn, bytes) => rc := SetInterfaceQuota(ifn, bytes);
      case RemoveQuota(ifn) => rc := RemoveInterfaceQuota(ifn);
      case SetAlert(bytes) => rc := SetGlobalAlert(bytes);
      case RemoveAlert => rc := RemoveGlobalAlert();
      case TetherOn => AddTether();
      case TetherOff => rc := RemoveTether();
      }
    }

    /** Commands after an enable, up to the first one after which lists, alert and kernel are out of step: they are in
        step after every command so far exactly when none of them breaks, and the lists alone say which one does. */
    method Run(cmds: seq<Cmd>) returns (done: nat)
      requires SHARED in costly
      modifies this
      ensures done <= |cmds| && Lists(sharedQuotaIfaces, quotaIfaces) == ListRun(Lists([], []), cmds[..done])
      ensures globalAlertBytes == AlertAfter(cmds[..done]) && globalAlertTetherCount == TethersAfter(cmds[..done])
      ensures Valid() ==> done == |cmds|
      ensures Valid() <==> Unbroken(Lists([], []), cmds)
      ensures !Valid() ==>
        && 0 < done && Unbroken(Lists([], []), cmds[..done - 1])
        && Breaks(ListRun(Lists([], []), cmds[..done - 1]), cmds[done - 1])
    {
      EnableBandwidthControl();
      hide *;
      done := 0;
      RunStart(cmds);
      AlertMore(cmds, 0);
      while done < |cmds|
        invariant 0 <= done <= |cmds| && Valid()
        invariant InStep(Lists(sharedQuotaIfaces, quotaIfaces), cmds, done)
        invariant globalAlertBytes == AlertAfter(cmds[..done]) && globalAlertTetherCount == TethersAfter(cmds[..done])
      {
        var l := Lists(sharedQuotaIfaces, quotaIfaces);
        RunStep(l, cmds, done);
        AlertMore(cmds, done);
        Execute(cmds[done]);
        done := done + 1;
        if Breaks(l, cmds[done - 1]) { return; }
      }
      RunEnd(Lists(sharedQuotaIfaces, quotaIfaces), cmds);
    }
  }

  // ------------------------------------------------- what a run does to the alert and the tethers

  function AlertStep(bytes: int, c: Cmd): int {
    match c
    case SetAlert(b) => if b == 0 then bytes else b
    case RemoveAlert => 0
    case _ => bytes
  }

  function TetherStep(n: int, c: Cmd): int {
    match c
    case TetherOn => n + 1
    case TetherOff => if n == 0 then 0 else n - 1
    case _ => n
  }

  function AlertAfter(cs: seq<Cmd>): int {
    if cs == [] then 0 else AlertStep(AlertAfter(cs[..|cs| - 1]), cs[|cs| - 1])
  }

  function TethersAfter(cs: seq<Cmd>): (r: int)
    ensures r >= 0
  {
    if cs == [] then 0 else TetherStep(TethersAfter(cs[..|cs| - 1]), cs[|cs| - 1])
  }

  /** The commands that change the alert. */
  predicate SetsAlert(c: Cmd) { c.RemoveAlert? || (c.SetAlert? && c.bytes != 0) }

  /** The alert is what the last command that changes it says. */
  lemma {:induction false} LastAlertHolds(cs: seq<Cmd>, i: nat)
    requires i < |cs| && SetsAlert(cs[i]) && forall j :: i < j < |cs| ==> !SetsAlert(cs[j])
    ensures AlertAfter(cs) == if cs[i].RemoveAlert? then 0 else cs[i].bytes
    decreases |cs|
  {
    if i < |cs| - 1 { LastAlertHolds(cs[..|cs| - 1], i); }
  }

  function Ons(cs: seq<Cmd>): nat {
    if cs == [] then 0 else Ons(cs[..|cs| - 1]) + (if cs[|cs| - 1].TetherOn? then 1 else 0)
  }

  function Offs(cs: seq<Cmd>): nat {
    if cs == [] then 0 else Offs(cs[..|cs| - 1]) + (if cs[|cs| - 1].TetherOff? then 1 else 0)
  }

  /** As long as no tether is taken away that is not there, those left are the ones added less the ones removed. */
  lemma {:induction false} TethersCounted(cs: seq<Cmd>)
    requires forall i :: 0 <= i <= |cs| ==> Offs(cs[..i]) <= Ons(cs[..i])
    ensures TethersAfter(cs) == Ons(cs) - Offs(cs)
    decreases |cs|
  {
    if cs != [] {
      var front := cs[..|cs| - 1];
      forall i | 0 <= i <= |front| ensures Offs(front[..i]) <= Ons(front[..i]) {
        assert front[..i] == cs[..i];
      }
      TethersCounted(front);
      assert cs[..|cs|] == cs;
    }
  }

  lemma AlertMore(cs: seq<Cmd>, i: nat)
    requires i <= |cs|
    ensures i == 0 ==> AlertAfter(cs[..i]) == 0 && TethersAfter(cs[..i]) == 0
    ensures i < |cs| ==>
      && AlertAfter(cs[..i + 1]) == AlertStep(AlertAfter(cs[..i]), cs[i])
      && TethersAfter(cs[..i + 1]) == TetherStep(TethersAfter(cs[..i]), cs[i])
  {
    if i < |cs| { assert cs[..i + 1][..i] == cs[..i]; }
  }

  // ------------------------------------------------------------ what a run does to the lists

  datatype Lists = Lists(shared: seq<string>, qs: seq<QuotaInfo>)

  /** The lists after a command. */
  function ListStep(l: Lists, c: Cmd): Lists {
    match c
    case SetShared(ifn, bytes) =>
      if bytes == 0 || |ifn| >= MAX_IFACENAME_LEN then l
      else if bytes == -1 then l.(shared := Delete(l.shared, ifn))
      else if ifn in l.shared then l else l.(shared := [ifn] + l.shared)
    case RemoveShared(ifn) => if |ifn| >= MAX_IFACENAME_LEN then l else l.(shared := Delete(l.shared, ifn))
    case SetQuota(ifn, bytes) =>
      if bytes == 0 || |ifn| >= MAX_IFACENAME_LEN then l
      else if bytes == -1 then l.(qs := QuotaRemoved(l.qs, ifn)) else l.(qs := QuotaSet(l.qs, ifn, bytes))
    case RemoveQuota(ifn) => if |ifn| >= MAX_IFACENAME_LEN then l else l.(qs := QuotaRemoved(l.qs, ifn))
    case _ => l
  }

  /** What a command changes: who shares, or the quota of one interface. A quota of -1 bytes is none, one of 0 bytes or
      for a name that is too long is refused. */
  lemma ListStepMeans(l: Lists, ifn: string, bytes: int, n: string)
    requires ListsFit(l.shared, l.qs)
    ensures var r := ListStep(l, SetShared(ifn, bytes));
      && r.qs == l.qs
      && (n in r.shared <==>
            if n != ifn || bytes == 0 || |ifn| >= MAX_IFACENAME_LEN then n in l.shared else bytes != -1)
    ensures var r := ListStep(l, SetQuota(ifn, bytes));
      && r.shared == l.shared
      && QuotaOf(r.qs, n) == if n != ifn || bytes == 0 || |ifn| >= MAX_IFACENAME_LEN then QuotaOf(l.qs, n)
                             else if bytes == -1 then None else Some(bytes)
    ensures |ifn| < MAX_IFACENAME_LEN ==>
      && ListStep(l, RemoveShared(ifn)) == ListStep(l, SetShared(ifn, -1))
      && ListStep(l, RemoveQuota(ifn)) == ListStep(l, SetQuota(ifn, -1))
  {
    DeleteDistinct(l.shared, ifn);
    QuotaSetOnly(l.qs, ifn, bytes, n);
    QuotaRemovedOnly(l.qs, ifn, n);
    hide QuotaOf, QuotaSet, QuotaRemoved, Delete;
  }

  function ListRun(l: Lists, cs: seq<Cmd>): Lists {
    if cs == [] then l else ListStep(ListRun(l, cs[..|cs| - 1]), cs[|cs| - 1])
  }

  /** A command that breaks the chains: all of them need an interface called "shared" with a quota of its own,
      which then owns the shared chain. Setting that quota breaks them while nobody shares, removing it always,
      and so does taking "shared" or the last interface off the shared list. */
  predicate Breaks(l: Lists, c: Cmd) {
    match c
    case SetShared(ifn, bytes) => bytes == -1 && BreaksUnshare(l, ifn)
    case RemoveShared(ifn) => BreaksUnshare(l, ifn)
    case SetQuota(ifn, bytes) =>
      ifn == "shared" && bytes != 0
      && (if bytes == -1 then HasQuota(l.qs, "shared") else !HasQuota(l.qs, "shared") && l.shared == [])
    case RemoveQuota(ifn) => ifn == "shared" && HasQuota(l.qs, "shared")
    case _ => false
  }

  predicate BreaksUnshare(l: Lists, ifn: string) {
    && |ifn| < MAX_IFACENAME_LEN && ifn in l.shared && HasQuota(l.qs, "shared")
    && (ifn == "shared" || Delete(l.shared, ifn) == [])
  }

  predicate Unbroken(l: Lists, cs: seq<Cmd>)
    decreases |cs|
  {
    cs == [] || (!Breaks(l, cs[0]) && Unbroken(ListStep(l, cs[0]), cs[1..]))
  }

  lemma {:induction false} UnbrokenSnoc(l: Lists, cs: seq<Cmd>, c: Cmd)
    requires Unbroken(l, cs) && !Breaks(ListRun(l, cs), c)
    ensures Unbroken(l, cs + [c])
    decreases |cs|
  {
    hide Breaks, ListStep;
    if cs == [] {
      assert cs + [c] == [c] && [c][1..] == [];
    } else {
      ListRunCons(l, cs);
      UnbrokenSnoc(ListStep(l, cs[0]), cs[1..], c);
      assert (cs + [c])[1..] == cs[1..] + [c];
    }
  }

  lemma {:induction false} ListRunCons(l: Lists, cs: seq<Cmd>)
    requires cs != []
    ensures ListRun(l, cs) == ListRun(ListStep(l, cs[0]), cs[1..])
    decreases |cs|
  {
    hide ListStep;
    if |cs| == 1 {
      assert cs[..0] == [] && cs[1..] == [];
    } else {
      ListRunCons(l, cs[..|cs| - 1]);
      assert cs[..|cs| - 1][1..] == cs[1..][..|cs| - 2];
    }
  }

  /** After `i` commands none has broken anything, the lists are `l`, and the rest decides. */
  predicate InStep(l: Lists, cs: seq<Cmd>, i: nat)
    requires i <= |cs|
  {
    && l == ListRun(Lists([], []), cs[..i]) && Unbroken(Lists([], []), cs[..i])
    && (Unbroken(Lists([], []), cs) <==> Unbroken(l, cs[i..]))
  }

  lemma RunStart(cs: seq<Cmd>)
    ensures InStep(Lists([], []), cs, 0)
  {
    assert cs[..0] == [] && cs[0..] == cs;
  }

  lemma RunStep(l: Lists, cs: seq<Cmd>, i: nat)
    requires i < |cs| && InStep(l, cs, i)
    ensures ListRun(Lists([], []), cs[..i + 1]) == ListStep(l, cs[i])
    ensures !Breaks(l, cs[i]) ==> InStep(ListStep(l, cs[i]), cs, i + 1)
    ensures Breaks(l, cs[i]) ==>
      && !Unbroken(Lists([], []), cs) && Unbroken(Lists([], []), cs[..i])
      && Breaks(ListRun(Lists([], []), cs[..i]), cs[i])
  {
    hide ListStep, Breaks;
    assert cs[..i + 1] == cs[..i] + [cs[i]];
    assert cs[..i + 1][..i] == cs[..i];
    assert cs[i..][1..] == cs[i + 1..];
    hide ListRun;
    if !Breaks(l, cs[i]) { UnbrokenSnoc(Lists([], []), cs[..i], cs[i]); }
  }

  lemma RunEnd(l: Lists, cs: seq<Cmd>)
    requires InStep(l, cs, |cs|)
    ensures Unbroken(Lists([], []), cs) && l == ListRun(Lists([], []), cs[..|cs|])
  {
  }

  /** No command of a run that sets no quota for an interface called "shared" breaks anything. */
  lemma {:induction false} OtherNamesUnbroken(l: Lists, cs: seq<Cmd>)
    requires !HasQuota(l.qs, "shared") && forall c :: c in cs ==> c.SetQuota? ==> c.ifn != "shared"
    ensures Unbroken(l, cs)
    decreases |cs|
  {
    if cs != [] {
      OtherNamesKept(l, cs[0]);
      OtherNamesUnbroken(ListStep(l, cs[0]), cs[1..]);
    }
  }

  lemma OtherNamesKept(l: Lists, c: Cmd)
    requires !HasQuota(l.qs, "shared") && (c.SetQuota? ==> c.ifn != "shared")
    ensures !HasQuota(ListStep(l, c).qs, "shared")
  {
  }

  /** The name is exactly what decides: a quota for an interface can be set in every state of the lists, and
      then removed again, without breaking anything if and only if it is not called "shared". */
  lemma QuotaNameExactly(ifn: string, bytes: int)
    requires |ifn| < MAX_IFACENAME_LEN && bytes != 0 && bytes != -1
    ensures (forall l: Lists :: !HasQuota(l.qs, "shared") ==> Unbroken(l, [SetQuota(ifn, bytes), RemoveQuota(ifn)]))
      <==> ifn != "shared"
    ensures ifn == "shared" ==>
      forall l: Lists :: !HasQuota(l.qs, "shared") ==> !Unbroken(l, [SetQuota(ifn, bytes), RemoveQuota(ifn)])
  {
    var cs := [SetQuota(ifn, bytes), RemoveQuota(ifn)];
    forall l: Lists | !HasQuota(l.qs, "shared") ensures Unbroken(l, cs) <==> ifn != "shared" {
      if ifn != "shared" { OtherNamesUnbroken(l, cs); } else { NamesakeBreaks(l, bytes); }
    }
    assert !HasQuota(Lists([], []).qs, "shared");
  }

  lemma NamesakeBreaks(l: Lists, bytes: int)
    requires bytes != 0 && bytes != -1 && !HasQuota(l.qs, "shared")
    ensures !Unbroken(l, [SetQuota("shared", bytes), RemoveQuota("shared")])
  {
    var cs := [SetQuota("shared", bytes), RemoveQuota("shared")];
    var l' := ListStep(l, cs[0]);
    AddedQuota(l.qs, QuotaInfo("shared", bytes));
    assert HasQuota(l'.qs, "shared");
    assert Breaks(l', cs[1]);
    assert cs[1..][0] == cs[1];
  }

  /** The failing run when nobody shares: the shared chain gets a quota rule all the same. */
  method NamesakeAlone(c: BandwidthController, bytes: int)
    requires SHARED in c.costly && bytes != 0 && bytes != -1
    modifies c
    ensures !c.Valid() && c.sharedQuotaIfaces == []
    ensures SHARED in c.costly && c.costly[SHARED] == [Quota("shared"), PenaltyBox]
  {
    c.EnableBandwidthControl();
    OneNamesake(bytes);
    CostlyChainInjective("shared", "shared");
    hide BandwidthController.Valid, BandwidthController.ChainsOk, HasQuota, QuotaSet, CostlyChain;
    var rc := c.SetInterfaceQuota("shared", bytes);
  }

  /** The failing run when somebody shares: setting a quota for "shared" is harmless, but when it is removed
      again the chain of those who share is flushed, and with it their quota. It is removed, too, if the one who shares
      is itself called "shared". */
  method NamesakeSharing(c: BandwidthController, ifn: string, bytes: int)
    requires SHARED in c.costly && bytes != 0 && bytes != -1 && |ifn| < MAX_IFACENAME_LEN
    modifies c
    ensures !c.Valid() && c.ChainsOk() && c.ListsOk() && c.ForwardOk()
    ensures c.sharedQuotaIfaces == [ifn] && c.quotaIfaces == []
    ensures c.jumps == if ifn == "shared" then [] else [Jump(ifn, SHARED)]
    ensures SHARED in c.costly <==> ifn != "shared"
    ensures ifn != "shared" ==> c.costly[SHARED] == []
  {
    SharedNamesake(c, ifn, bytes);
    assert c.ForwardOk();
    hide *;
    SharingBreaks(ifn, bytes);
    OneNamesake(bytes);
    ghost var costly0 := c.costly;
    var rc := c.RemoveInterfaceQuota("shared");
    SharingDropped(c, costly0, ifn);
  }

  lemma SharingDropped(c: BandwidthController, costly0: map<string, seq<Rule>>, ifn: string)
    requires c.QuotaDropped(NamesakeJumps(ifn), costly0, "shared") && SHARED in costly0
    ensures c.ChainsOk() && c.jumps == if ifn == "shared" then [] else [Jump(ifn, SHARED)]
    ensures SHARED in c.costly <==> ifn != "shared"
    ensures ifn != "shared" ==> c.costly[SHARED] == []
  {
    SharingJumps(ifn);
    CostlyChainInjective("shared", "shared");
    hide BandwidthController.ChainsOk, CostlyChain, Delete, LeadsTo, NamesakeJumps;
  }

  /** Sharing begins. */
  method FirstShares(c: BandwidthController, ifn: string, bytes: int)
    requires SHARED in c.costly && bytes != 0 && bytes != -1 && |ifn| < MAX_IFACENAME_LEN
    modifies c
    ensures c.Valid() && c.sharedQuotaIfaces == [ifn] && c.quotaIfaces == []
    ensures c.jumps == [Jump(ifn, SHARED)] + Delete([], Jump(ifn, SHARED))
  {
    c.EnableBandwidthControl();
    SharingBreaks(ifn, bytes);
    hide *;
    var rc := c.SetInterfaceSharedQuota(ifn, bytes);
  }

  /** A quota for "shared" while another shares. */
  method SharedNamesake(c: BandwidthController, ifn: string, bytes: int)
    requires SHARED in c.costly && bytes != 0 && bytes != -1 && |ifn| < MAX_IFACENAME_LEN
    modifies c
    ensures c.Valid() && SHARED in c.costly
    ensures c.sharedQuotaIfaces == [ifn] && c.quotaIfaces == [QuotaInfo("shared", bytes)]
    ensures c.jumps == NamesakeJumps(ifn)
  {
    FirstShares(c, ifn, bytes);
    SharingBreaks(ifn, bytes);
    OneNamesake(bytes);
    CostlyChainInjective("shared", "shared");
    hide BandwidthController.JumpsOk, BandwidthController.CostlyOk, BandwidthController.ChainsOk;
    hide BandwidthController.ForwardOk, BandwidthController.ListsOk;
    hide HasQuota, QuotaSet, Breaks, CostlyChain, Delete;
    var rc := c.SetInterfaceQuota("shared", bytes);
  }

  function NamesakeJumps(ifn: string): seq<Rule> {
    [Jump("shared", SHARED)] + Delete([Jump(ifn, SHARED)] + Delete([], Jump(ifn, SHARED)), Jump("shared", SHARED))
  }

  lemma SharingJumps(ifn: string)
    ensures var left := Delete(NamesakeJumps(ifn), Jump("shared", SHARED));
      && left == (if ifn == "shared" then [] else [Jump(ifn, SHARED)])
      && (LeadsTo(left, SHARED) <==> ifn != "shared")
  {
    var r := Jump(ifn, SHARED);
    var e: seq<Rule> := [];
    assert [r] + Delete(e, r) == [r];
    assert ifn != "shared" ==> Delete([r], Jump("shared", SHARED)) == [r];
    assert ifn == "shared" ==> Delete([r], Jump("shared", SHARED)) == [];
    assert [r][0].Jump? && [r][0].chain == SHARED;
  }

  /** Out of step is not out of step for good: when the quota for "shared" is set again after that, everything fits. */
  method NamesakeAgain(c: BandwidthController, ifn: string, bytes: int)
    requires SHARED in c.costly && bytes != 0 && bytes != -1 && |ifn| < MAX_IFACENAME_LEN
    modifies c
    ensures c.Valid() && c.sharedQuotaIfaces == [ifn] && c.quotaIfaces == [QuotaInfo("shared", bytes)]
  {
    assert |"shared"| < MAX_IFACENAME_LEN;
    NamesakeSharing(c, ifn, bytes);
    assert c.sharedQuotaBytes != 0 && c.globalAlertTetherCount >= 0;
    hide *;
    OneNamesake(bytes);
    ghost var jumps0, costly0 := c.jumps, c.costly;
    var rc := c.SetInterfaceQuota("shared", bytes);
    AgainFits(c, jumps0, costly0, ifn, bytes);
  }

  lemma AgainFits(c: BandwidthController, jumps0: seq<Rule>, costly0: map<string, seq<Rule>>, ifn: string, bytes: int)
    requires c.QuotaAdded(jumps0, costly0, "shared") && c.ForwardOk()
    requires c.sharedQuotaBytes != 0 && c.globalAlertTetherCount >= 0
    requires c.sharedQuotaIfaces == [ifn] && c.quotaIfaces == [QuotaInfo("shared", bytes)]
    requires jumps0 == if ifn == "shared" then [] else [Jump(ifn, SHARED)]
    ensures c.Valid()
  {
    AgainMirrors(ifn, bytes);
    CostlyChainInjective("shared", "shared");
    AgainShaped(costly0, ifn, bytes);
    hide BandwidthController.ChainsOk, BandwidthController.ForwardOk, CostlyShape, ListsFit;
    hide JumpsMirror, CostlyChain, Delete;
    assert c.jumps == [Jump("shared", SHARED)] + Delete(jumps0, Jump("shared", SHARED));
    assert c.JumpsOk();
  }

  lemma AgainShaped(costly: map<string, seq<Rule>>, ifn: string, bytes: int)
    ensures CostlyShape(costly[SHARED := [Quota("shared"), PenaltyBox]], [ifn], [QuotaInfo("shared", bytes)])
    ensures ListsFit([ifn], [QuotaInfo("shared", bytes)])
  {
    CostlyChainInjective("shared", "shared");
  }

  lemma AgainMirrors(ifn: string, bytes: int)
    ensures var r := Jump("shared", SHARED);
      JumpsMirror([r] + Delete(if ifn == "shared" then [] else [Jump(ifn, SHARED)], r), [ifn],
                  [QuotaInfo("shared", bytes)])
    ensures QuotaSet([], "shared", bytes) == [QuotaInfo("shared", bytes)]
  {
    var r, qs := Jump("shared", SHARED), [QuotaInfo("shared", bytes)];
    var was := if ifn == "shared" then [] else [Jump(ifn, SHARED)];
    assert Delete(was, r) == was;
    AddedQuota([], QuotaInfo("shared", bytes));
    assert [QuotaInfo("shared", bytes)] + [] == qs;
    CostlyChainInjective("shared", "shared");
    forall x: Rule ensures x in [r] + was <==> Tracked(x, [ifn], qs) {
      if x.Jump? { CostlyChainInjective(x.iface, "shared"); }
    }
  }

  lemma SharingBreaks(ifn: string, bytes: int)
    requires bytes != 0 && bytes != -1
    ensures !Breaks(Lists([], []), SetShared(ifn, bytes))
    ensures !Breaks(Lists([ifn], []), SetQuota("shared", bytes))
    ensures Breaks(Lists([ifn], [QuotaInfo("shared", bytes)]), RemoveQuota("shared"))
  {
    OneNamesake(bytes);
  }

  lemma OneNamesake(bytes: int)
    ensures !HasQuota([], "shared") && HasQuota([QuotaInfo("shared", bytes)], "shared")
    ensures QuotaSet([], "shared", bytes) == [QuotaInfo("shared", bytes)]
    ensures QuotaRemoved([QuotaInfo("shared", bytes)], "shared") == []
  {
    AddedQuota([], QuotaInfo("shared", bytes));
    assert [QuotaInfo("shared", bytes)] + [] == [QuotaInfo("shared", bytes)];
    assert IndexOf([], "shared") == -1;
  }

  datatype Cmd =
    | SetShared(ifn: string, bytes: int) | RemoveShared(ifn: string)
    | SetQuota(ifn: string, bytes: int) | RemoveQuota(ifn: string)
    | SetAlert(bytes: int) | RemoveAlert | TetherOn | TetherOff

  // ------------------------------------------------------------------ the quota list

  lemma AddedQuota(qs: seq<QuotaInfo>, q: QuotaInfo)
    ensures forall n :: HasQuota([q] + qs, n) <==> n == q.ifaceName || HasQuota(qs, n)
  {
    var qs' := [q] + qs;
    assert qs'[0].ifaceName == q.ifaceName;
    forall n | HasQuota(qs, n) ensures HasQuota(qs', n) {
      var i :| 0 <= i < |qs| && qs[i].ifaceName == n;
      assert qs'[i + 1].ifaceName == n;
    }
  }

  lemma DroppedQuota(qs: seq<QuotaInfo>, k: nat)
    requires k < |qs|
    requires forall i, j :: 0 <= i < j < |qs| ==> qs[i].ifaceName != qs[j].ifaceName
    ensures forall n :: HasQuota(qs[..k] + qs[k + 1..], n) <==> n != qs[k].ifaceName && HasQuota(qs, n)
  {
    var qs' := qs[..k] + qs[k + 1..];
    forall n | HasQuota(qs', n) ensures n != qs[k].ifaceName && HasQuota(qs, n) {
      var i :| 0 <= i < |qs'| && qs'[i].ifaceName == n;
      assert qs[if i < k then i else i + 1].ifaceName == n;
    }
    forall n | n != qs[k].ifaceName && HasQuota(qs, n) ensures HasQuota(qs', n) {
      var i :| 0 <= i < |qs| && qs[i].ifaceName == n;
      assert qs'[if i < k then i else i - 1].ifaceName == n;
    }
  }

  lemma SameNames(qs: seq<QuotaInfo>, k: nat, bytes: int)
    requires k < |qs|
    ensures forall n :: HasQuota(qs[k := qs[k].(quota := bytes)], n) <==> HasQuota(qs, n)
  {
    var qs' := qs[k := qs[k].(quota := bytes)];
    assert forall i :: 0 <= i < |qs| ==> qs'[i].ifaceName == qs[i].ifaceName;
    forall n | HasQuota(qs, n) ensures HasQuota(qs', n) {
      var i :| 0 <= i < |qs| && qs[i].ifaceName == n;
      assert qs'[i].ifaceName == n;
    }
  }

  /** The chain of an interface not on the list is not the chain of one that is. */
  lemma UniqueChainsApart(qs: seq<QuotaInfo>, ifn: string)
    requires !HasQuota(qs, ifn)
    ensures forall i :: 0 <= i < |qs| ==> CostlyChain(qs[i].ifaceName) != CostlyChain(ifn)
  {
    forall i | 0 <= i < |qs| ensures CostlyChain(qs[i].ifaceName) != CostlyChain(ifn) {
      CostlyChainInjective(qs[i].ifaceName, ifn);
    }
  }
}
