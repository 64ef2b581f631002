/** The doubly linked list of netd (netd/List.h): a circle of nodes through a sentinel. The list
    refines the sequence of its values. */
module NetdList {

  class Node<T> {
    var val: T
    var prev: Node?<T>
    var next: Node?<T>

    constructor (val: T)
      ensures this.val == val
    {
      this.val, prev, next := val, null, null;
    }
  }

  /** `s` with `t` put in at position `k`. */
  function Spliced<X>(s: seq<X>, k: nat, t: seq<X>): seq<X>
    requires k <= |s|
  {
    s[..k] + t + s[k..]
  }

  /** `s` without the positions from `i` up to `j`. */
  function Cut<X>(s: seq<X>, i: nat, j: nat): seq<X>
    requires i <= j <= |s|
  {
    s[..i] + s[j..]
  }

  ghost function Vals<T>(nodes: seq<Node<T>>): (r: seq<T>)
    reads nodes`val
    ensures |r| == |nodes|
    ensures forall i :: 0 <= i < |r| ==> r[i] == nodes[i].val
  {
    if nodes == [] then [] else [nodes[0].val] + Vals(nodes[1..])
  }

  class List<T(0)> {
    const middle: Node<T>              // mpMiddle
    ghost var cycle: seq<Node<T>>      // the nodes from the sentinel around to the sentinel

    /** The nodes form one circle: next and prev are inverse, no node occurs twice. */
    ghost predicate Valid()
      reads `cycle, cycle`next, cycle`prev
    {
      && |cycle| >= 2 && cycle[0] == middle && cycle[|cycle| - 1] == middle
      && (forall i, j :: 0 <= i < j < |cycle| - 1 ==> cycle[i] != cycle[j])
      && (forall i {:trigger cycle[i].next} :: 0 <= i < |cycle| - 1 ==> cycle[i].next == cycle[i + 1])
      && (forall i {:trigger cycle[i].prev} :: 0 < i < |cycle| ==> cycle[i].prev == cycle[i - 1])
    }

    /** The values, first to last. */
    ghost function Contents(): (r: seq<T>)
      requires |cycle| >= 2
      reads `cycle, cycle`val
      ensures |r| == |cycle| - 2
      ensures forall i :: 0 <= i < |r| ==> r[i] == cycle[i + 1].val
    {
      Vals(cycle[1..|cycle| - 1])
    }

    constructor ()
      ensures Valid() && Contents() == [] && fresh(middle) && cycle == [middle, middle]
    {
      var v: T := *;
      middle := new Node(v);
      new;
      middle.prev, middle.next := middle, middle;
      cycle := [middle, middle];
    }

    method IsEmpty() returns (b: bool)
      requires Valid()
      ensures b <==> Contents() == []
    {
      assert cycle[0].next == cycle[1];
      b := middle.next == middle;
      assert |cycle| > 2 ==> cycle[1] != cycle[0];
    }

    /** The four pointer updates of insert(). */
    method Link(posn: Node<T>, n: Node<T>, ghost k: nat)
      requires Valid() && 0 < k < |cycle| && cycle[k] == posn && n !in cycle
      modifies `cycle, cycle`next, cycle`prev, n`next, n`prev
      ensures Valid() && cycle == old(cycle)[..k] + [n] + old(cycle)[k..]
    {
      assert cycle[k].prev == cycle[k - 1];
      n.next := posn;
      n.prev := posn.prev;
      posn.prev.next := n;
      posn.prev := n;
      cycle := cycle[..k] + [n] + cycle[k..];
    }

    /** insert before `posn`, which is at place `k` of the circle. */
    method Insert(posn: Node<T>, val: T, ghost k: nat) returns (n: Node<T>)
      requires Valid() && 0 < k < |cycle| && cycle[k] == posn
      modifies `cycle, cycle`next, cycle`prev
      ensures Valid() && fresh(n) && n.val == val
      ensures cycle == old(cycle)[..k] + [n] + old(cycle)[k..]
      ensures Contents() == Spliced(old(Contents()), k - 1, [val])
    {
      hide Valid, Vals;
      n := new Node(val);
      Link(posn, n, k);
    }

    /** The two pointer updates of erase(). */
    method Unlink(posn: Node<T>, ghost k: nat) returns (next: Node<T>)
      requires Valid() && 0 < k < |cycle| - 1 && cycle[k] == posn
      modifies `cycle, cycle`next, cycle`prev
      ensures Valid() && cycle == old(cycle)[..k] + old(cycle)[k + 1..]
      ensures next == old(cycle)[k + 1]
    {
      assert cycle[k].next == cycle[k + 1] && cycle[k].prev == cycle[k - 1];
      var pNext, pPrev := posn.next, posn.prev;
      pPrev.next := pNext;
      pNext.prev := pPrev;
      cycle := cycle[..k] + cycle[k + 1..];
      next := pNext;
    }

    /** erase the node at place `k`, returning its successor. */
    method Erase(posn: Node<T>, ghost k: nat) returns (next: Node<T>)
      requires Valid() && 0 < k < |cycle| - 1 && cycle[k] == posn
      modifies `cycle, cycle`next, cycle`prev
      ensures Valid() && cycle == old(cycle)[..k] + old(cycle)[k + 1..]
      ensures next == old(cycle)[k + 1]
      ensures Contents() == Cut(old(Contents()), k - 1, k)
    {
      hide Valid, Vals;
      next := Unlink(posn, k);
    }

    /** No node in common with another list. */
    ghost predicate Apart(other: List<T>)
      reads `cycle, other`cycle
    {
      this != other && forall m :: 0 <= m < |cycle| ==> cycle[m] !in other.cycle
    }

    /** Going forward from place `a`, which is the place `b` only when the nodes are the same. */
    lemma Onward(a: nat, b: nat)
      requires Valid() && 0 < a <= b < |cycle|
      ensures cycle[a] == cycle[b] <==> a == b
      ensures a < b ==> cycle[a].next == cycle[a + 1]
    {
      if a < b {
        assert cycle[a].next == cycle[a + 1];
        assert cycle[b] == cycle[if b == |cycle| - 1 then 0 else b];
      }
    }

    lemma First()
      requires Valid()
      ensures |cycle| >= 2 && cycle[|cycle| - 1] == middle && middle.next == cycle[1]
    {
      assert cycle[0].next == cycle[1];
    }

    /** insert the values from `first` up to `last` of another list before `posn`. */
    method InsertRange(posn: Node<T>, ghost k: nat, src: List<T>, first: Node<T>, ghost i: nat,
                       last: Node<T>, ghost j: nat)
      requires Valid() && src.Valid() && Apart(src)
      requires 0 < k < |cycle| && cycle[k] == posn
      requires 0 < i <= j < |src.cycle| && src.cycle[i] == first && src.cycle[j] == last
      modifies `cycle, cycle`next, cycle`prev
      ensures Valid() && Apart(src)
      ensures |cycle| >= 2 && Contents() == Spliced(old(Contents()), k - 1, src.Contents()[i - 1..j - 1])
      ensures forall m :: 0 <= m < k ==> m < |cycle| && cycle[m] == old(cycle)[m]
    {
      hide Valid, Contents, Spliced;
      var f := first;
      ghost var a, at := i, k;
      SpliceNone(Contents(), k - 1, src.Contents()[i - 1..i - 1]);
      while f != last
        invariant i <= a <= j && f == src.cycle[a] && src.Valid()
        invariant Valid() && Apart(src)
        invariant forall m :: 0 <= m < |cycle| ==> cycle[m] in old(cycle) || fresh(cycle[m])
        invariant k <= at < |cycle| && at == k + (a - i) && cycle[at] == posn
        invariant Contents() == Spliced(old(Contents()), k - 1, src.Contents()[i - 1..a - 1])
        invariant forall m :: 0 <= m < k ==> m < |cycle| && cycle[m] == old(cycle)[m]
        decreases j - a
      {
        src.Onward(a, j);
        ghost var got := src.Contents()[i - 1..a - 1];
        assert f in src.cycle;
        var n := Insert(posn, f.val, at);
        SpliceMore(old(Contents()), k - 1, got, f.val);
        assert src.Contents()[i - 1..a] == got + [f.val];
        f := f.next;
        a, at := a + 1, at + 1;
      }
      src.Onward(a, j);
    }

    /** The same with a range of the list itself, where the position is not behind its first node and up to its end:
        in front of `posn` the values of the range are spliced in, as they were. */
    method InsertOwnRange(posn: Node<T>, ghost k: nat, first: Node<T>, ghost i: nat, last: Node<T>, ghost j: nat)
      requires Valid() && 0 < k < |cycle| && cycle[k] == posn
      requires 0 < i <= j < |cycle| && cycle[i] == first && cycle[j] == last
      requires i == j || k <= i || j < k
      modifies `cycle, cycle`next, cycle`prev
      ensures Valid()
      ensures |cycle| >= 2 && Contents() == Spliced(old(Contents()), k - 1, old(Contents())[i - 1..j - 1])
    {
      hide Valid, Contents, Spliced;
      var f := first;
      ghost var t := 0;
      ghost var c0 := Contents();
      SpliceNone(c0, k - 1, c0[i - 1..i - 1]);
      while f != last
        invariant 0 <= t <= j - i && Valid() && |cycle| == |old(cycle)| + t
        invariant forall m :: 0 <= m < |cycle| ==> cycle[m] in old(cycle) || fresh(cycle[m])
        invariant k + t < |cycle| && cycle[k + t] == posn
        invariant cycle[if k <= i then i + t + t else i + t] == f
        invariant cycle[if k <= j then j + t else j] == last
        invariant Contents() == Spliced(c0, k - 1, c0[i - 1..i - 1 + t])
        decreases j - i - t
      {
        ghost var a := if k <= i then i + t + t else i + t;
        Onward(a, if k <= j then j + t else j);
        OwnValue(c0, Contents(), k, i, t, a);
        ghost var n;
        f, n := Turn(posn, k + t, f, a);
        t := t + 1;
      }
      Onward(if k <= i then i + t + t else i + t, if k <= j then j + t else j);
    }

    /** One turn of the loop: the value at `f` is inserted before `posn`, and `f` moves on. */
    method Turn(posn: Node<T>, ghost at: nat, f: Node<T>, ghost a: nat) returns (g: Node<T>, ghost n: Node<T>)
      requires Valid() && 0 < at < |cycle| && cycle[at] == posn && 0 < a < |cycle| - 1 && cycle[a] == f
      modifies `cycle, cycle`next, cycle`prev
      ensures Valid() && fresh(n) && cycle == old(cycle)[..at] + [n] + old(cycle)[at..]
      ensures Contents() == Spliced(old(Contents()), at - 1, [old(Contents())[a - 1]])
      ensures g == cycle[if at <= a then a + 2 else a + 1]
    {
      hide Valid, Spliced;
      n := Insert(posn, f.val, at);
      ghost var a' := if at <= a then a + 1 else a;
      assert cycle[a'] == f;
      Onward(a', |cycle| - 1);
      g := f.next;
    }

    /** With the position behind the first node of the range and not behind its end, the loop never ends: after any
        number of turns there is one more. */
    method OwnRangeNeverEnds(posn: Node<T>, ghost k: nat, first: Node<T>, ghost i: nat, last: Node<T>, ghost j: nat,
                             n: nat)
      returns (f: Node<T>)
      requires Valid() && 0 < k < |cycle| && cycle[k] == posn
      requires 0 < i < k <= j < |cycle| && cycle[i] == first && cycle[j] == last
      modifies `cycle, cycle`next, cycle`prev
      ensures Valid() && f != last && |cycle| == |old(cycle)| + n
    {
      hide Valid, Contents, Spliced;
      f := first;
      var t := 0;
      Onward(i, j);
      while t < n
        invariant 0 <= t <= n && Valid() && |cycle| == |old(cycle)| + t && f != last
        invariant forall m :: 0 <= m < |cycle| ==> cycle[m] in old(cycle) || fresh(cycle[m])
        invariant cycle[k + t] == posn && cycle[i + t] == f && cycle[j + t] == last
      {
        ghost var n;
        f, n := Turn(posn, k + t, f, i + t);
        t := t + 1;
        Onward(i + t, j + t);
      }
    }

    /** erase the nodes from `first` up to `last`. */
    method EraseRange(first: Node<T>, ghost i: nat, last: Node<T>, ghost j: nat)
      requires Valid() && 0 < i <= j < |cycle| && cycle[i] == first && cycle[j] == last
      modifies `cycle, cycle`next, cycle`prev
      ensures Valid() && cycle == old(cycle)[..i] + old(cycle)[j..]
      ensures Contents() == Cut(old(Contents()), i - 1, j - 1)
    {
      hide Valid, Contents, Cut;
      var f := first;
      ghost var a := i;
      CutNone(Contents(), i - 1);
      while f != last
        invariant i <= a <= j && f == old(cycle)[a]
        invariant Valid() && cycle == old(cycle)[..i] + old(cycle)[a..]
        invariant Contents() == Cut(old(Contents()), i - 1, a - 1)
        decreases j - a
      {
        assert cycle[i] == f && cycle[i + (j - a)] == last;
        Onward(i, i + (j - a));
        CutMore(old(Contents()), i - 1, a - 1);
        f := Erase(f, i);
        a := a + 1;
      }
      assert cycle[i] == f && cycle[i + (j - a)] == last;
      Onward(i, i + (j - a));
    }

    /** distance from `first` to `last`, as size() counts from begin to end. */
    method Distance(first: Node<T>, ghost i: nat, last: Node<T>, ghost j: nat) returns (count: nat)
      requires Valid() && 0 < i <= j < |cycle| && cycle[i] == first && cycle[j] == last
      ensures count == j - i
    {
      hide Valid;
      var f := first;
      count := 0;
      while f != last
        invariant i + count <= j && f == cycle[i + count]
        decreases j - i - count
      {
        Onward(i + count, j);
        f := f.next;
        count := count + 1;
      }
      Onward(i + count, j);
    }

    method Size() returns (n: nat)
      requires Valid()
      ensures n == |Contents()|
    {
      First();
      n := Distance(middle.next, 1, middle, |cycle| - 1);
    }

    /** remove all contents. */
    method Clear()
      requires Valid()
      modifies `cycle, cycle`next, cycle`prev
      ensures Valid() && Contents() == []
    {
      First();
      var current := middle.next;
      ghost var a := 1;
      while current != middle
        invariant 1 <= a < |cycle| && current == cycle[a]
        invariant Valid()
        decreases |cycle| - a
      {
        Onward(a, |cycle| - 1);
        current := current.next;
        a := a + 1;
      }
      middle.prev := middle;
      middle.next := middle;
      cycle := [middle, middle];
    }

    /** Write through an iterator. */
    method SetVal(posn: Node<T>, ghost k: nat, val: T)
      requires Valid() && 0 < k < |cycle| - 1 && cycle[k] == posn
      modifies cycle`val
      ensures Contents() == old(Contents())[k - 1 := val]
      ensures forall n :: n in cycle && n != posn ==> n.val == old(n.val)
    {
      posn.val := val;
    }

    /** Copy one value and advance both iterators. */
    method CopyOne(right: List<T>, fd: Node<T>, fs: Node<T>, ghost p: nat) returns (nd: Node<T>, ns: Node<T>)
      requires Valid() && right.Valid() && Apart(right)
      requires p + 2 < |cycle| && fd == cycle[p + 1] && p + 2 < |right.cycle| && fs == right.cycle[p + 1]
      modifies cycle`val
      ensures nd == cycle[p + 2] && ns == right.cycle[p + 2]
      ensures right.Contents() == old(right.Contents())
      ensures Contents() == old(Contents())[p := right.Contents()[p]]
    {
      hide Valid, Contents;
      Onward(p + 1, |cycle| - 1);
      right.Onward(p + 1, |right.cycle| - 1);
      SetVal(fd, p + 1, fs.val);
      nd, ns := fd.next, fs.next;
    }

    /** The first loop of operator=: overwrite values while both lists have nodes. */
    method CopyPrefix(right: List<T>) returns (fd: Node<T>, fs: Node<T>, ghost p: nat)
      requires Valid() && right.Valid() && Apart(right)
      modifies cycle`val
      ensures p == if |cycle| <= |right.cycle| then |cycle| - 2 else |right.cycle| - 2
      ensures fd == cycle[p + 1] && fs == right.cycle[p + 1]
      ensures Contents() == right.Contents()[..p] + old(Contents())[p..]
    {
      hide Valid, Contents, Apart;
      First();
      right.First();
      fd, fs, p := middle.next, right.middle.next, 0;
      while fs != right.middle && fd != middle
        invariant p + 1 < |cycle| && p + 1 < |right.cycle|
        invariant fd == cycle[p + 1] && fs == right.cycle[p + 1]
        invariant right.Contents() == old(right.Contents())
        invariant Contents() == right.Contents()[..p] + old(Contents())[p..]
        decreases |cycle| - p
      {
        Onward(p + 1, |cycle| - 1);
        right.Onward(p + 1, |right.cycle| - 1);
        fd, fs := CopyOne(right, fd, fs, p);
        OverwriteMore(right.Contents(), old(Contents()), p);
        p := p + 1;
      }
      Onward(p + 1, |cycle| - 1);
      right.Onward(p + 1, |right.cycle| - 1);
    }

    /** operator=: the target becomes equal to the source, which is not changed; the nodes that
        both lists had room for are kept. */
    method Assign(right: List<T>)
      requires Valid() && right.Valid() && (right == this || Apart(right))
      modifies `cycle, cycle
      ensures Valid() && right.Valid()
      ensures right.cycle == old(right.cycle)
      ensures right.Contents() == old(right.Contents()) && Contents() == right.Contents()
      ensures forall m :: 0 <= m <= |Contents()| && m <= |old(Contents())| ==> cycle[m] == old(cycle)[m]
    {
      hide Valid, Contents;
      First();
      if this == right { return; }
      right.First();
      var fd, fs;
      ghost var p;
      fd, fs, p := CopyPrefix(right);
      Onward(p + 1, |cycle| - 1);
      right.Onward(p + 1, |right.cycle| - 1);
      hide Cut, Spliced, Apart;
      if fs == right.middle {
        CopiedCut(right.Contents(), old(Contents()), p);
        EraseRange(fd, p + 1, middle, |cycle| - 1);
      } else {
        CopiedSplice(right.Contents(), old(Contents()), p);
        InsertRange(middle, |cycle| - 1, right, fs, p + 1, right.middle, |right.cycle| - 1);
      }
    }
  }

  lemma SpliceNone<X>(s: seq<X>, k: nat, t: seq<X>)
    requires k <= |s| && t == []
    ensures Spliced(s, k, t) == s
  {
  }

  /** What the copied prefix lacks is nothing but an end to cut off, or the rest of the source to splice in. */
  lemma CopiedCut<X>(src: seq<X>, dst: seq<X>, p: nat)
    requires p == |src| <= |dst|
    ensures Cut(src[..p] + dst[p..], p, |dst|) == src
  {
  }

  lemma CopiedSplice<X>(src: seq<X>, dst: seq<X>, p: nat)
    requires p <= |src| && p <= |dst|
    ensures p == |dst| ==> Spliced(src[..p] + dst[p..], |dst|, src[p..|src|]) == src
  {
  }

  /** An element of the original in front of the splice, or moved behind it. */
  lemma SplicedAt<X>(s: seq<X>, k: nat, t: seq<X>, m: nat)
    requires k <= |s| && m < |s|
    ensures |Spliced(s, k, t)| == |s| + |t|
    ensures Spliced(s, k, t)[if m < k then m else m + |t|] == s[m]
  {
  }

  /** The value met at turn `t` of inserting a range of the list itself is that of the original range. */
  lemma OwnValue<X>(c0: seq<X>, c: seq<X>, k: nat, i: nat, t: nat, a: nat)
    requires 0 < k <= |c0| + 1 && 0 < i && i + t <= |c0|
    requires c == Spliced(c0, k - 1, c0[i - 1..i - 1 + t])
    requires (k <= i && a == i + t + t) || (i + t < k && a == i + t)
    ensures 0 < a <= |c| == |c0| + t
    ensures Spliced(c, k + t - 1, [c[a - 1]]) == Spliced(c0, k - 1, c0[i - 1..i + t])
  {
    hide Spliced;
    var got, x := c0[i - 1..i - 1 + t], c0[i - 1 + t];
    SplicedAt(c0, k - 1, got, i - 1 + t);
    SpliceMore(c0, k - 1, got, x);
    assert c0[i - 1..i + t] == got + [x];
  }

  lemma CutNone<X>(s: seq<X>, i: nat)
    requires i <= |s|
    ensures Cut(s, i, i) == s
  {
  }

  lemma CutMore<X>(s: seq<X>, i: nat, j: nat)
    requires i <= j < |s|
    ensures |Cut(s, i, j)| == |s| - (j - i)
    ensures Cut(Cut(s, i, j), i, i + 1) == Cut(s, i, j + 1)
  {
  }

  lemma OverwriteMore<X>(src: seq<X>, dst: seq<X>, p: nat)
    requires p < |src| && p < |dst|
    ensures (src[..p] + dst[p..])[p := src[p]] == src[..p + 1] + dst[p + 1..]
  {
  }

  lemma SpliceMore<X>(s: seq<X>, k: nat, t: seq<X>, x: X)
    requires k <= |s|
    ensures |Spliced(s, k, t)| == |s| + |t|
    ensures Spliced(Spliced(s, k, t), k + |t|, [x]) == Spliced(s, k, t + [x])
  {
    assert Spliced(s, k, t)[..k + |t|] == s[..k] + t;
    assert Spliced(s, k, t)[k + |t|..] == s[k..];
  }
}
