/** iptables on one chain, a sequence of rules: -A appends, -I inserts at a position counted
    from one, -D deletes the first equal rule. */
module Iptables {

  /** -D: the chain without the first such rule; unchanged, and a failure, if there is none. */
  function Delete<T(==)>(ch: seq<T>, r: T): (d: seq<T>)
    ensures r !in ch ==> d == ch
    ensures r in ch ==> |d| == |ch| - 1
  {
    if ch == [] then []
    else if ch[0] == r then ch[1..]
    else [ch[0]] + Delete(ch[1..], r)
  }

  /** -I at a position within the chain or right behind it. */
  function InsertAt<T>(ch: seq<T>, pos: nat, r: T): seq<T>
    requires 1 <= pos <= |ch| + 1
  {
    ch[..pos - 1] + [r] + ch[pos - 1..]
  }

  lemma {:induction false} DeleteAt<T>(a: seq<T>, r: T, b: seq<T>)
    requires r !in a
    ensures Delete(a + [r] + b, r) == a + b
    decreases |a|
  {
    if a == [] {
      assert a + [r] + b == [r] + b;
      assert a + b == b;
    } else {
      assert a + [r] + b == [a[0]] + (a[1..] + [r] + b);
      DeleteAt(a[1..], r, b);
      assert a + b == [a[0]] + (a[1..] + b);
    }
  }

  lemma {:induction false} DeleteInFront<T>(a: seq<T>, b: seq<T>, r: T)
    requires r in a
    ensures Delete(a + b, r) == Delete(a, r) + b
    decreases |a|
  {
    assert a + b == [a[0]] + (a[1..] + b);
    if a[0] != r {
      DeleteInFront(a[1..], b, r);
    }
  }

  lemma {:induction false} DeleteBehind<T>(a: seq<T>, b: seq<T>, r: T)
    requires r !in a
    ensures Delete(a + b, r) == a + Delete(b, r)
    decreases |a|
  {
    if a == [] {
      assert a + b == b;
    } else {
      assert a + b == [a[0]] + (a[1..] + b);
      DeleteBehind(a[1..], b, r);
      assert a + Delete(b, r) == [a[0]] + (a[1..] + Delete(b, r));
    }
  }

  lemma {:induction false} DeleteKeepsOther<T>(ch: seq<T>, r: T, q: T)
    requires q in ch && q != r
    ensures q in Delete(ch, r)
    decreases |ch|
  {
    if ch[0] != r && ch[0] != q {
      DeleteKeepsOther(ch[1..], r, q);
    }
  }

  predicate Distinct<T(==)>(ch: seq<T>) {
    forall i, j :: 0 <= i < j < |ch| ==> ch[i] != ch[j]
  }

  /** In a chain without repetitions a deletion takes the rule out altogether. */
  lemma {:induction false} DeleteDistinct<T>(ch: seq<T>, r: T)
    requires Distinct(ch)
    ensures Distinct(Delete(ch, r))
    ensures forall x :: x in Delete(ch, r) <==> x in ch && x != r
    decreases |ch|
  {
    if ch != [] {
      DeleteDistinct(ch[1..], r);
      if ch[0] != r {
        var d := Delete(ch[1..], r);
        assert ch[0] !in ch[1..];
        assert ch[0] !in d;
      }
    }
  }
}
