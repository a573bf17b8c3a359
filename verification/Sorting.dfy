/**
 Sorting that promises nothing about the order of equal elements, and the orders it is used with.
 */
module Sorting {
  ghost predicate TotalPreorder<T(!new)>(le: (T, T) -> bool) {
    && (forall x, y :: le(x, y) || le(y, x))
    && (forall x, y, z :: le(x, y) && le(y, z) ==> le(x, z))
  }

  ghost predicate TotalOrder<T(!new)>(le: (T, T) -> bool) {
    TotalPreorder(le) && forall x, y :: le(x, y) && le(y, x) ==> x == y
  }

  predicate Ordered<T>(le: (T, T) -> bool, s: seq<T>) {
    forall i, j :: 0 <= i < j < |s| ==> le(s[i], s[j])
  }

  lemma OrderedInsert<T(!new)>(le: (T, T) -> bool, s: seq<T>, k: nat, x: T)
    requires TotalPreorder(le) && Ordered(le, s) && k <= |s|
    requires k > 0 ==> le(s[k - 1], x)
    requires k < |s| ==> le(x, s[k])
    ensures Ordered(le, s[..k] + [x] + s[k..])
  {
    forall i | 0 <= i < k ensures le(s[i], x) {
      assert i < k - 1 ==> le(s[i], s[k - 1]);
    }
    forall j | k <= j < |s| ensures le(x, s[j]) {
      assert k < j ==> le(s[k], s[j]);
    }
  }

  lemma MultisetInsert<T>(s: seq<T>, k: nat, x: T)
    requires k <= |s|
    ensures multiset(s[..k] + [x] + s[k..]) == multiset(s + [x])
  {
    assert s == s[..k] + s[k..];
  }

  /** Some ordered rearrangement: callers may rely on nothing else. */
  method SortUnstable<T(!new)>(le: (T, T) -> bool, s: seq<T>) returns (r: seq<T>)
    requires TotalPreorder(le)
    ensures Ordered(le, r) && multiset(r) == multiset(s)
  {
    r := [];
    for n := 0 to |s|
      invariant Ordered(le, r) && multiset(r) == multiset(s[..n])
    {
      var k := |r|;
      while k > 0 && !le(r[k - 1], s[n])
        invariant 0 <= k <= |r| && (k < |r| ==> le(s[n], r[k]))
      {
        k := k - 1;
      }
      OrderedInsert(le, r, k, s[n]);
      MultisetInsert(r, k, s[n]);
      assert s[..n + 1] == s[..n] + [s[n]];
      r := r[..k] + [s[n]] + r[k..];
    }
    assert s[..|s|] == s;
  }

  lemma MultisetWithout<T>(b: seq<T>, i: nat)
    requires i < |b|
    ensures b == b[..i] + [b[i]] + b[i + 1..] && multiset(b) == multiset(b[..i] + b[i + 1..]) + multiset{b[i]}
  {
    var rest := b[..i] + b[i + 1..];
    assert b == b[..i] + [b[i]] + b[i + 1..];
    assert multiset(b) == multiset(b[..i] + [b[i]]) + multiset(b[i + 1..]);
  }

  /** The first element of a list has a place in every rearrangement of it. */
  lemma PlaceOfFirst<T>(a: seq<T>, b: seq<T>) returns (i: nat)
    requires multiset(a) == multiset(b) && a != []
    ensures i < |b| && b[i] == a[0] && b == b[..i] + [b[i]] + b[i + 1..]
    ensures multiset(a[1..]) == multiset(b[..i] + b[i + 1..])
  {
    assert a[0] in multiset(b);
    i :| 0 <= i < |b| && b[i] == a[0];
    MultisetWithout(b, i);
    MultisetWithout(a, 0);
    assert a[..0] + a[1..] == a[1..];
    OneLess(multiset(a[1..]), multiset(b[..i] + b[i + 1..]), a[0]);
  }

  lemma OneLess<T>(x: multiset<T>, y: multiset<T>, e: T)
    requires x + multiset{e} == y + multiset{e}
    ensures x == y
  {
    assert x == (x + multiset{e}) - multiset{e} && y == (y + multiset{e}) - multiset{e};
  }

  lemma EmptyRearranged<T>(b: seq<T>)
    requires multiset(b) == multiset{}
    ensures b == []
  {
    assert |multiset(b)| == |b|;
  }

  /** The order of lists of numbers: by the first difference, a proper prefix before its extensions. */
  predicate LexLe(a: seq<nat>, b: seq<nat>) {
    if a == [] then true
    else if b == [] then false
    else a[0] < b[0] || (a[0] == b[0] && LexLe(a[1..], b[1..]))
  }

  lemma {:induction false} LexTotal(a: seq<nat>, b: seq<nat>)
    ensures LexLe(a, b) || LexLe(b, a)
    ensures LexLe(a, b) && LexLe(b, a) ==> a == b
  {
    if a != [] && b != [] {
      LexTotal(a[1..], b[1..]);
      assert a == [a[0]] + a[1..] && b == [b[0]] + b[1..];
    }
  }

  lemma {:induction false} LexTransitive(a: seq<nat>, b: seq<nat>, c: seq<nat>)
    requires LexLe(a, b) && LexLe(b, c)
    ensures LexLe(a, c)
  {
    if a != [] && b != [] && c != [] {
      if a[0] == b[0] && b[0] == c[0] {
        LexTransitive(a[1..], b[1..], c[1..]);
      }
    }
  }
}
