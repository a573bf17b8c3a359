/**
 Nested column properties: a list of column paths with their properties is turned into a tree, from which the
 properties of a path are read back.
 */
module PathTree {
  import opened Values
  import opened Sorting

  /** `Column` stands for the properties of one column, which are only compared. */
  datatype Properties = Table(inner: seq<Properties>) | Column(id: nat) | Empty

  datatype ColumnPath = KeyPath | ValuePath(path: seq<nat>)

  datatype TreeError = InvalidColumnPath | InconsistentColumnProperties | IdInTableProperties

  type Named = (seq<nat>, Properties)

  // ---------------------------------------------------------------- reading a path

  function Extracted(t: Properties, path: seq<nat>): Result<Properties, TreeError> {
    if path == [] then Ok(t)
    else if t.Table? && path[0] < |t.inner| then Extracted(t.inner[path[0]], path[1..])
    else Err(InvalidColumnPath)
  }

  method ExtractProperties(path: ColumnPath, t: Properties) returns (r: Result<Properties, TreeError>)
    ensures r == if path.KeyPath? then Ok(Empty) else Extracted(t, path.path)
  {
    if path.KeyPath? {
      return Ok(Empty);
    }
    var p, here := path.path, t;
    for i := 0 to |p|
      invariant Extracted(t, p) == Extracted(here, p[i..])
    {
      if here.Table? && p[i] < |here.inner| {
        here := here.inner[p[i]];
      } else {
        return Err(InvalidColumnPath);
      }
    }
    return Ok(here);
  }

  // ---------------------------------------------------------------- sorted lists of paths

  predicate PathLe(a: Named, b: Named) {
    LexLe(a.0, b.0)
  }

  ghost predicate Sorted(props: seq<Named>) {
    Ordered(PathLe, props)
  }

  ghost predicate Bounded(props: seq<Named>, bound: nat) {
    forall i :: 0 <= i < |props| ==> |props[i].0| <= bound
  }

  /** Every path has a first position, and it is at least `prefix`. */
  ghost predicate StartsFrom(props: seq<Named>, prefix: nat) {
    forall i :: 0 <= i < |props| ==> props[i].0 != [] && prefix <= props[i].0[0]
  }

  /** Every path starts with `prefix`. */
  ghost predicate AllUnder(props: seq<Named>, prefix: nat) {
    forall i :: 0 <= i < |props| ==> props[i].0 != [] && props[i].0[0] == prefix
  }

  /** The paths without their first positions. */
  function Tails(props: seq<Named>): seq<Named>
    requires forall i :: 0 <= i < |props| ==> props[i].0 != []
  {
    seq(|props|, i requires 0 <= i < |props| => (props[i].0[1..], props[i].1))
  }

  /** If the first path has a position left then, sorted as they are, so do all others, and positions do not decrease. */
  lemma NoneShorter(props: seq<Named>)
    requires Sorted(props) && props != [] && props[0].0 != []
    ensures StartsFrom(props, props[0].0[0])
  {
    forall i | 0 <= i < |props| ensures props[i].0 != [] && props[0].0[0] <= props[i].0[0] {
      assert i > 0 ==> PathLe(props[0], props[i]);
    }
  }

  /** A sorted list of paths that all start at `prefix` or later. */
  ghost predicate Ready(props: seq<Named>, prefix: nat, bound: nat) {
    Sorted(props) && Bounded(props, bound) && StartsFrom(props, prefix)
  }

  /** How many paths at the front start with `prefix`. */
  ghost function Run(props: seq<Named>, prefix: nat): (n: nat)
    requires StartsFrom(props, prefix) && Sorted(props)
    ensures n <= |props| && AllUnder(props[..n], prefix) && StartsFrom(props[n..], prefix + 1)
  {
    if props == [] then 0
    else if props[0].0[0] == prefix then
      var n := Run(props[1..], prefix);
      assert props[..1 + n] == [props[0]] + props[1..][..n] && props[1 + n..] == props[1..][n..];
      1 + n
    else
      NoneShorter(props);
      0
  }

  lemma TailsSorted(props: seq<Named>, prefix: nat, bound: nat)
    requires Sorted(props) && AllUnder(props, prefix) && Bounded(props, bound)
    ensures Sorted(Tails(props)) && Bounded(Tails(props), if bound == 0 then 0 else bound - 1)
    ensures props != [] ==> bound > 0
  {
    assert props != [] ==> |props[0].0| <= bound;
    forall i, j | 0 <= i < j < |props| ensures PathLe(Tails(props)[i], Tails(props)[j]) {
      assert PathLe(props[i], props[j]);
    }
  }

  /** What follows `prefix` in the paths that start with it. */
  ghost function Under(props: seq<Named>, prefix: nat, bound: nat): (under: seq<Named>)
    requires Ready(props, prefix, bound)
    ensures Sorted(under) && Bounded(under, if bound == 0 then 0 else bound - 1)
    ensures under != [] ==> bound > 0
  {
    TailsSorted(props[..Run(props, prefix)], prefix, bound);
    Tails(props[..Run(props, prefix)])
  }

  /** The paths that start later than at `prefix`. */
  ghost function Beyond(props: seq<Named>, prefix: nat, bound: nat): (beyond: seq<Named>)
    requires Ready(props, prefix, bound)
    ensures Ready(beyond, prefix + 1, bound)
    ensures |beyond| <= |props| && (props != [] && |beyond| == |props| ==> beyond == props && prefix < props[0].0[0])
  {
    props[Run(props, prefix)..]
  }

  lemma UnderMember(props: seq<Named>, prefix: nat, bound: nat, x: Named)
    requires Ready(props, prefix, bound)
    ensures x in Under(props, prefix, bound) <==> ([prefix] + x.0, x.1) in props
  {
    var n, y := Run(props, prefix), ([prefix] + x.0, x.1);
    if x in Under(props, prefix, bound) {
      var i :| 0 <= i < n && Under(props, prefix, bound)[i] == x;
      assert props[..n][i] == props[i] && props[i].0 == [prefix] + x.0;
    }
    if y in props {
      var i :| 0 <= i < |props| && props[i] == y;
      assert props[..n][i] == y && Under(props, prefix, bound)[i] == x;
    }
  }

  lemma BeyondMember(props: seq<Named>, prefix: nat, bound: nat, x: Named)
    requires Ready(props, prefix, bound)
    ensures x in Beyond(props, prefix, bound) <==> x in props && x.0 != [] && x.0[0] != prefix
    ensures x in props ==> x.0 != [] && prefix <= x.0[0]
  {
    var n := Run(props, prefix);
    assert props == props[..n] + props[n..];
    if x in props {
      var i :| 0 <= i < |props| && props[i] == x;
      assert i < n ==> props[..n][i] == x;
    }
  }

  // ---------------------------------------------------------------- the tree

  ghost predicate AllSame(props: seq<Named>) {
    forall i :: 0 <= i < |props| ==> props[i].1 == props[0].1
  }

  /** The tree of a sorted list of paths; `bound` limits their lengths. */
  ghost function Tree(props: seq<Named>, bound: nat): Result<Properties, TreeError>
    requires Sorted(props) && Bounded(props, bound)
    decreases bound, 2
  {
    if props != [] && props[0].0 == [] then
      if AllSame(props) then Ok(props[0].1) else Err(InconsistentColumnProperties)
    else
      ReadyFromZero(props, bound);
      var children := Children(props, 0, bound);
      if children.Ok? then Ok(Table(children.value)) else Err(children.error)
  }

  lemma ReadyFromZero(props: seq<Named>, bound: nat)
    requires Sorted(props) && Bounded(props, bound) && (props == [] || props[0].0 != [])
    ensures Ready(props, 0, bound)
  {
    if props != [] {
      NoneShorter(props);
    }
  }

  /** The subtrees at the positions from `prefix` on. */
  ghost function Children(props: seq<Named>, prefix: nat, bound: nat): Result<seq<Properties>, TreeError>
    requires Ready(props, prefix, bound)
    decreases bound, 1, |props|, if props == [] then 0 else props[0].0[0] - prefix
  {
    if props == [] then Ok([])
    else
      var head := Child(props, prefix, bound);
      var tail := Children(Beyond(props, prefix, bound), prefix + 1, bound);
      if head.Err? then Err(head.error)
      else if tail.Err? then tail
      else Ok([head.value] + tail.value)
  }

  /** The subtree at position `prefix`, empty if no path leads there. */
  ghost function Child(props: seq<Named>, prefix: nat, bound: nat): Result<Properties, TreeError>
    requires Ready(props, prefix, bound)
    decreases bound, 0
  {
    var under := Under(props, prefix, bound);
    if under == [] then Ok(Empty) else Tree(under, bound - 1)
  }

  // ---------------------------------------------------------------- when there is a tree

  /** Properties agree wherever one path is a prefix of another, equal paths included. */
  ghost predicate Agree(props: seq<Named>) {
    forall a, b :: a in props && b in props && a.0 <= b.0 ==> a.1 == b.1
  }

  lemma PrefixCons(h: nat, a: seq<nat>, b: seq<nat>)
    ensures [h] + a <= [h] + b <==> a <= b
  {
    if a <= b {
      assert [h] + b == [h] + a + b[|a|..];
    }
    if [h] + a <= [h] + b {
      forall i | 0 <= i < |a| ensures a[i] == b[i] {
        assert ([h] + a)[i + 1] == ([h] + b)[i + 1];
      }
    }
  }

  /** Paths that start differently have nothing to agree on. */
  lemma SplitAgree(props: seq<Named>, prefix: nat, bound: nat)
    requires Ready(props, prefix, bound)
    ensures Agree(props) <==> Agree(Under(props, prefix, bound)) && Agree(Beyond(props, prefix, bound))
  {
    var under, beyond := Under(props, prefix, bound), Beyond(props, prefix, bound);
    forall x ensures x in beyond <==> x in props && x.0 != [] && x.0[0] != prefix ensures x in props ==> x.0 != [] {
      BeyondMember(props, prefix, bound, x);
    }
    if Agree(props) {
      forall a, b | a in under && b in under && a.0 <= b.0 ensures a.1 == b.1 {
        UnderMember(props, prefix, bound, a);
        UnderMember(props, prefix, bound, b);
        PrefixCons(prefix, a.0, b.0);
      }
    }
    if Agree(under) && Agree(beyond) {
      forall a, b | a in props && b in props && a.0 <= b.0 ensures a.1 == b.1 {
        assert b.0[0] == a.0[0];
        if a.0[0] == prefix {
          assert a.0 == [prefix] + a.0[1..] && b.0 == [prefix] + b.0[1..];
          UnderMember(props, prefix, bound, (a.0[1..], a.1));
          UnderMember(props, prefix, bound, (b.0[1..], b.1));
          PrefixCons(prefix, a.0[1..], b.0[1..]);
        }
      }
    }
  }

  /** A tree is produced exactly when the properties agree. */
  lemma {:induction false} TreeOkIff(props: seq<Named>, bound: nat)
    requires Sorted(props) && Bounded(props, bound)
    ensures Tree(props, bound).Ok? <==> Agree(props)
    ensures Tree(props, bound).Err? ==> Tree(props, bound).error == InconsistentColumnProperties
    decreases bound, 2
  {
    if props != [] && props[0].0 == [] {
      if Agree(props) {
        forall i | 0 <= i < |props| ensures props[i].1 == props[0].1 {
          assert props[0] in props && props[i] in props && props[0].0 <= props[i].0;
        }
      }
      if AllSame(props) {
        forall a | a in props ensures a.1 == props[0].1 {
        }
      }
    } else {
      ReadyFromZero(props, bound);
      ChildrenOkIff(props, 0, bound);
    }
  }

  lemma {:induction false} ChildrenOkIff(props: seq<Named>, prefix: nat, bound: nat)
    requires Ready(props, prefix, bound)
    ensures Children(props, prefix, bound).Ok? <==> Agree(props)
    ensures Children(props, prefix, bound).Err? ==> Children(props, prefix, bound).error == InconsistentColumnProperties
    decreases bound, 1, |props|, if props == [] then 0 else props[0].0[0] - prefix
  {
    if props != [] {
      ChildrenOkIff(Beyond(props, prefix, bound), prefix + 1, bound);
      SplitAgree(props, prefix, bound);
      if Under(props, prefix, bound) != [] {
        TreeOkIff(Under(props, prefix, bound), bound - 1);
      }
    }
  }

  // ---------------------------------------------------------------- reading back

  /** No listed path ends strictly above this one. */
  ghost predicate Topmost(props: seq<Named>, path: seq<nat>) {
    forall a :: a in props ==> !(a.0 < path)
  }

  lemma UnderTopmost(props: seq<Named>, prefix: nat, bound: nat, path: seq<nat>)
    requires Ready(props, prefix, bound) && path != [] && path[0] == prefix && Topmost(props, path)
    ensures Topmost(Under(props, prefix, bound), path[1..])
  {
    assert path == [prefix] + path[1..];
    forall a | a in Under(props, prefix, bound) ensures !(a.0 < path[1..]) {
      UnderMember(props, prefix, bound, a);
      assert !(([prefix] + a.0, a.1).0 < path);
      PrefixCons(prefix, a.0, path[1..]);
    }
  }

  lemma BeyondTopmost(props: seq<Named>, prefix: nat, bound: nat, path: seq<nat>)
    requires Ready(props, prefix, bound) && Topmost(props, path)
    ensures Topmost(Beyond(props, prefix, bound), path)
  {
    forall a | a in Beyond(props, prefix, bound) ensures a in props {
      BeyondMember(props, prefix, bound, a);
    }
  }

  /** Reading on from the subtree at an index. */
  function At(children: seq<Properties>, i: nat, path: seq<nat>): Result<Properties, TreeError> {
    if i < |children| then Extracted(children[i], path) else Err(InvalidColumnPath)
  }

  lemma ChildrenAt(props: seq<Named>, prefix: nat, bound: nat, children: seq<Properties>, i: nat, path: seq<nat>)
    requires Ready(props, prefix, bound) && props != [] && Children(props, prefix, bound) == Ok(children)
    ensures Child(props, prefix, bound).Ok? && Children(Beyond(props, prefix, bound), prefix + 1, bound).Ok?
    ensures At(children, i, path) ==
            if i == 0 then Extracted(Child(props, prefix, bound).value, path)
            else At(Children(Beyond(props, prefix, bound), prefix + 1, bound).value, i - 1, path)
  {}

  /** A listed path with no other above it leads to its properties. */
  lemma {:induction false} TreeReadsBack(props: seq<Named>, bound: nat, t: Properties, x: Named)
    requires Sorted(props) && Bounded(props, bound) && Tree(props, bound) == Ok(t)
    requires x in props && Topmost(props, x.0)
    ensures Extracted(t, x.0) == Ok(x.1)
    decreases bound, 2
  {
    if props[0].0 == [] {
      assert !(props[0].0 < x.0);
    } else {
      ReadyFromZero(props, bound);
      BeyondMember(props, 0, bound, x);
      ChildrenReadBack(props, 0, bound, t.inner, x);
    }
  }

  lemma {:induction false} ChildrenReadBack(props: seq<Named>, prefix: nat, bound: nat, children: seq<Properties>, x: Named)
    requires Ready(props, prefix, bound) && Children(props, prefix, bound) == Ok(children)
    requires x in props && Topmost(props, x.0) && x.0 != [] && prefix <= x.0[0]
    ensures At(children, x.0[0] - prefix, x.0[1..]) == Ok(x.1)
    decreases bound, 1, |props|, if props == [] then 0 else props[0].0[0] - prefix
  {
    var beyond := Beyond(props, prefix, bound);
    ChildrenAt(props, prefix, bound, children, x.0[0] - prefix, x.0[1..]);
    if x.0[0] == prefix {
      ChildReadsBack(props, prefix, bound, x);
    } else {
      BeyondMember(props, prefix, bound, x);
      BeyondTopmost(props, prefix, bound, x.0);
      ChildrenReadBack(beyond, prefix + 1, bound, Children(beyond, prefix + 1, bound).value, x);
    }
  }

  lemma {:induction false} ChildReadsBack(props: seq<Named>, prefix: nat, bound: nat, x: Named)
    requires Ready(props, prefix, bound) && Child(props, prefix, bound).Ok?
    requires x in props && Topmost(props, x.0) && x.0 != [] && x.0[0] == prefix
    ensures Extracted(Child(props, prefix, bound).value, x.0[1..]) == Ok(x.1)
    decreases bound, 0
  {
    assert x.0 == [prefix] + x.0[1..];
    UnderMember(props, prefix, bound, (x.0[1..], x.1));
    UnderTopmost(props, prefix, bound, x.0);
    TreeReadsBack(Under(props, prefix, bound), bound - 1, Child(props, prefix, bound).value, (x.0[1..], x.1));
  }

  // ---------------------------------------------------------------- the rest of the tree

  predicate Passes(path: seq<nat>, q: seq<nat>) {
    q < path
  }

  /** The path branches off at the last position of `q`, to a later one. */
  predicate Turns(path: seq<nat>, q: seq<nat>) {
    0 < |q| <= |path| && path[..|q| - 1] == q[..|q| - 1] && q[|q| - 1] < path[|q| - 1]
  }

  ghost predicate Inner(props: seq<Named>, q: seq<nat>) {
    exists a :: a in props && Passes(a.0, q)
  }

  /** No listed path meets `q`, but one branches off beyond it: a position that was skipped. */
  ghost predicate Skipped(props: seq<Named>, q: seq<nat>) {
    !Inner(props, q) && exists a :: a in props && Turns(a.0, q)
  }

  /** No listed path ends at or above `q`. */
  ghost predicate Uncovered(props: seq<Named>, q: seq<nat>) {
    forall a :: a in props ==> !(a.0 <= q)
  }

  /** What is read at a position that belongs to none of the listed properties. */
  ghost predicate Shape(props: seq<Named>, q: seq<nat>, r: Result<Properties, TreeError>) {
    if q == [] || Inner(props, q) then r.Ok? && r.value.Table?
    else if Skipped(props, q) then r == Ok(Empty)
    else r == Err(InvalidColumnPath)
  }

  lemma PassesCons(h: nat, path: seq<nat>, q: seq<nat>)
    requires q != []
    ensures Passes([h] + path, q) <==> q[0] == h && Passes(path, q[1..])
  {
    assert q == [q[0]] + q[1..];
    PrefixCons(h, q[1..], path);
    assert q <= [h] + path ==> q[0] == ([h] + path)[0];
  }

  lemma TurnsCons(h: nat, path: seq<nat>, q: seq<nat>)
    requires |q| >= 2
    ensures Turns([h] + path, q) <==> q[0] == h && Turns(path, q[1..])
  {
    var n := |q| - 1;
    if |q| <= 1 + |path| {
      assert ([h] + path)[..n] == [h] + path[..n - 1] && q[..n] == [q[0]] + q[1..][..n - 1];
      assert ([h] + path)[..n] == q[..n] ==> h == q[0] && path[..n - 1] == q[1..][..n - 1] by {
        if ([h] + path)[..n] == q[..n] {
          assert ([h] + path)[..n][0] == q[..n][0] && ([h] + path)[..n][1..] == q[..n][1..];
        }
      }
    }
  }

  lemma UnderShape(props: seq<Named>, prefix: nat, bound: nat, q: seq<nat>)
    requires Ready(props, prefix, bound) && q != [] && q[0] == prefix
    ensures Inner(props, q) <==> Inner(Under(props, prefix, bound), q[1..])
    ensures |q| >= 2 ==> (Skipped(props, q) <==> Skipped(Under(props, prefix, bound), q[1..]))
    ensures Uncovered(props, q) ==> Uncovered(Under(props, prefix, bound), q[1..])
  {
    var under := Under(props, prefix, bound);
    forall a | a in under
      ensures ([prefix] + a.0, a.1) in props && (Passes([prefix] + a.0, q) <==> Passes(a.0, q[1..]))
      ensures |q| >= 2 ==> (Turns([prefix] + a.0, q) <==> Turns(a.0, q[1..]))
      ensures [prefix] + a.0 <= q <==> a.0 <= q[1..]
    {
      UnderMember(props, prefix, bound, a);
      PassesCons(prefix, a.0, q);
      if |q| >= 2 {
        TurnsCons(prefix, a.0, q);
      }
      assert q == [prefix] + q[1..];
      PrefixCons(prefix, a.0, q[1..]);
    }
    forall a | a in props && (Passes(a.0, q) || (|q| >= 2 && Turns(a.0, q)))
      ensures (a.0[1..], a.1) in under && (Passes(a.0, q) <==> Passes(a.0[1..], q[1..]))
      ensures |q| >= 2 ==> (Turns(a.0, q) <==> Turns(a.0[1..], q[1..]))
    {
      FromUnder(props, prefix, bound, q, a);
    }
  }

  lemma FromUnder(props: seq<Named>, prefix: nat, bound: nat, q: seq<nat>, a: Named)
    requires Ready(props, prefix, bound) && q != [] && q[0] == prefix && a in props
    requires Passes(a.0, q) || (|q| >= 2 && Turns(a.0, q))
    ensures a.0 != [] && (a.0[1..], a.1) in Under(props, prefix, bound)
    ensures Passes(a.0, q) <==> Passes(a.0[1..], q[1..])
    ensures |q| >= 2 ==> (Turns(a.0, q) <==> Turns(a.0[1..], q[1..]))
  {
    assert a.0 == [a.0[0]] + a.0[1..];
    PassesCons(a.0[0], a.0[1..], q);
    if |q| >= 2 {
      TurnsCons(a.0[0], a.0[1..], q);
    }
    UnderMember(props, prefix, bound, (a.0[1..], a.1));
  }

  lemma BeyondShape(props: seq<Named>, prefix: nat, bound: nat, q: seq<nat>)
    requires Ready(props, prefix, bound) && q != [] && q[0] > prefix
    ensures Inner(props, q) <==> Inner(Beyond(props, prefix, bound), q)
    ensures Skipped(props, q) <==> Skipped(Beyond(props, prefix, bound), q)
    ensures Uncovered(props, q) ==> Uncovered(Beyond(props, prefix, bound), q)
  {
    var beyond := Beyond(props, prefix, bound);
    forall a ensures a in beyond <==> a in props && a.0 != [] && a.0[0] != prefix {
      BeyondMember(props, prefix, bound, a);
    }
    forall a | a in props && (Passes(a.0, q) || Turns(a.0, q)) ensures a in beyond {
      BeyondMember(props, prefix, bound, a);
      assert |q| >= 2 && Turns(a.0, q) ==> a.0[..|q| - 1][0] == q[..|q| - 1][0];
    }
  }

  /** Positions that belong to no listed properties: tables above listed paths, `Empty` where one was skipped, nothing else. */
  lemma {:induction false} TreeShape(props: seq<Named>, bound: nat, t: Properties, q: seq<nat>)
    requires Sorted(props) && Bounded(props, bound) && Tree(props, bound) == Ok(t) && Uncovered(props, q)
    ensures Shape(props, q, Extracted(t, q))
    decreases bound, 2
  {
    assert props != [] ==> !(props[0].0 <= q);
    ReadyFromZero(props, bound);
    if q != [] {
      ChildrenShape(props, 0, bound, t.inner, q);
    }
  }

  lemma {:induction false} ChildrenShape(props: seq<Named>, prefix: nat, bound: nat, children: seq<Properties>, q: seq<nat>)
    requires Ready(props, prefix, bound) && Children(props, prefix, bound) == Ok(children)
    requires q != [] && prefix <= q[0] && Uncovered(props, q)
    ensures Shape(props, q, At(children, q[0] - prefix, q[1..]))
    decreases bound, 1, |props|, if props == [] then 0 else props[0].0[0] - prefix
  {
    if props != [] {
      var beyond := Beyond(props, prefix, bound);
      ChildrenAt(props, prefix, bound, children, q[0] - prefix, q[1..]);
      if q[0] == prefix {
        ChildShape(props, prefix, bound, q);
      } else {
        BeyondShape(props, prefix, bound, q);
        ChildrenShape(beyond, prefix + 1, bound, Children(beyond, prefix + 1, bound).value, q);
      }
    }
  }

  lemma {:induction false} ChildShape(props: seq<Named>, prefix: nat, bound: nat, q: seq<nat>)
    requires Ready(props, prefix, bound) && props != [] && Child(props, prefix, bound).Ok?
    requires q != [] && q[0] == prefix && Uncovered(props, q)
    ensures Shape(props, q, Extracted(Child(props, prefix, bound).value, q[1..]))
    decreases bound, 0
  {
    var under := Under(props, prefix, bound);
    UnderShape(props, prefix, bound, q);
    if under == [] {
      if |q| == 1 {
        NoneUnder(props, prefix, bound, q);
      }
    } else {
      TreeShape(under, bound - 1, Child(props, prefix, bound).value, q[1..]);
      if |q| == 1 {
        assert under[0] in under && Passes(under[0].0, q[1..]);
      }
    }
  }

  lemma NoneUnder(props: seq<Named>, prefix: nat, bound: nat, q: seq<nat>)
    requires Ready(props, prefix, bound) && props != [] && Under(props, prefix, bound) == [] && q == [prefix]
    ensures exists a :: a in props && Turns(a.0, q)
  {
    var a := props[0];
    assert a in props;
    BeyondMember(props, prefix, bound, a);
    assert Turns(a.0, q);
  }

  // ---------------------------------------------------------------- when everything is read back

  ghost predicate PrefixFree(props: seq<Named>) {
    forall a, b :: a in props && b in props ==> !(a.0 < b.0)
  }

  lemma {:induction false} ExtractedConcat(t: Properties, p: seq<nat>, q: seq<nat>)
    requires Extracted(t, p).Ok?
    ensures Extracted(t, p + q) == Extracted(Extracted(t, p).value, q)
  {
    if p == [] {
      assert p + q == q;
    } else {
      ExtractedConcat(t.inner[p[0]], p[1..], q);
      assert (p + q)[1..] == p[1..] + q;
    }
  }

  /** Below a tree there are only smaller ones. */
  lemma {:induction false} ExtractedSmaller(t: Properties, p: seq<nat>)
    requires p != [] && Extracted(t, p).Ok?
    ensures Extracted(t, p).value < t
  {
    if |p| > 1 {
      ExtractedSmaller(t.inner[p[0]], p[1..]);
    }
  }

  lemma {:induction false} TopmostAbove(props: seq<Named>, a: Named) returns (top: Named)
    requires a in props
    ensures top in props && top.0 <= a.0 && Topmost(props, top.0)
    decreases |a.0|
  {
    if Topmost(props, a.0) {
      top := a;
    } else {
      var b :| b in props && b.0 < a.0;
      top := TopmostAbove(props, b);
    }
  }

  /** The tree gives back every listed property if and only if no listed path is strictly above another. */
  lemma AllReadBackIff(props: seq<Named>, bound: nat, t: Properties)
    requires Sorted(props) && Bounded(props, bound) && Tree(props, bound) == Ok(t)
    ensures (forall x :: x in props ==> Extracted(t, x.0) == Ok(x.1)) <==> PrefixFree(props)
  {
    if PrefixFree(props) {
      forall x | x in props ensures Extracted(t, x.0) == Ok(x.1) {
        TreeReadsBack(props, bound, t, x);
      }
    } else {
      var a, x :| a in props && x in props && a.0 < x.0;
      var top := TopmostAbove(props, a);
      TreeReadsBack(props, bound, t, top);
      TreeOkIff(props, bound);
      var rest := x.0[|top.0|..];
      assert x.0 == top.0 + rest && rest != [];
      ExtractedConcat(t, top.0, rest);
      if Extracted(top.1, rest).Ok? {
        ExtractedSmaller(top.1, rest);
      }
      assert Extracted(t, x.0) != Ok(x.1);
    }
  }

  // ---------------------------------------------------------------- producing the tree

  /** The paths with their first `depth` positions dropped. */
  ghost function Stripped(props: seq<Named>, depth: nat): seq<Named>
    requires forall i :: 0 <= i < |props| ==> depth <= |props[i].0|
  {
    seq(|props|, i requires 0 <= i < |props| => (props[i].0[depth..], props[i].1))
  }

  ghost function Prepended(front: seq<Properties>, r: Result<seq<Properties>, TreeError>): Result<seq<Properties>,
                           TreeError> {
    if r.Ok? then Ok(front + r.value) else r
  }

  lemma PrependedNothing(r: Result<seq<Properties>, TreeError>)
    ensures Prepended([], r) == r
  {
    if r.Ok? {
      assert [] + r.value == r.value;
    }
  }

  lemma {:induction false} RunIs(props: seq<Named>, prefix: nat, n: nat)
    requires StartsFrom(props, prefix) && Sorted(props) && n <= |props|
    requires forall i :: 0 <= i < n ==> props[i].0[0] == prefix
    requires n < |props| ==> props[n].0[0] != prefix
    ensures Run(props, prefix) == n
  {
    if n > 0 {
      RunIs(props[1..], prefix, n - 1);
    }
  }

  /** The group between `begin` and `end` is what is under `prefix`, and the rest is beyond it. */
  lemma GroupIs(props: seq<Named>, depth: nat, prefix: nat, n: nat, bound: nat)
    requires forall i :: 0 <= i < |props| ==> depth < |props[i].0|
    requires Ready(Stripped(props, depth), prefix, bound) && n <= |props|
    requires forall i :: 0 <= i < n ==> props[i].0[depth] == prefix
    requires n < |props| ==> props[n].0[depth] != prefix
    ensures Under(Stripped(props, depth), prefix, bound) == Stripped(props[..n], depth + 1)
    ensures Beyond(Stripped(props, depth), prefix, bound) == Stripped(props[n..], depth)
  {
    RunIs(Stripped(props, depth), prefix, n);
  }

  /** One position further: what was to be prepended now includes the subtree at `prefix`. */
  lemma ChildrenStep(front: seq<Properties>, rest: seq<Named>, prefix: nat, bound: nat)
    requires Ready(rest, prefix, bound) && rest != []
    ensures var child := Child(rest, prefix, bound);
            Prepended(front, Children(rest, prefix, bound)) ==
            if child.Err? then Err(child.error)
            else Prepended(front + [child.value], Children(Beyond(rest, prefix, bound), prefix + 1, bound))
  {
    var child, tail := Child(rest, prefix, bound), Children(Beyond(rest, prefix, bound), prefix + 1, bound);
    if child.Ok? && tail.Ok? {
      assert front + ([child.value] + tail.value) == front + [child.value] + tail.value;
    }
  }

  method ProduceNestedTuple(props: seq<Named>, depth: nat, ghost bound: nat) returns (r: Result<Properties, TreeError>)
    requires forall i :: 0 <= i < |props| ==> depth <= |props[i].0|
    requires Sorted(Stripped(props, depth)) && Bounded(Stripped(props, depth), bound)
    ensures r == Tree(Stripped(props, depth), bound)
    decreases bound, 1
  {
    if |props| > 0 && |props[0].0| == depth {
      var first := props[0].1;
      for i := 1 to |props|
        invariant forall j :: 0 <= j < i ==> props[j].1 == first
      {
        if first != props[i].1 {
          assert Stripped(props, depth)[i].1 == props[i].1;
          return Err(InconsistentColumnProperties);
        }
      }
      return Ok(first);
    }
    ReadyFromZero(Stripped(props, depth), bound);
    forall i | 0 <= i < |props| ensures depth < |props[i].0| {
      assert Stripped(props, depth)[i].0 != [];
    }
    var children := ProduceChildren(props, depth, bound);
    r := if children.Ok? then Ok(Table(children.value)) else Err(children.error);
  }

  /** `result` holds the subtrees before `prefix`, and the paths from `begin` on give the others. */
  ghost predicate Continues(props: seq<Named>, depth: nat, begin: nat, prefix: nat, bound: nat, result: seq<Properties>,
                            whole: Result<seq<Properties>, TreeError>)
    requires begin <= |props| && forall i :: 0 <= i < |props| ==> depth < |props[i].0|
  {
    && Ready(Stripped(props[begin..], depth), prefix, bound)
    && Prepended(result, Children(Stripped(props[begin..], depth), prefix, bound)) == whole
  }

  /** The paths from `begin` to `end` are those that go through position `prefix`. */
  ghost predicate IsGroup(props: seq<Named>, depth: nat, begin: nat, end: nat, prefix: nat)
    requires begin <= end <= |props| && forall i :: 0 <= i < |props| ==> depth < |props[i].0|
  {
    && (forall i :: begin <= i < end ==> props[i].0[depth] == prefix)
    && (end < |props| ==> props[end].0[depth] != prefix)
  }

  lemma GroupReady(props: seq<Named>, depth: nat, begin: nat, end: nat, prefix: nat, bound: nat, result: seq<Properties>,
                   whole: Result<seq<Properties>, TreeError>)
    requires begin <= end <= |props| && begin < |props| && forall i :: 0 <= i < |props| ==> depth < |props[i].0|
    requires Continues(props, depth, begin, prefix, bound, result, whole) && IsGroup(props, depth, begin, end, prefix)
    ensures begin < end ==>
              && bound > 0 && Sorted(Stripped(props[begin..end], depth + 1))
              && Bounded(Stripped(props[begin..end], depth + 1), bound - 1)
    ensures begin == end ==> Continues(props, depth, end, prefix + 1, bound, result + [Empty], whole)
    ensures begin < end ==>
              var child := Tree(Stripped(props[begin..end], depth + 1), bound - 1);
              if child.Err? then whole == Err(child.error)
              else Continues(props, depth, end, prefix + 1, bound, result + [child.value], whole)
  {
    GroupIs(props[begin..], depth, prefix, end - begin, bound);
    assert props[begin..][..end - begin] == props[begin..end] && props[begin..][end - begin..] == props[end..];
    ChildrenStep(result, Stripped(props[begin..], depth), prefix, bound);
  }

  lemma PositionsAhead(props: seq<Named>, depth: nat, begin: nat, prefix: nat, bound: nat, result: seq<Properties>,
                       whole: Result<seq<Properties>, TreeError>)
    requires begin < |props| && forall i :: 0 <= i < |props| ==> depth < |props[i].0|
    requires Continues(props, depth, begin, prefix, bound, result, whole)
    ensures prefix <= props[begin].0[depth]
  {
    assert Stripped(props[begin..], depth)[0].0[0] == props[begin].0[depth];
  }

  /** The loop over positions. */
  method ProduceChildren(props: seq<Named>, depth: nat, ghost bound: nat) returns (r: Result<seq<Properties>, TreeError>)
    requires forall i :: 0 <= i < |props| ==> depth < |props[i].0|
    requires Ready(Stripped(props, depth), 0, bound)
    ensures r == Children(Stripped(props, depth), 0, bound)
    decreases bound, 0
  {
    var prefix, begin, end := 0, 0, 0;
    var result: seq<Properties> := [];
    ghost var whole := Children(Stripped(props, depth), 0, bound);
    PrependedNothing(whole);
    assert props[0..] == props;
    while end < |props|
      invariant 0 <= begin == end <= |props| && Continues(props, depth, begin, prefix, bound, result, whole)
      decreases |props| - end, if end < |props| then props[end].0[depth] - prefix else 0
    {
      PositionsAhead(props, depth, begin, prefix, bound, result, whole);
      while end < |props| && prefix == props[end].0[depth]
        invariant begin <= end <= |props|
        invariant forall i :: begin <= i < end ==> props[i].0[depth] == prefix
      {
        end := end + 1;
      }
      GroupReady(props, depth, begin, end, prefix, bound, result, whole);
      prefix := prefix + 1;
      if begin == end {
        result := result + [Empty];
        continue;
      }
      var child := ProduceNestedTuple(props[begin..end], depth + 1, bound - 1);
      if child.Err? {
        return Err(child.error);
      }
      result := result + [child.value];
      begin := end;
    }
    assert result + [] == result;
    r := Ok(result);
  }

  // ---------------------------------------------------------------- from column paths

  predicate HasKeyPath(properties: seq<(ColumnPath, Properties)>) {
    exists i :: 0 <= i < |properties| && properties[i].0.KeyPath?
  }

  /** The list as named paths. */
  function NamedPaths(properties: seq<(ColumnPath, Properties)>): (named: seq<Named>)
    requires !HasKeyPath(properties)
    ensures |named| == |properties| && forall i :: 0 <= i < |named| ==> properties[i] == (ValuePath(named[i].0), named[i].1)
  {
    seq(|properties|, i requires 0 <= i < |properties| => (properties[i].0.path, properties[i].1))
  }

  lemma SameMembers(a: seq<Named>, b: seq<Named>)
    requires multiset(a) == multiset(b)
    ensures forall x :: x in a <==> x in b
  {
    forall x ensures x in a <==> x in b {
      assert x in multiset(a) <==> x in multiset(b);
    }
  }

  lemma PathOrder()
    ensures TotalPreorder(PathLe)
  {
    forall a, b ensures PathLe(a, b) || PathLe(b, a) {
      LexTotal(a.0, b.0);
    }
    forall a, b, c | PathLe(a, b) && PathLe(b, c) ensures PathLe(a, c) {
      LexTransitive(a.0, b.0, c.0);
    }
  }

  lemma {:induction false} SomeBound(props: seq<Named>) returns (bound: nat)
    ensures Bounded(props, bound)
  {
    if props == [] {
      bound := 0;
    } else {
      var rest := SomeBound(props[1..]);
      bound := if |props[0].0| > rest then |props[0].0| else rest;
      assert props == [props[0]] + props[1..];
    }
  }

  /** What the tree of a list of paths has to be. */
  ghost predicate Describes(t: Properties, props: seq<Named>) {
    && (forall x :: x in props && Topmost(props, x.0) ==> Extracted(t, x.0) == Ok(x.1))
    && ((forall x :: x in props ==> Extracted(t, x.0) == Ok(x.1)) <==> PrefixFree(props))
    && (forall q :: Uncovered(props, q) ==> Shape(props, q, Extracted(t, q)))
  }

  lemma TreeDescribes(props: seq<Named>, bound: nat, t: Properties)
    requires Sorted(props) && Bounded(props, bound) && Tree(props, bound) == Ok(t)
    ensures Describes(t, props)
  {
    forall x | x in props && Topmost(props, x.0) ensures Extracted(t, x.0) == Ok(x.1) {
      TreeReadsBack(props, bound, t, x);
    }
    AllReadBackIff(props, bound, t);
    forall q | Uncovered(props, q) ensures Shape(props, q, Extracted(t, q)) {
      TreeShape(props, bound, t, q);
    }
  }

  lemma SameShape(a: seq<Named>, b: seq<Named>, q: seq<nat>, r: Result<Properties, TreeError>)
    requires forall x :: x in a <==> x in b
    ensures Shape(a, q, r) <==> Shape(b, q, r)
  {
    assert Inner(a, q) <==> Inner(b, q);
    assert Skipped(a, q) <==> Skipped(b, q);
  }

  lemma SameDescription(t: Properties, a: seq<Named>, b: seq<Named>)
    requires (forall x :: x in a <==> x in b) && Describes(t, a)
    ensures Describes(t, b)
  {
    forall x | x in b && Topmost(b, x.0) ensures Extracted(t, x.0) == Ok(x.1) {
      assert Topmost(a, x.0);
    }
    assert PrefixFree(a) <==> PrefixFree(b);
    forall q | Uncovered(b, q) ensures Shape(b, q, Extracted(t, q)) {
      assert Uncovered(a, q);
      SameShape(a, b, q, Extracted(t, q));
    }
  }

  /**
   Fails on an id path; otherwise succeeds exactly when prefix-related paths agree. The tree gives back what was put in
   wherever no other path lies above, for the whole list exactly when no path is strictly above another, and it
   holds `Empty` at skipped positions. It terminates and stays within every path, whatever paths it is given.
   */
  method FromPaths(properties: seq<(ColumnPath, Properties)>) returns (r: Result<Properties, TreeError>)
    ensures HasKeyPath(properties) <==> r == Err(IdInTableProperties)
    ensures !HasKeyPath(properties) ==> (r.Ok? <==> Agree(NamedPaths(properties)))
    ensures r.Err? ==> r.error == (if HasKeyPath(properties) then IdInTableProperties else InconsistentColumnProperties)
    ensures r.Ok? ==> !HasKeyPath(properties) && Describes(r.value, NamedPaths(properties))
  {
    var named: seq<Named> := [];
    for i := 0 to |properties|
      invariant |named| == i
      invariant forall j :: 0 <= j < i ==> properties[j] == (ValuePath(named[j].0), named[j].1)
    {
      if properties[i].0.KeyPath? {
        return Err(IdInTableProperties);
      }
      named := named + [(properties[i].0.path, properties[i].1)];
    }
    assert named == NamedPaths(properties);
    PathOrder();
    var sorted := SortUnstable(PathLe, named);
    SameMembers(sorted, named);
    ghost var bound := SomeBound(sorted);
    assert Stripped(sorted, 0) == sorted;
    r := ProduceNestedTuple(sorted, 0, bound);
    TreeOkIff(sorted, bound);
    assert Agree(sorted) <==> Agree(named);
    if r.Ok? {
      TreeDescribes(sorted, bound, r.value);
      SameDescription(r.value, sorted, named);
    }
  }
}
