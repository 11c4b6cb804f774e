/**
 * The combinatorial operators of the genetic tessellation engine: the greedy builder, the
 * polygon check it uses, crossover, mutation and the final emission of the best candidate.
 * Every random draw of the source is a parameter whose precondition is the draw's range.
 */
module Tessellation {
  import opened Geometry

  /** A polygon is an ordered list of point indices, closed into a loop. */
  type Polygon = seq<nat>

  /** A candidate solution: an ordered list of polygons. */
  type Tess = seq<Polygon>

  function Min(a: int, b: int): int { if a <= b then a else b }

  function Max(a: int, b: int): int { if a >= b then a else b }

  /** Every index of the list names one of n points. */
  predicate IndicesBelow(indices: seq<nat>, n: nat) {
    forall i :: 0 <= i < |indices| ==> indices[i] < n
  }

  /** Every index of every polygon names one of n points. */
  predicate TessIndicesBelow(t: Tess, n: nat) {
    forall k :: 0 <= k < |t| ==> IndicesBelow(t[k], n)
  }

  /** No value occurs twice. */
  predicate Distinct<T(==)>(s: seq<T>) {
    forall i, j :: 0 <= i < j < |s| ==> s[i] != s[j]
  }

  /** The points a polygon names, in its order (numpy's fancy indexing `points[indices]`). */
  function Vertices(points: seq<Point>, poly: Polygon): (vs: seq<Point>)
    requires IndicesBelow(poly, |points|)
    ensures |vs| == |poly| && forall i :: 0 <= i < |poly| ==> vs[i] == points[poly[i]]
  {
    seq(|poly|, i requires 0 <= i < |poly| => points[poly[i]])
  }

  /** A polygon is valid when its points, in its order, pass the convexity test. */
  predicate ValidPolygon(points: seq<Point>, poly: Polygon)
    requires IndicesBelow(poly, |points|)
  {
    Convex(Vertices(points, poly))
  }

  /** `_is_valid_polygon`. */
  method IsValidPolygon(points: seq<Point>, indices: Polygon) returns (valid: bool)
    requires IndicesBelow(indices, |points|)
    ensures valid <==> ValidPolygon(points, indices)
    ensures valid ==> |indices| >= 3
  {
    valid := IsConvex(Vertices(points, indices));
  }

  /** The polygons laid end to end. */
  function Flatten(t: Tess): seq<nat> {
    if t == [] then [] else Flatten(t[..|t| - 1]) + t[|t| - 1]
  }

  lemma FlattenAppend(t: Tess, p: Polygon)
    ensures Flatten(t + [p]) == Flatten(t) + p
  {
    assert (t + [p])[..|t|] == t;
  }

  predicate IsPrefix(a: seq<nat>, b: seq<nat>) {
    |a| <= |b| && b[..|a|] == a
  }

  /** Polygon k starts at this offset of the flattened list. */
  function Offset(t: Tess, k: nat): nat
    requires k <= |t|
  {
    |Flatten(t[..k])|
  }

  lemma {:induction false} FlattenTake(t: Tess, k: nat)
    requires k < |t|
    ensures Flatten(t[..k + 1]) == Flatten(t[..k]) + t[k]
  {
    assert t[..k + 1][..k] == t[..k];
  }

  /** Polygon k occupies the positions [Offset(k), Offset(k) + |t[k]|) of the flattened list. */
  lemma {:induction false} FlattenSlice(t: Tess, k: nat)
    requires k < |t|
    ensures Offset(t, k) + |t[k]| <= |Flatten(t)|
    ensures Flatten(t)[Offset(t, k)..Offset(t, k) + |t[k]|] == t[k]
  {
    if k == |t| - 1 {
      assert t[..k] == t[..|t| - 1];
    } else {
      var init := t[..|t| - 1];
      assert init[..k] == t[..k];
      FlattenSlice(init, k);
    }
  }

  lemma {:induction false} OffsetMonotone(t: Tess, j: nat, k: nat)
    requires j < k <= |t|
    ensures Offset(t, j) + |t[j]| <= Offset(t, k)
    decreases k - j
  {
    FlattenTake(t, j);
    if j + 1 < k {
      OffsetMonotone(t, j + 1, k);
    }
  }

  /** Two polygons share no index. */
  predicate DisjointPolygons(p: Polygon, q: Polygon) {
    forall i, j :: 0 <= i < |p| && 0 <= j < |q| ==> p[i] != q[j]
  }

  /** The polygons are pairwise disjoint and none repeats an index. */
  predicate PairwiseDisjoint(t: Tess) {
    (forall k :: 0 <= k < |t| ==> Distinct(t[k])) &&
    forall j, k :: 0 <= j < k < |t| ==> DisjointPolygons(t[j], t[k])
  }

  /**
   * When the polygons, laid end to end, repeat no index, they are pairwise disjoint: each
   * polygon is its own slice of the flattened list.
   */
  lemma {:induction false} DistinctFlattenDisjoint(t: Tess)
    requires Distinct(Flatten(t))
    ensures PairwiseDisjoint(t)
  {
    var f := Flatten(t);
    forall k | 0 <= k < |t|
      ensures Distinct(t[k])
    {
      FlattenSlice(t, k);
      var o := Offset(t, k);
      forall a, b | 0 <= a < b < |t[k]|
        ensures t[k][a] != t[k][b]
      {
        assert t[k][a] == f[o + a] && t[k][b] == f[o + b];
      }
    }
    forall j, k | 0 <= j < k < |t|
      ensures DisjointPolygons(t[j], t[k])
    {
      FlattenSlice(t, j);
      FlattenSlice(t, k);
      OffsetMonotone(t, j, k);
      var oj, ok := Offset(t, j), Offset(t, k);
      forall a, b | 0 <= a < |t[j]| && 0 <= b < |t[k]|
        ensures t[j][a] != t[k][b]
      {
        assert t[j][a] == f[oj + a] && t[k][b] == f[ok + b];
      }
    }
  }

  /** Every polygon has at least three indices, all in range, and is valid. */
  predicate AllValid(points: seq<Point>, t: Tess) {
    forall k :: 0 <= k < |t| ==> |t[k]| >= 3 && IndicesBelow(t[k], |points|) && ValidPolygon(points, t[k])
  }

  lemma ValidAppend(points: seq<Point>, t: Tess, p: Polygon)
    requires AllValid(points, t)
    requires |p| >= 3 && IndicesBelow(p, |points|) && ValidPolygon(points, p)
    ensures AllValid(points, t + [p])
  {
    forall k | 0 <= k < |t| + 1
      ensures |(t + [p])[k]| >= 3 && IndicesBelow((t + [p])[k], |points|) && ValidPolygon(points, (t + [p])[k])
    {
      if k < |t| {
        assert (t + [p])[k] == t[k];
      }
    }
  }

  /** Every polygon but possibly the last has at most six indices. */
  predicate SmallGroups(t: Tess) {
    forall k :: 0 <= k < |t| ==> |t[k]| <= 6
  }

  lemma SmallAppend(t: Tess, p: Polygon)
    requires SmallGroups(t) && |p| <= 6
    ensures SmallGroups(t + [p])
  {
    assert forall k :: 0 <= k < |t| ==> (t + [p])[k] == t[k];
  }

  lemma PrefixOfSplit(a: seq<nat>, rest: seq<nat>, b: seq<nat>)
    requires a + rest == b
    ensures IsPrefix(a, b)
  {
    assert b[..|a|] == a;
  }

  /** The size draws of the builder are in the range `randint(3, hi)` gives. */
  ghost predicate SizeDraws(draw: (nat, nat) -> nat) {
    forall step: nat, hi: nat :: 3 <= hi ==> 3 <= draw(step, hi) <= hi
  }

  /** Keeping a valid group of at most six indices cut off the front of the rest keeps the loop's invariant. */
  lemma KeepGroup(points: seq<Point>, indices: seq<nat>, groups: Tess, rest: seq<nat>, size: nat)
    requires Flatten(groups) + rest == indices
    requires IndicesBelow(rest, |points|)
    requires AllValid(points, groups) && SmallGroups(groups)
    requires 3 <= size <= 6 && size <= |rest| && ValidPolygon(points, rest[..size])
    ensures Flatten(groups + [rest[..size]]) + rest[size..] == indices
    ensures IndicesBelow(rest[size..], |points|)
    ensures AllValid(points, groups + [rest[..size]]) && SmallGroups(groups + [rest[..size]])
  {
    var polygon := rest[..size];
    FlattenAppend(groups, polygon);
    ValidAppend(points, groups, polygon);
    SmallAppend(groups, polygon);
    assert polygon + rest[size..] == rest;
  }

  /** The loop keeps the first group it cuts: more than three indices, and the first drawn group is valid. */
  ghost predicate FirstGroupKept(points: seq<Point>, indices: seq<nat>, draw: (nat, nat) -> nat)
    requires IndicesBelow(indices, |points|) && SizeDraws(draw)
  {
    |indices| > 3 && ValidPolygon(points, indices[..draw(0, Min(6, |indices|))])
  }

  /**
   * The builder returns, as its one polygon, the very list it was given: the loop kept no
   * group (so it never rebound `indices` to a slice) and the whole list is valid.
   */
  ghost predicate KeepsInput(points: seq<Point>, indices: seq<nat>, draw: (nat, nat) -> nat)
    requires IndicesBelow(indices, |points|) && SizeDraws(draw)
  {
    !FirstGroupKept(points, indices, draw) && |indices| >= 3 && ValidPolygon(points, indices)
  }

  /**
   * Group i was cut while more than three indices remained, with the size drawn at step i
   * for the indices left at that point.
   */
  ghost predicate DrawnSizes(indices: seq<nat>, groups: Tess, draw: (nat, nat) -> nat) {
    forall i :: 0 <= i < |groups| ==>
      |indices| - Offset(groups, i) > 3 && |groups[i]| == draw(i, Min(6, |indices| - Offset(groups, i)))
  }

  /** The loop stops at step `step`: at most three indices remain, or the group drawn next is not valid. */
  ghost predicate GreedyStops(points: seq<Point>, rest: seq<nat>, step: nat, draw: (nat, nat) -> nat)
    requires IndicesBelow(rest, |points|) && SizeDraws(draw)
  {
    |rest| <= 3 || !ValidPolygon(points, rest[..draw(step, Min(6, |rest|))])
  }

  /**
   * The outcome of the builder's loop: valid groups of the drawn sizes cut off the front of
   * the indices, one per step, up to the first step at which the loop stops.
   */
  ghost predicate GreedyCut(points: seq<Point>, indices: seq<nat>, draw: (nat, nat) -> nat, groups: Tess, rest: seq<nat>)
    requires SizeDraws(draw)
  {
    && Flatten(groups) + rest == indices
    && IndicesBelow(rest, |points|)
    && AllValid(points, groups)
    && DrawnSizes(indices, groups, draw)
    && GreedyStops(points, rest, |groups|, draw)
  }

  /** Cutting the next group of the drawn size keeps the record of drawn sizes. */
  lemma DrawnSizesAppend(indices: seq<nat>, groups: Tess, rest: seq<nat>, draw: (nat, nat) -> nat, size: nat)
    requires Flatten(groups) + rest == indices
    requires DrawnSizes(indices, groups, draw)
    requires |rest| > 3 && size == draw(|groups|, Min(6, |rest|)) && size <= |rest|
    ensures DrawnSizes(indices, groups + [rest[..size]], draw)
  {
    var t := groups + [rest[..size]];
    forall i | 0 <= i < |t|
      ensures |indices| - Offset(t, i) > 3 && |t[i]| == draw(i, Min(6, |indices| - Offset(t, i)))
    {
      OffsetAppend(groups, rest[..size], i);
      if i == |groups| {
        assert Offset(t, i) == |indices| - |rest|;
      }
    }
  }

  /** Appending a polygon leaves the offsets of the earlier ones alone; the new one starts where they end. */
  lemma OffsetAppend(t: Tess, p: Polygon, i: nat)
    requires i <= |t|
    ensures Offset(t + [p], i) == Offset(t, i) && (i < |t| ==> (t + [p])[i] == t[i])
    ensures i == |t| ==> Offset(t, i) == |Flatten(t)| && (t + [p])[i] == p
  {
    assert (t + [p])[..i] == t[..i];
    assert t[..|t|] == t;
  }

  /**
   * The loop of `_create_random_tessellation`: while more than three indices remain, cut a
   * group of `draw(step, min(6, remaining))` indices off the front and keep it if it is a
   * valid polygon; stop at the first group that is not.
   */
  method CutGroups(points: seq<Point>, indices: seq<nat>, draw: (nat, nat) -> nat)
    returns (groups: Tess, rest: seq<nat>)
    requires IndicesBelow(indices, |points|)
    requires SizeDraws(draw)
    ensures GreedyCut(points, indices, draw, groups, rest)
    ensures SmallGroups(groups)
    ensures groups == [] <==> !FirstGroupKept(points, indices, draw)
    ensures groups == [] ==> rest == indices
  {
    groups := [];
    rest := indices;
    var step := 0;
    while |rest| > 3
      invariant Flatten(groups) + rest == indices
      invariant IndicesBelow(rest, |points|)
      invariant AllValid(points, groups) && SmallGroups(groups)
      invariant step == |groups| && DrawnSizes(indices, groups, draw)
      invariant groups == [] ==> rest == indices
      invariant groups != [] ==> FirstGroupKept(points, indices, draw)
      decreases |rest|
    {
      var size := draw(step, Min(6, |rest|));
      var polygon := rest[..size];
      var valid := IsValidPolygon(points, polygon);
      if !valid {
        assert groups == [] ==> !FirstGroupKept(points, indices, draw);
        assert GreedyStops(points, rest, |groups|, draw);
        return;
      }
      assert groups == [] ==> FirstGroupKept(points, indices, draw);
      KeepGroup(points, indices, groups, rest, size);
      DrawnSizesAppend(indices, groups, rest, draw, size);
      step := step + 1;
      groups := groups + [polygon];
      rest := rest[size..];
    }
  }

  /**
   * What the builder promises of a tessellation of indices: valid polygons, all but the last of
   * at most six indices, laid end to end along a prefix of the indices, covering them all when
   * the last polygon is longer than six, and pairwise disjoint when the indices are distinct.
   */
  ghost predicate Tessellates(points: seq<Point>, indices: seq<nat>, t: Tess) {
    && AllValid(points, t)
    && (forall k :: 0 <= k < |t| - 1 ==> |t[k]| <= 6)
    && IsPrefix(Flatten(t), indices)
    && (t != [] && |t[|t| - 1]| > 6 ==> Flatten(t) == indices)
    && (Distinct(indices) ==> PairwiseDisjoint(t))
  }

  /**
   * The end of `_create_random_tessellation`: the remaining list becomes one more polygon if
   * it has at least three indices and is valid. It is tested whole even after the loop stopped
   * on an invalid group, so the last polygon can have more than six indices.
   */
  method CloseTessellation(points: seq<Point>, indices: seq<nat>, groups: Tess, rest: seq<nat>)
    returns (tessellation: Tess)
    requires Flatten(groups) + rest == indices
    requires IndicesBelow(rest, |points|)
    requires AllValid(points, groups) && SmallGroups(groups)
    ensures tessellation == if |rest| >= 3 && ValidPolygon(points, rest) then groups + [rest] else groups
    ensures Tessellates(points, indices, tessellation)
  {
    var valid := false;
    if |rest| >= 3 {
      valid := IsValidPolygon(points, rest);
    }
    if valid {
      tessellation := groups + [rest];
      CloseWithRest(points, indices, groups, rest);
    } else {
      tessellation := groups;
      CloseWithoutRest(points, indices, groups, rest);
    }
  }

  /** The tessellation when the remaining list becomes its last polygon. */
  lemma CloseWithRest(points: seq<Point>, indices: seq<nat>, groups: Tess, rest: seq<nat>)
    requires Flatten(groups) + rest == indices
    requires AllValid(points, groups) && SmallGroups(groups)
    requires |rest| >= 3 && IndicesBelow(rest, |points|) && ValidPolygon(points, rest)
    ensures Tessellates(points, indices, groups + [rest])
  {
    var t := groups + [rest];
    FlattenAppend(groups, rest);
    ValidAppend(points, groups, rest);
    assert t[..|groups|] == groups;
    if Distinct(indices) {
      DistinctFlattenDisjoint(t);
    }
  }

  /** The tessellation when the remaining list is dropped. */
  lemma CloseWithoutRest(points: seq<Point>, indices: seq<nat>, groups: Tess, rest: seq<nat>)
    requires Flatten(groups) + rest == indices
    requires AllValid(points, groups) && SmallGroups(groups)
    ensures Tessellates(points, indices, groups)
  {
    PrefixOfSplit(Flatten(groups), rest, indices);
    if Distinct(indices) {
      assert Distinct(Flatten(groups));
      DistinctFlattenDisjoint(groups);
    }
  }

  /** The builder's result: the greedy cut's groups, then the rest when it is a valid polygon. */
  ghost predicate GreedyTessellation(points: seq<Point>, indices: seq<nat>, draw: (nat, nat) -> nat, tessellation: Tess)
    requires SizeDraws(draw)
  {
    exists groups: Tess, rest: seq<nat> ::
      (GreedyCut(points, indices, draw, groups, rest) &&
       tessellation == if |rest| >= 3 && ValidPolygon(points, rest) then groups + [rest] else groups)
  }

  /**
   * `_create_random_tessellation`: the groups the loop cuts, then the remaining list. The flag
   * says whether the one polygon returned is the input list itself, which the source appends
   * without copying.
   */
  method CreateRandomTessellation(points: seq<Point>, indices: seq<nat>, draw: (nat, nat) -> nat)
    returns (tessellation: Tess, keepsInput: bool)
    requires IndicesBelow(indices, |points|)
    requires SizeDraws(draw)
    ensures GreedyTessellation(points, indices, draw, tessellation)
    ensures keepsInput <==> KeepsInput(points, indices, draw)
    ensures keepsInput ==> tessellation == [indices]
    ensures Tessellates(points, indices, tessellation)
  {
    var groups, rest := CutGroups(points, indices, draw);
    tessellation := CloseTessellation(points, indices, groups, rest);
    keepsInput := groups == [] && tessellation != [];
  }

  /** Group i of a cut of indices is the slice of indices at its offset. */
  lemma GroupInIndices(groups: Tess, rest: seq<nat>, indices: seq<nat>, i: nat)
    requires Flatten(groups) + rest == indices && i < |groups|
    ensures Offset(groups, i) + |groups[i]| <= |indices|
    ensures groups[i] == indices[Offset(groups, i)..Offset(groups, i) + |groups[i]|]
  {
    FlattenSlice(groups, i);
    var o := Offset(groups, i);
    assert Flatten(groups)[o..o + |groups[i]|] == indices[o..o + |groups[i]|];
  }

  /** Two cuts of the drawn sizes that agree before group i agree on group i. */
  lemma DrawnGroupAt(indices: seq<nat>, draw: (nat, nat) -> nat, g1: Tess, r1: seq<nat>, g2: Tess, r2: seq<nat>, i: nat)
    requires Flatten(g1) + r1 == indices && DrawnSizes(indices, g1, draw)
    requires Flatten(g2) + r2 == indices && DrawnSizes(indices, g2, draw)
    requires i < |g1| && i < |g2| && g1[..i] == g2[..i]
    ensures g1[i] == g2[i]
  {
    var o := Offset(g1, i);
    assert o == Offset(g2, i);
    assert |g1[i]| == draw(i, Min(6, |indices| - o)) == |g2[i]|;
    GroupInIndices(g1, r1, indices, i);
    GroupInIndices(g2, r2, indices, i);
  }

  /** Two cuts of the drawn sizes agree on as many groups as both have. */
  lemma {:induction false} DrawnCutPrefix(indices: seq<nat>, draw: (nat, nat) -> nat,
                                          g1: Tess, r1: seq<nat>, g2: Tess, r2: seq<nat>, m: nat)
    requires Flatten(g1) + r1 == indices && DrawnSizes(indices, g1, draw)
    requires Flatten(g2) + r2 == indices && DrawnSizes(indices, g2, draw)
    requires m <= |g1| && m <= |g2|
    ensures g1[..m] == g2[..m]
  {
    if m > 0 {
      DrawnCutPrefix(indices, draw, g1, r1, g2, r2, m - 1);
      DrawnGroupAt(indices, draw, g1, r1, g2, r2, m - 1);
      forall j | 0 <= j < m
        ensures g1[j] == g2[j]
      {
        if j < m - 1 {
          assert g1[..m - 1][j] == g2[..m - 1][j];
        }
      }
    }
  }

  /**
   * Where a cut of the drawn sizes extends a shorter cut, the loop would not have stopped
   * after the shorter one: its next drawn group is the longer cut's valid group.
   */
  lemma ExtendedCutContinues(points: seq<Point>, indices: seq<nat>, draw: (nat, nat) -> nat,
                             g1: Tess, r1: seq<nat>, g2: Tess, r2: seq<nat>)
    requires SizeDraws(draw)
    requires Flatten(g1) + r1 == indices && IndicesBelow(r1, |points|)
    requires Flatten(g2) + r2 == indices && AllValid(points, g2) && DrawnSizes(indices, g2, draw)
    requires |g1| < |g2| && g2[..|g1|] == g1
    ensures !GreedyStops(points, r1, |g1|, draw)
  {
    var i := |g1|;
    var o := Offset(g2, i);
    assert o == |Flatten(g1)|;
    assert |r1| == |indices| - o;
    assert |r1| > 3 && |g2[i]| == draw(i, Min(6, |r1|));
    NextGroupStartsRest(indices, g1, r1, g2, r2);
    assert ValidPolygon(points, g2[i]);
  }

  /** The group after a shared prefix of two cuts is a prefix of the shorter cut's rest. */
  lemma NextGroupStartsRest(indices: seq<nat>, g1: Tess, r1: seq<nat>, g2: Tess, r2: seq<nat>)
    requires Flatten(g1) + r1 == indices && Flatten(g2) + r2 == indices
    requires |g1| < |g2| && g2[..|g1|] == g1
    ensures |g2[|g1|]| <= |r1| && g2[|g1|] == r1[..|g2[|g1|]|]
  {
    var i := |g1|;
    var o := |Flatten(g1)|;
    assert Offset(g2, i) == o;
    GroupInIndices(g2, r2, indices, i);
    var n := |g2[i]|;
    assert r1 == indices[o..];
    assert r1[..n] == indices[o..o + n];
  }

  /** A greedy cut that another one extends has as many groups. */
  lemma NoLongerCut(points: seq<Point>, indices: seq<nat>, draw: (nat, nat) -> nat,
                    g1: Tess, r1: seq<nat>, g2: Tess, r2: seq<nat>)
    requires SizeDraws(draw)
    requires GreedyCut(points, indices, draw, g1, r1) && GreedyCut(points, indices, draw, g2, r2)
    requires |g1| <= |g2| && g2[..|g1|] == g1
    ensures |g2| == |g1|
  {
    if |g1| < |g2| {
      ExtendedCutContinues(points, indices, draw, g1, r1, g2, r2);
    }
  }

  /**
   * The greedy rule determines the loop's outcome: two cuts of the same indices under the
   * same draws that both follow it are the same cut.
   */
  lemma GreedyCutUnique(points: seq<Point>, indices: seq<nat>, draw: (nat, nat) -> nat,
                        g1: Tess, r1: seq<nat>, g2: Tess, r2: seq<nat>)
    requires SizeDraws(draw)
    requires GreedyCut(points, indices, draw, g1, r1) && GreedyCut(points, indices, draw, g2, r2)
    ensures g1 == g2 && r1 == r2
  {
    var m := Min(|g1|, |g2|);
    DrawnCutPrefix(indices, draw, g1, r1, g2, r2, m);
    if |g1| <= |g2| {
      assert g1[..m] == g1;
      NoLongerCut(points, indices, draw, g1, r1, g2, r2);
    } else {
      assert g2[..m] == g2;
      NoLongerCut(points, indices, draw, g2, r2, g1, r1);
    }
    assert g1 == g1[..m] && g2 == g2[..m];
    assert r1 == indices[|Flatten(g1)|..] && r2 == indices[|Flatten(g2)|..];
  }

  /** The polygons of s, in order, that do not occur in excluded. */
  function Without(s: Tess, excluded: Tess): (r: Tess)
    ensures |r| <= |s|
  {
    if s == [] then []
    else (if s[0] in excluded then [] else [s[0]]) + Without(s[1..], excluded)
  }

  /** The filter keeps exactly the polygons of s that are not excluded. */
  lemma {:induction false} WithoutMembers(s: Tess, excluded: Tess)
    ensures forall p :: p in Without(s, excluded) <==> p in s && p !in excluded
  {
    if s != [] {
      assert s == [s[0]] + s[1..];
      WithoutMembers(s[1..], excluded);
    }
  }

  /** Each kept polygon keeps its multiplicity; each excluded one is gone. */
  lemma {:induction false} WithoutCounts(s: Tess, excluded: Tess)
    ensures forall p :: multiset(Without(s, excluded))[p] == if p in excluded then 0 else multiset(s)[p]
  {
    if s != [] {
      assert s == [s[0]] + s[1..];
      WithoutCounts(s[1..], excluded);
    }
  }

  /** The filter keeps order: filtering two lists laid end to end filters each in turn. */
  lemma {:induction false} WithoutAppend(a: Tess, b: Tess, excluded: Tess)
    ensures Without(a + b, excluded) == Without(a, excluded) + Without(b, excluded)
  {
    if a != [] {
      var front: Tess := if a[0] in excluded then [] else [a[0]];
      assert (a + b)[0] == a[0] && (a + b)[1..] == a[1..] + b;
      assert Without(a + b, excluded) == front + Without(a[1..] + b, excluded);
      WithoutAppend(a[1..], b, excluded);
      assert Without(a, excluded) == front + Without(a[1..], excluded);
    } else {
      assert a + b == b;
    }
  }

  /** A polygon of s that is excluded makes the filtered list shorter than s. */
  lemma {:induction false} WithoutDrops(s: Tess, excluded: Tess, i: nat)
    requires i < |s| && s[i] in excluded
    ensures |Without(s, excluded)| < |s|
  {
    if i > 0 {
      assert s[1..][i - 1] == s[i];
      WithoutDrops(s[1..], excluded, i - 1);
    }
  }

  /** The split point of crossover lies in the range its draw `randint(1, len - 1)` (or 1) gives. */
  predicate CrossoverSplit(parent1: Tess, split: nat) {
    1 <= split <= Max(1, |parent1| - 1)
  }

  /**
   * `_crossover`: the first `split` polygons of parent1 followed by the polygons of parent2,
   * in order, that are not among them.
   */
  function Crossover(parent1: Tess, parent2: Tess, split: nat): (offspring: Tess)
    requires CrossoverSplit(parent1, split)
    ensures var k := Min(split, |parent1|);
      k <= |offspring| && offspring[..k] == parent1[..k] &&
      (|parent1| > 1 ==> 1 <= k < |parent1|) &&
      offspring[k..] == Without(parent2, parent1[..k]) &&
      (forall i :: k <= i < |offspring| ==> offspring[i] in parent2 && offspring[i] !in parent1[..k]) &&
      (forall p :: p in offspring <==> p in parent1[..k] || p in parent2)
  {
    var head := parent1[..Min(split, |parent1|)];
    WithoutMembers(parent2, head);
    head + Without(parent2, head)
  }

  lemma {:induction false} WithoutNoneExcluded(s: Tess, excluded: Tess)
    requires forall i :: 0 <= i < |s| ==> s[i] !in excluded
    ensures Without(s, excluded) == s
  {
    if s != [] {
      WithoutNoneExcluded(s[1..], excluded);
    }
  }

  lemma {:induction false} WithoutSkipsExcluded(s: Tess, k: nat, excluded: Tess)
    requires k <= |s|
    requires forall i :: 0 <= i < k ==> s[i] in excluded
    ensures Without(s, excluded) == Without(s[k..], excluded)
  {
    if k > 0 {
      assert s[1..][k - 1..] == s[k..];
      WithoutSkipsExcluded(s[1..], k - 1, excluded);
    }
  }

  /**
   * Crossing a candidate with itself gives it back exactly when no polygon after the split
   * repeats one before it: such a repeat is filtered out, anything else is kept in order.
   */
  lemma {:induction false} CrossoverSameParent(parent: Tess, split: nat)
    requires CrossoverSplit(parent, split)
    ensures var k := Min(split, |parent|);
      Crossover(parent, parent, split) == parent <==> forall i :: k <= i < |parent| ==> parent[i] !in parent[..k]
  {
    var k := Min(split, |parent|);
    var head, tail := parent[..k], parent[k..];
    assert head + tail == parent;
    WithoutSkipsExcluded(parent, k, head);
    if forall i :: k <= i < |parent| ==> parent[i] !in head {
      assert forall i :: 0 <= i < |tail| ==> tail[i] == parent[k + i];
      WithoutNoneExcluded(tail, head);
      CrossoverIs(parent, parent, split, tail);
    } else {
      var i :| k <= i < |parent| && parent[i] in head;
      assert tail[i - k] == parent[i];
      WithoutDrops(tail, head, i - k);
      CrossoverIs(parent, parent, split, Without(tail, head));
    }
  }

  /** In particular a candidate that repeats no polygon comes back for every allowed split. */
  lemma CrossoverDistinctParent(parent: Tess, split: nat)
    requires Distinct(parent)
    requires CrossoverSplit(parent, split)
    ensures Crossover(parent, parent, split) == parent
  {
    var k := Min(split, |parent|);
    DistinctTailOutsideHead(parent, k);
    forall i | k <= i < |parent|
      ensures parent[i] !in parent[..k]
    {
      assert parent[k..][i - k] == parent[i];
    }
    CrossoverSameParent(parent, split);
  }

  lemma CrossoverIs(parent1: Tess, parent2: Tess, split: nat, rest: Tess)
    requires CrossoverSplit(parent1, split)
    requires Without(parent2, parent1[..Min(split, |parent1|)]) == rest
    ensures Crossover(parent1, parent2, split) == parent1[..Min(split, |parent1|)] + rest
  {
  }

  /** In a list without repeats, nothing after position k occurs before it. */
  lemma DistinctTailOutsideHead(s: Tess, k: nat)
    requires Distinct(s) && k <= |s|
    ensures forall i :: 0 <= i < |s[k..]| ==> s[k..][i] !in s[..k]
  {
    forall i | 0 <= i < |s[k..]|
      ensures s[k..][i] !in s[..k]
    {
      forall j | 0 <= j < k
        ensures s[..k][j] != s[k..][i]
      {
        assert s[..k][j] == s[j] && s[k..][i] == s[k + i];
      }
    }
  }

  /**
   * With a repeated polygon the parent does not come back: the repeat is dropped, so the
   * two parents' polygons are not preserved as a multiset.
   */
  lemma CrossoverDropsRepeats()
    ensures Crossover([[0, 1, 2], [3, 4, 5], [0, 1, 2]], [[0, 1, 2], [3, 4, 5], [0, 1, 2]], 1)
      == [[0, 1, 2], [3, 4, 5]]
  {
    var p: Tess := [[0, 1, 2], [3, 4, 5], [0, 1, 2]];
    var head := p[..1];
    assert [3, 4, 5] !in head;
    assert Without(p, head) == Without(p[1..], head);
    assert Without(p[1..][1..], head) == [];
  }

  /**
   * The draws of `_mutate` are in their ranges: the coin of `random()` in [0, 1), the polygon
   * index of `randint(0, len - 1)` and the split point of `randint(1, len(polygon) - 2)`.
   * A draw the source does not make on this path is not constrained.
   */
  predicate MutationDraws(tessellation: Tess, mutationRate: real, coin: real, idx: nat, splitPoint: nat) {
    0.0 <= coin < 1.0 &&
    (tessellation != [] && coin < mutationRate ==> idx < |tessellation|) &&
    (tessellation != [] && coin < mutationRate && idx < |tessellation| && |tessellation[idx]| > 3 ==>
       1 <= splitPoint <= |tessellation[idx]| - 2)
  }

  /** The mutation splits a polygon: the list is non-empty, the coin succeeds and the polygon has more than three indices. */
  predicate Splits(tessellation: Tess, mutationRate: real, coin: real, idx: nat) {
    tessellation != [] && coin < mutationRate && idx < |tessellation| && |tessellation[idx]| > 3
  }

  /** The multiset of all indices of all polygons. */
  function AllIndices(t: Tess): multiset<nat> {
    multiset(Flatten(t))
  }

  lemma AllIndicesSnoc(t: Tess)
    requires t != []
    ensures AllIndices(t) == AllIndices(t[..|t| - 1]) + multiset(t[|t| - 1])
  {
  }

  lemma {:induction false} AllIndicesUpdate(t: Tess, idx: nat, p: Polygon)
    requires idx < |t|
    ensures AllIndices(t[idx := p]) + multiset(t[idx]) == AllIndices(t) + multiset(p)
    decreases |t|
  {
    var last := |t| - 1;
    var u := t[idx := p];
    AllIndicesSnoc(u);
    AllIndicesSnoc(t);
    if idx == last {
      assert u[..last] == t[..last] && u[last] == p;
      MultisetSwap(AllIndices(t[..last]), multiset(p), multiset(t[last]));
    } else {
      var init := t[..last];
      UpdateBeforeLast(t, idx, p);
      AllIndicesUpdate(init, idx, p);
      MultisetAddBoth(AllIndices(init[idx := p]), AllIndices(init), multiset(t[idx]), multiset(p), multiset(t[last]));
    }
  }

  /** Updating a position before the last one leaves the last polygon and updates the rest. */
  lemma UpdateBeforeLast(t: Tess, idx: nat, p: Polygon)
    requires idx < |t| - 1
    ensures t[idx := p][..|t| - 1] == t[..|t| - 1][idx := p]
    ensures t[idx := p][|t| - 1] == t[|t| - 1] && t[..|t| - 1][idx] == t[idx]
  {
  }

  lemma MultisetSwap(a: multiset<nat>, x: multiset<nat>, y: multiset<nat>)
    ensures a + x + y == a + y + x
  {
    assert forall e :: (a + x + y)[e] == (a + y + x)[e];
  }

  lemma MultisetAddBoth(a: multiset<nat>, b: multiset<nat>, x: multiset<nat>, y: multiset<nat>, z: multiset<nat>)
    requires a + x == b + y
    ensures a + z + x == b + z + y
  {
    forall e
      ensures (a + z + x)[e] == (b + z + y)[e]
    {
      assert (a + x)[e] == (b + y)[e];
    }
  }

  /** Cutting polygon idx in two, keeping the front in place and appending the back, keeps every index. */
  lemma SplitKeepsIndices(t: Tess, idx: nat, cut: nat)
    requires idx < |t| && cut <= |t[idx]|
    ensures AllIndices(t[idx := t[idx][..cut]] + [t[idx][cut..]]) == AllIndices(t)
  {
    var front, back := t[idx][..cut], t[idx][cut..];
    assert front + back == t[idx];
    AllIndicesUpdate(t, idx, front);
    FlattenAppend(t[idx := front], back);
    var u := t[idx := front] + [back];
    assert multiset(t[idx]) == multiset(front) + multiset(back);
    calc {
      AllIndices(u) + multiset(t[idx]);
      AllIndices(t[idx := front]) + multiset(back) + multiset(t[idx]);
      AllIndices(t[idx := front]) + multiset(t[idx]) + multiset(back);
      AllIndices(t) + multiset(front) + multiset(back);
      AllIndices(t) + multiset(t[idx]);
    }
    forall x
      ensures AllIndices(u)[x] == AllIndices(t)[x]
    {
      assert (AllIndices(u) + multiset(t[idx]))[x] == (AllIndices(t) + multiset(t[idx]))[x];
    }
  }

  /**
   * The list `_mutate` returns: when the list is non-empty, the coin succeeds and the chosen
   * polygon has more than three indices, the polygon is cut at the split point; the front
   * part takes its place and the back part is appended. Otherwise the list as it is.
   */
  function Mutated(tessellation: Tess, mutationRate: real, coin: real, idx: nat, splitPoint: nat): (mutated: Tess)
    requires MutationDraws(tessellation, mutationRate, coin, idx, splitPoint)
    ensures AllIndices(mutated) == AllIndices(tessellation)
  {
    if Splits(tessellation, mutationRate, coin, idx) then
      SplitKeepsIndices(tessellation, idx, splitPoint);
      tessellation[idx := tessellation[idx][..splitPoint]] + [tessellation[idx][splitPoint..]]
    else
      tessellation
  }

  /** Mutation names only points the list named: its pieces come from the cut polygon. */
  lemma MutatedIndicesBelow(tessellation: Tess, mutationRate: real, coin: real, idx: nat, splitPoint: nat, n: nat)
    requires MutationDraws(tessellation, mutationRate, coin, idx, splitPoint)
    requires TessIndicesBelow(tessellation, n)
    ensures TessIndicesBelow(Mutated(tessellation, mutationRate, coin, idx, splitPoint), n)
  {
    if Splits(tessellation, mutationRate, coin, idx) {
      assert IndicesBelow(tessellation[idx], n);
    }
  }

  /**
   * `_mutate`, which changes the list in place. The result is `Mutated`: unchanged when the
   * list is empty, when the coin fails, or when the drawn polygon has at most three indices;
   * otherwise one longer, with the two pieces of the cut polygon at idx and at the end.
   */
  method Mutate(tessellation: Tess, mutationRate: real, coin: real, idx: nat, splitPoint: nat)
    returns (mutated: Tess)
    requires MutationDraws(tessellation, mutationRate, coin, idx, splitPoint)
    ensures mutated == Mutated(tessellation, mutationRate, coin, idx, splitPoint)
    ensures !Splits(tessellation, mutationRate, coin, idx) ==> mutated == tessellation
    ensures Splits(tessellation, mutationRate, coin, idx) ==>
      |mutated| == |tessellation| + 1 &&
      mutated[idx] == tessellation[idx][..splitPoint] &&
      mutated[|tessellation|] == tessellation[idx][splitPoint..] &&
      mutated[idx] + mutated[|tessellation|] == tessellation[idx] &&
      |mutated[idx]| >= 1 && |mutated[|tessellation|]| >= 2 &&
      forall i :: 0 <= i < |tessellation| && i != idx ==> mutated[i] == tessellation[i]
    ensures AllIndices(mutated) == AllIndices(tessellation)
  {
    mutated := tessellation;
    if mutated == [] {
      return;
    }
    if coin < mutationRate {
      var polygon := mutated[idx];
      if |polygon| > 3 {
        mutated := mutated[idx := polygon[..splitPoint]];
        mutated := mutated + [polygon[splitPoint..]];
      }
    }
  }

  /** The distinct indices of a polygon (Python's `set(poly)`). */
  function Elements(p: Polygon): set<nat> {
    set i | 0 <= i < |p| :: p[i]
  }

  /**
   * The emission at the end of `optimize`: each polygon of the best candidate becomes its set
   * of distinct indices, and only sets of more than two indices are kept.
   */
  function Emit(best: Tess): (polygons: seq<set<nat>>)
    ensures |polygons| <= |best|
    ensures forall k :: 0 <= k < |polygons| ==> |polygons[k]| > 2
    ensures forall k :: 0 <= k < |polygons| ==> exists i :: 0 <= i < |best| && polygons[k] == Elements(best[i])
    ensures forall i :: 0 <= i < |best| && |Elements(best[i])| > 2 ==> Elements(best[i]) in polygons
  {
    if best == [] then []
    else
      var rest := Emit(best[1..]);
      assert forall i :: 1 <= i < |best| ==> best[i] == best[1..][i - 1];
      if |Elements(best[0])| > 2 then [Elements(best[0])] + rest else rest
  }

  /** Emission keeps the order of the polygons and one entry per kept polygon: it works polygon by polygon. */
  lemma {:induction false} EmitAppend(a: Tess, b: Tess)
    ensures Emit(a + b) == Emit(a) + Emit(b)
  {
    if a != [] {
      assert (a + b)[0] == a[0] && (a + b)[1..] == a[1..] + b;
      EmitAppend(a[1..], b);
    } else {
      assert a + b == b;
    }
  }

  /** Emission keeps indices in range: every emitted index names one of the n points. */
  lemma {:induction false} EmitIndicesBelow(best: Tess, n: nat)
    requires TessIndicesBelow(best, n)
    ensures forall k, x :: 0 <= k < |Emit(best)| && x in Emit(best)[k] ==> x < n
  {
    forall k, x | 0 <= k < |Emit(best)| && x in Emit(best)[k]
      ensures x < n
    {
      var i :| 0 <= i < |best| && Emit(best)[k] == Elements(best[i]);
      assert IndicesBelow(best[i], n);
    }
  }
}
