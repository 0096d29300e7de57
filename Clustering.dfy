/**
  * Model of KMeans: k centroids, fitted by a fixed number of rounds of
  * nearest-centroid assignment and coordinate-wise means, and nearest-centroid
  * inference.
  *
  * Coordinates are reals (double rounding is not modelled). The mean of an
  * empty group divides 0.0 by 0 in every coordinate, which gives a row of NaNs;
  * that row is the `Undefined` centroid, and inference compares its NaN
  * distance the way Java compares doubles.
  */
module Clustering {

  /** A centroid row: its coordinates, or the row of NaNs left by an empty group. */
  datatype Centroid = Centroid(coords: seq<real>) | Undefined

  /** A double that is a number or NaN. */
  datatype Distance = Finite(value: real) | NaN

  /** Java's `<=` on doubles: false as soon as one side is NaN. */
  predicate AtMost(a: Distance, b: Distance) {
    a.Finite? && b.Finite? && a.value <= b.value
  }

  /** Every vector has at least `dim` coordinates. */
  predicate Covers(vectors: seq<seq<real>>, dim: nat) {
    forall v :: v in vectors ==> |v| >= dim
  }

  /** Each centroid has at least `dim` coordinates, or is a NaN row of a positive dimension. */
  predicate WellFormed(cs: seq<Centroid>, dim: nat) {
    forall i :: 0 <= i < |cs| ==> if cs[i].Centroid? then |cs[i].coords| >= dim else dim > 0
  }

  // ---------------------------------------------------------------------
  // Distances and the nearest centroid
  // ---------------------------------------------------------------------

  /** Squared Euclidean distance over the first `n` coordinates. */
  function SqDist(v: seq<real>, c: seq<real>, n: nat): real
    requires n <= |v| && n <= |c|
  {
    if n == 0 then 0.0 else SqDist(v, c, n - 1) + Square(v[n - 1] - c[n - 1])
  }

  /** diff * diff */
  function Square(x: real): real {
    x * x
  }

  /** The distance infer computes from `v` to one centroid. */
  function DistanceTo(c: Centroid, v: seq<real>, dim: nat): (d: Distance)
    requires |v| >= dim
    requires c.Centroid? ==> |c.coords| >= dim
    ensures d.NaN? <==> c.Undefined? && dim > 0
    ensures d.Finite? ==> d.value >= 0.0
  {
    match c
    case Centroid(coords) => SqDistNonNegative(v, coords, dim); Finite(SqDist(v, coords, dim))
    case Undefined => if dim == 0 then Finite(0.0) else NaN
  }

  /** The pair (minDistance, minIndex) of infer's loop once it has seen the
    * first `n` centroids; -1.0 marks "no distance yet". */
  function Scan(cs: seq<Centroid>, v: seq<real>, dim: nat, n: nat): (state: (Distance, nat))
    requires n <= |cs| && WellFormed(cs, dim) && |v| >= dim
    ensures n == 0 ==> state.1 == 0
    ensures n > 0 ==> state.1 < n
  {
    if n == 0 then (Finite(-1.0), 0)
    else
      var (minDistance, minIndex) := Scan(cs, v, dim, n - 1);
      var d := DistanceTo(cs[n - 1], v, dim);
      if minDistance == Finite(-1.0) || AtMost(d, minDistance) then (d, n - 1) else (minDistance, minIndex)
  }

  /** The index infer returns. */
  function Nearest(cs: seq<Centroid>, v: seq<real>, dim: nat): (r: nat)
    requires WellFormed(cs, dim) && |v| >= dim
    ensures |cs| == 0 ==> r == 0
    ensures |cs| > 0 ==> r < |cs|
  {
    Scan(cs, v, dim, |cs|).1
  }

  /** `r` is the last index of a centroid at the least distance from `v`
    * among the centroids whose distance is a number. */
  predicate IsLastNearest(cs: seq<Centroid>, v: seq<real>, dim: nat, r: nat)
    requires WellFormed(cs, dim) && |v| >= dim
  {
    && r < |cs|
    && DistanceTo(cs[r], v, dim).Finite?
    && (forall j :: 0 <= j < |cs| && DistanceTo(cs[j], v, dim).Finite? ==>
          DistanceTo(cs[r], v, dim).value <= DistanceTo(cs[j], v, dim).value)
    && (forall j :: r < j < |cs| && DistanceTo(cs[j], v, dim).Finite? ==>
          DistanceTo(cs[r], v, dim).value < DistanceTo(cs[j], v, dim).value)
  }

  // ---------------------------------------------------------------------
  // Means, groups and rounds
  // ---------------------------------------------------------------------

  /** Sum of coordinate `i` over the vectors of `group`. */
  function ColumnSum(group: seq<seq<real>>, i: nat): real
    requires forall v :: v in group ==> i < |v|
  {
    if group == [] then 0.0
    else
      assert forall v :: v in group[..|group| - 1] ==> v in group;
      ColumnSum(group[..|group| - 1], i) + group[|group| - 1][i]
  }

  /** What mean returns: the coordinate-wise average over the first `dim`
    * coordinates; a NaN row for an empty group unless there is no coordinate. */
  function MeanOf(group: seq<seq<real>>, dim: nat): (c: Centroid)
    requires Covers(group, dim)
    ensures c.Undefined? <==> group == [] && dim > 0
    ensures c.Centroid? ==> |c.coords| == dim
  {
    if |group| == 0 then (if dim == 0 then Centroid([]) else Undefined)
    else Centroid(seq(dim, i requires 0 <= i < dim => ColumnSum(group, i) / (|group| as real)))
  }

  /** The vectors infer assigns to centroid `j`, in input order. */
  function Group(cs: seq<Centroid>, vectors: seq<seq<real>>, dim: nat, j: nat): seq<seq<real>>
    requires WellFormed(cs, dim) && Covers(vectors, dim)
  {
    if vectors == [] then []
    else
      var init, last := vectors[..|vectors| - 1], vectors[|vectors| - 1];
      assert forall v :: v in init ==> v in vectors;
      Group(cs, init, dim, j) + (if Nearest(cs, last, dim) == j then [last] else [])
  }

  /** One round of fit: every centroid becomes the mean of its group. */
  function Step(cs: seq<Centroid>, vectors: seq<seq<real>>, dim: nat): (next: seq<Centroid>)
    requires WellFormed(cs, dim) && Covers(vectors, dim)
    ensures |next| == |cs| && WellFormed(next, dim)
  {
    seq(|cs|, j requires 0 <= j < |cs| => GroupCovers(cs, vectors, dim, j); MeanOf(Group(cs, vectors, dim, j), dim))
  }

  /** The centroids after `rounds` rounds. */
  function Train(cs: seq<Centroid>, vectors: seq<seq<real>>, dim: nat, rounds: nat): (r: seq<Centroid>)
    requires WellFormed(cs, dim) && Covers(vectors, dim)
    ensures |r| == |cs| && WellFormed(r, dim)
  {
    if rounds == 0 then cs else Step(Train(cs, vectors, dim, rounds - 1), vectors, dim)
  }

  /** The initial draw: centroid i is the input vector at the injected index picks[i]. */
  function InitialCentroids(vectors: seq<seq<real>>, picks: seq<nat>): (cs: seq<Centroid>)
    requires forall i :: 0 <= i < |picks| ==> picks[i] < |vectors|
    ensures |cs| == |picks|
    ensures forall i :: 0 <= i < |cs| ==> cs[i].Centroid? && cs[i].coords in vectors
  {
    seq(|picks|, i requires 0 <= i < |picks| => Centroid(vectors[picks[i]]))
  }

  class KMeans {
    const k: nat
    const trainingIterations: int
    const embeddingDimension: nat
    const centroids: array<Centroid>

    /** There are always k centroids, each wide enough for infer. */
    ghost predicate Valid()
      reads centroids
    {
      centroids.Length == k && WellFormed(centroids[..], embeddingDimension)
    }

    /** The number of rounds fit runs. */
    function Rounds(): nat {
      if trainingIterations > 0 then trainingIterations else 0
    }

    constructor (k: nat, trainingIterations: int, embeddingDimension: nat)
      ensures this.k == k && this.trainingIterations == trainingIterations
      ensures this.embeddingDimension == embeddingDimension
      ensures Valid() && fresh(centroids)
      ensures forall i :: 0 <= i < k ==> centroids[i] == Centroid(seq(embeddingDimension, _ => 0.0))
    {
      this.k := k;
      this.trainingIterations := trainingIterations;
      this.embeddingDimension := embeddingDimension;
      centroids := new Centroid[k](_ => Centroid(seq(embeddingDimension, _ => 0.0)));
    }

    /** Draws the initial centroids from `vectors` at the injected indices
      * `picks`, then runs the rounds: assign every vector to its nearest
      * centroid, replace every centroid by the mean of its group. */
    method Fit(vectors: seq<seq<real>>, picks: seq<nat>)
      requires Valid()
      requires |picks| == k
      requires forall i :: 0 <= i < |picks| ==> picks[i] < |vectors|
      requires Covers(vectors, embeddingDimension)
      requires k > 0 || vectors == [] || trainingIterations <= 0
      modifies centroids
      ensures Valid()
      ensures centroids[..] == Train(InitialCentroids(vectors, picks), vectors, embeddingDimension, Rounds())
    {
      DrawCentroids(vectors, picks);
      RunRounds(vectors);
    }

    /** The rounds of fit, from the current centroids. */
    method RunRounds(vectors: seq<seq<real>>)
      requires Valid() && Covers(vectors, embeddingDimension)
      requires k > 0 || vectors == [] || trainingIterations <= 0
      modifies centroids
      ensures Valid()
      ensures centroids[..] == Train(old(centroids[..]), vectors, embeddingDimension, Rounds())
    {
      ghost var initial := centroids[..];
      ghost var trained := initial;
      var round := 0;
      while round < trainingIterations
        invariant 0 <= round <= Rounds()
        invariant centroids.Length == k && centroids[..] == trained
        invariant trained == Train(initial, vectors, embeddingDimension, round)
      {
        RunRound(vectors);
        trained := Step(trained, vectors, embeddingDimension);
        round := round + 1;
      }
      assert round == Rounds();
    }

    /** One round of fit: assign every vector to its nearest centroid, then
      * replace every centroid by the mean of its group. */
    method RunRound(vectors: seq<seq<real>>)
      requires Valid() && Covers(vectors, embeddingDimension)
      requires k > 0 || vectors == []
      modifies centroids
      ensures Valid()
      ensures centroids[..] == Step(old(centroids[..]), vectors, embeddingDimension)
    {
      ghost var current := centroids[..];
      var groups := AssignGroups(vectors);
      UpdateCentroids(groups, current, vectors);
    }

    /** The initial draw: centroid i becomes the input vector at index picks[i]. */
    method DrawCentroids(vectors: seq<seq<real>>, picks: seq<nat>)
      requires centroids.Length == k && |picks| == k
      requires forall i :: 0 <= i < |picks| ==> picks[i] < |vectors|
      requires Covers(vectors, embeddingDimension)
      modifies centroids
      ensures Valid()
      ensures centroids[..] == InitialCentroids(vectors, picks)
    {
      for i := 0 to k
        invariant forall j :: 0 <= j < i ==> centroids[j] == Centroid(vectors[picks[j]])
      {
        centroids[i] := Centroid(vectors[picks[i]]);
      }
      assert centroids[..] == InitialCentroids(vectors, picks);
    }

    /** The groups of one round: groups[j] lists, in input order, the vectors
      * that infer assigns to centroid j. */
    method AssignGroups(vectors: seq<seq<real>>) returns (groups: array<seq<seq<real>>>)
      requires Valid() && Covers(vectors, embeddingDimension)
      requires k > 0 || vectors == []
      ensures fresh(groups) && groups.Length == k
      ensures forall j :: 0 <= j < k ==> groups[j] == Group(centroids[..], vectors, embeddingDimension, j)
    {
      groups := new seq<seq<real>>[k](_ => []);
      for m := 0 to |vectors|
        invariant forall j :: 0 <= j < k ==> groups[j] == Group(centroids[..], vectors[..m], embeddingDimension, j)
      {
        var centroidIndex := Infer(vectors[m]);
        groups[centroidIndex] := groups[centroidIndex] + [vectors[m]];
        assert vectors[..m + 1][..m] == vectors[..m];
      }
      assert vectors[..|vectors|] == vectors;
    }

    /** The second half of a round: every centroid becomes the mean of its group. */
    method UpdateCentroids(groups: array<seq<seq<real>>>, ghost current: seq<Centroid>, ghost vectors: seq<seq<real>>)
      requires Valid() && groups.Length == k && centroids[..] == current
      requires Covers(vectors, embeddingDimension)
      requires forall j :: 0 <= j < k ==> groups[j] == Group(current, vectors, embeddingDimension, j)
      modifies centroids
      ensures Valid()
      ensures centroids[..] == Step(current, vectors, embeddingDimension)
    {
      ghost var next := Step(current, vectors, embeddingDimension);
      for j := 0 to k
        invariant forall q :: 0 <= q < j ==> centroids[q] == next[q]
      {
        ghost var group := Group(current, vectors, embeddingDimension, j);
        GroupCovers(current, vectors, embeddingDimension, j);
        var mean := Mean(groups[j]);
        assert mean == next[j];
        centroids[j] := mean;
      }
      assert centroids[..] == next;
    }

    /** Index of the centroid nearest to `vector` by squared Euclidean distance
      * over the first embeddingDimension coordinates, the last one on a tie. */
    method Infer(vector: seq<real>) returns (minIndex: nat)
      requires Valid()
      requires |vector| >= embeddingDimension
      ensures minIndex == Nearest(centroids[..], vector, embeddingDimension)
      ensures k == 0 ==> minIndex == 0
      ensures k > 0 ==> minIndex < k
      ensures k > 0 && DistanceTo(centroids[0], vector, embeddingDimension).NaN? ==> minIndex == 0
      ensures k > 0 && DistanceTo(centroids[0], vector, embeddingDimension).Finite? ==>
        IsLastNearest(centroids[..], vector, embeddingDimension, minIndex)
    {
      var minDistance := Finite(-1.0);
      minIndex := 0;
      for i := 0 to k
        invariant (minDistance, minIndex) == Scan(centroids[..], vector, embeddingDimension, i)
      {
        var squaredEuclidean := NaN;
        if centroids[i].Centroid? {
          var row := centroids[i].coords;
          var sum := 0.0;
          for j := 0 to embeddingDimension
            invariant sum == SqDist(vector, row, j)
          {
            var diff := vector[j] - row[j];
            sum := sum + Square(diff);
          }
          squaredEuclidean := Finite(sum);
        } else if embeddingDimension == 0 {
          squaredEuclidean := Finite(0.0);
        }
        if minDistance == Finite(-1.0) || AtMost(squaredEuclidean, minDistance) {
          minDistance := squaredEuclidean;
          minIndex := i;
        }
      }
      NearestIsLastMinimum(centroids[..], vector, embeddingDimension);
    }

    function GetK(): (n: nat)
      reads centroids
      requires Valid()
      ensures n == centroids.Length
    {
      k
    }

    function GetCentroids(): (cs: seq<Centroid>)
      reads centroids
      requires Valid()
      ensures |cs| == k && WellFormed(cs, embeddingDimension)
    {
      centroids[..]
    }

    /** Coordinate-wise mean of `group` over the first embeddingDimension coordinates. */
    method Mean(group: seq<seq<real>>) returns (mean: Centroid)
      requires Covers(group, embeddingDimension)
      ensures mean == MeanOf(group, embeddingDimension)
    {
      var res := new real[embeddingDimension];
      var isNaN := false;
      for i := 0 to embeddingDimension
        invariant isNaN <==> i > 0 && |group| == 0
        invariant |group| > 0 ==>
          forall q :: 0 <= q < i ==> res[q] == ColumnSum(group, q) / (|group| as real)
      {
        var rowSum := 0.0;
        for m := 0 to |group|
          invariant rowSum == ColumnSum(group[..m], i)
        {
          rowSum := rowSum + group[m][i];
          assert group[..m + 1][..m] == group[..m];
        }
        assert group[..|group|] == group;
        if |group| == 0 {
          // 0.0 / 0 is NaN
          isNaN := true;
        } else {
          res[i] := rowSum / (|group| as real);
        }
      }
      mean := if isNaN then Undefined else Centroid(res[..]);
    }
  }

  // ---------------------------------------------------------------------
  // Lemmas: distances
  // ---------------------------------------------------------------------

  lemma {:induction false} SqDistNonNegative(v: seq<real>, c: seq<real>, n: nat)
    requires n <= |v| && n <= |c|
    ensures SqDist(v, c, n) >= 0.0
  {
    if n > 0 {
      SqDistNonNegative(v, c, n - 1);
      SquareFacts(v[n - 1] - c[n - 1]);
    }
  }

  /** A square is never negative, and is zero only for zero. */
  lemma SquareFacts(x: real)
    ensures Square(x) >= 0.0
    ensures Square(x) == 0.0 <==> x == 0.0
  {
    if x > 0.0 {
      calc {
        Square(x);
        x * x;
      > { assert x * x > 0.0 * x; }
        0.0;
      }
    } else if x < 0.0 {
      calc {
        Square(x);
        (-x) * (-x);
      > { assert (-x) * (-x) > 0.0 * (-x); }
        0.0;
      }
    }
  }

  /** The distance is zero exactly when the first `n` coordinates agree. */
  lemma {:induction false} SqDistZero(v: seq<real>, c: seq<real>, n: nat)
    requires n <= |v| && n <= |c|
    ensures SqDist(v, c, n) == 0.0 <==> v[..n] == c[..n]
  {
    if n > 0 {
      SqDistZero(v, c, n - 1);
      SqDistNonNegative(v, c, n - 1);
      SquareFacts(v[n - 1] - c[n - 1]);
      assert v[..n] == v[..n - 1] + [v[n - 1]];
      assert c[..n] == c[..n - 1] + [c[n - 1]];
      if v[..n] == c[..n] {
        assert v[..n - 1] == v[..n][..n - 1];
        assert c[..n - 1] == c[..n][..n - 1];
        assert v[..n][n - 1] == c[..n][n - 1];
      }
    }
  }

  lemma DistanceNonNegative(c: Centroid, v: seq<real>, dim: nat)
    requires |v| >= dim
    requires c.Centroid? ==> |c.coords| >= dim
    ensures DistanceTo(c, v, dim).Finite? ==> DistanceTo(c, v, dim).value >= 0.0
  {
    if c.Centroid? {
      SqDistNonNegative(v, c.coords, dim);
    }
  }

  /** The loop state of infer: a NaN first distance sticks; otherwise the state
    * holds the last index of the least numeric distance seen so far. */
  lemma {:induction false} ScanState(cs: seq<Centroid>, v: seq<real>, dim: nat, n: nat)
    requires 1 <= n <= |cs| && WellFormed(cs, dim) && |v| >= dim
    ensures DistanceTo(cs[0], v, dim).NaN? ==> Scan(cs, v, dim, n) == (NaN, 0)
    ensures DistanceTo(cs[0], v, dim).Finite? ==>
      var (md, mi) := Scan(cs, v, dim, n);
      && mi < n
      && md == DistanceTo(cs[mi], v, dim)
      && md.Finite? && md.value >= 0.0
      && (forall j :: 0 <= j < n && DistanceTo(cs[j], v, dim).Finite? ==> md.value <= DistanceTo(cs[j], v, dim).value)
      && (forall j :: mi < j < n && DistanceTo(cs[j], v, dim).Finite? ==> md.value < DistanceTo(cs[j], v, dim).value)
  {
    DistanceNonNegative(cs[n - 1], v, dim);
    if n == 1 {
      assert Scan(cs, v, dim, 0) == (Finite(-1.0), 0);
    } else {
      ScanState(cs, v, dim, n - 1);
    }
  }

  /** What infer returns, for every set of centroids. */
  lemma NearestIsLastMinimum(cs: seq<Centroid>, v: seq<real>, dim: nat)
    requires WellFormed(cs, dim) && |v| >= dim
    ensures |cs| == 0 ==> Nearest(cs, v, dim) == 0
    ensures |cs| > 0 ==> Nearest(cs, v, dim) < |cs|
    ensures |cs| > 0 && DistanceTo(cs[0], v, dim).NaN? ==> Nearest(cs, v, dim) == 0
    ensures |cs| > 0 && DistanceTo(cs[0], v, dim).Finite? ==> IsLastNearest(cs, v, dim, Nearest(cs, v, dim))
  {
    if |cs| > 0 {
      ScanState(cs, v, dim, |cs|);
    }
  }

  /** The tie-break determines the answer: at most one index is the last nearest. */
  lemma LastNearestUnique(cs: seq<Centroid>, v: seq<real>, dim: nat, r1: nat, r2: nat)
    requires WellFormed(cs, dim) && |v| >= dim
    requires IsLastNearest(cs, v, dim, r1) && IsLastNearest(cs, v, dim, r2)
    ensures r1 == r2
  {
  }

  /** When every centroid is defined, infer returns the last index of the least distance. */
  lemma NearestWhenDefined(cs: seq<Centroid>, v: seq<real>, dim: nat)
    requires WellFormed(cs, dim) && |v| >= dim
    requires |cs| > 0 && forall i :: 0 <= i < |cs| ==> cs[i].Centroid?
    ensures IsLastNearest(cs, v, dim, Nearest(cs, v, dim))
    ensures forall j :: 0 <= j < |cs| ==>
      SqDist(v, cs[Nearest(cs, v, dim)].coords, dim) <= SqDist(v, cs[j].coords, dim)
  {
    NearestIsLastMinimum(cs, v, dim);
  }

  /** With a single centroid, infer always returns 0. */
  lemma SingleCentroid(cs: seq<Centroid>, v: seq<real>, dim: nat)
    requires WellFormed(cs, dim) && |v| >= dim
    requires |cs| == 1
    ensures Nearest(cs, v, dim) == 0
  {
    NearestIsLastMinimum(cs, v, dim);
  }

  /** With no coordinate every distance is 0, so the last centroid wins the tie. */
  lemma ZeroDimensionPicksLast(cs: seq<Centroid>, v: seq<real>)
    requires WellFormed(cs, 0) && |cs| > 0
    ensures Nearest(cs, v, 0) == |cs| - 1
  {
    NearestIsLastMinimum(cs, v, 0);
  }

  // ---------------------------------------------------------------------
  // Lemmas: groups and means
  // ---------------------------------------------------------------------

  /** A vector is in group j exactly when it is an input vector whose nearest centroid is j. */
  lemma {:induction false} GroupMembership(cs: seq<Centroid>, vectors: seq<seq<real>>, dim: nat, j: nat, v: seq<real>)
    requires WellFormed(cs, dim) && Covers(vectors, dim)
    ensures v in Group(cs, vectors, dim, j) <==> v in vectors && Nearest(cs, v, dim) == j
  {
    if vectors != [] {
      var init, last := vectors[..|vectors| - 1], vectors[|vectors| - 1];
      assert vectors == init + [last];
      GroupMembership(cs, init, dim, j, v);
    }
  }

  /** Every member of a group is an input vector, so it is wide enough for mean. */
  lemma GroupCovers(cs: seq<Centroid>, vectors: seq<seq<real>>, dim: nat, j: nat)
    requires WellFormed(cs, dim) && Covers(vectors, dim)
    ensures Covers(Group(cs, vectors, dim, j), dim)
  {
    forall v | v in Group(cs, vectors, dim, j) ensures |v| >= dim {
      GroupMembership(cs, vectors, dim, j, v);
    }
  }

  /** Sum of the sizes of groups 0 .. n-1. */
  function GroupSizes(cs: seq<Centroid>, vectors: seq<seq<real>>, dim: nat, n: nat): nat
    requires WellFormed(cs, dim) && Covers(vectors, dim)
  {
    if n == 0 then 0 else GroupSizes(cs, vectors, dim, n - 1) + |Group(cs, vectors, dim, n - 1)|
  }

  lemma {:induction false} GroupSizesStep(cs: seq<Centroid>, vectors: seq<seq<real>>, dim: nat, v: seq<real>, n: nat)
    requires WellFormed(cs, dim) && Covers(vectors + [v], dim)
    ensures Covers(vectors, dim)
    ensures GroupSizes(cs, vectors + [v], dim, n)
         == GroupSizes(cs, vectors, dim, n) + (if Nearest(cs, v, dim) < n then 1 else 0)
  {
    assert forall x :: x in vectors ==> x in vectors + [v];
    var all := vectors + [v];
    assert all[..|all| - 1] == vectors;
    if n > 0 {
      GroupSizesStep(cs, vectors, dim, v, n - 1);
      assert Group(cs, all, dim, n - 1)
          == Group(cs, vectors, dim, n - 1) + (if Nearest(cs, v, dim) == n - 1 then [v] else []);
    }
  }

  /** Each round places every vector in exactly one group. */
  lemma {:induction false} GroupsPartition(cs: seq<Centroid>, vectors: seq<seq<real>>, dim: nat)
    requires WellFormed(cs, dim) && Covers(vectors, dim) && |cs| > 0
    ensures GroupSizes(cs, vectors, dim, |cs|) == |vectors|
  {
    if vectors == [] {
      GroupSizesOfNone(cs, dim, |cs|);
    } else {
      var init, last := vectors[..|vectors| - 1], vectors[|vectors| - 1];
      assert vectors == init + [last];
      GroupSizesStep(cs, init, dim, last, |cs|);
      GroupsPartition(cs, init, dim);
      NearestIsLastMinimum(cs, last, dim);
    }
  }

  lemma {:induction false} GroupSizesOfNone(cs: seq<Centroid>, dim: nat, n: nat)
    requires WellFormed(cs, dim)
    ensures GroupSizes(cs, [], dim, n) == 0
  {
    if n > 0 {
      GroupSizesOfNone(cs, dim, n - 1);
    }
  }

  lemma {:induction false} ColumnSumOfCopies(v: seq<real>, n: nat, i: nat)
    requires i < |v|
    ensures ColumnSum(seq(n, _ => v), i) == (n as real) * v[i]
  {
    if n > 0 {
      var copies := seq(n, _ => v);
      assert copies[..n - 1] == seq(n - 1, _ => v);
      ColumnSumOfCopies(v, n - 1, i);
    }
  }

  /** The mean of copies of one vector is that vector, cut to `dim` coordinates. */
  lemma MeanOfCopies(v: seq<real>, n: nat, dim: nat)
    requires n >= 1 && |v| >= dim
    ensures Covers(seq(n, _ => v), dim)
    ensures MeanOf(seq(n, _ => v), dim) == Centroid(v[..dim])
  {
    var copies := seq(n, _ => v);
    var m := MeanOf(copies, dim);
    forall i | 0 <= i < dim ensures m.coords[i] == v[i] {
      ColumnSumOfCopies(v, n, i);
      assert ColumnSum(copies, i) / (n as real) == ((n as real) * v[i]) / (n as real);
    }
    assert m.coords == v[..dim];
  }

  /** After at least one round every defined centroid has exactly `dim`
    * coordinates; with no input vector every group is empty. */
  lemma TrainShape(cs: seq<Centroid>, vectors: seq<seq<real>>, dim: nat, rounds: nat)
    requires WellFormed(cs, dim) && Covers(vectors, dim) && rounds >= 1
    ensures forall i :: 0 <= i < |cs| && Train(cs, vectors, dim, rounds)[i].Centroid? ==>
      |Train(cs, vectors, dim, rounds)[i].coords| == dim
    ensures vectors == [] ==> forall i :: 0 <= i < |cs| ==>
      Train(cs, vectors, dim, rounds)[i] == if dim == 0 then Centroid([]) else Undefined
  {
    var prev := Train(cs, vectors, dim, rounds - 1);
    var next := Train(cs, vectors, dim, rounds);
    assert next == Step(prev, vectors, dim);
    forall i | 0 <= i < |cs|
      ensures Covers(Group(prev, vectors, dim, i), dim)
      ensures next[i] == MeanOf(Group(prev, vectors, dim, i), dim)
      ensures vectors == [] ==> Group(prev, vectors, dim, i) == []
    {
      GroupCovers(prev, vectors, dim, i);
    }
  }

  // ---------------------------------------------------------------------
  // A worked example
  // ---------------------------------------------------------------------

  /** Two pairs of identical points, at (0, 0) and at (10, 10). */
  const Origin: seq<real> := [0.0, 0.0]
  const Corner: seq<real> := [10.0, 10.0]
  const Points: seq<seq<real>> := [Origin, Origin, Corner, Corner]

  lemma PointsDistances()
    ensures SqDist(Origin, Origin, 2) == 0.0 && SqDist(Corner, Corner, 2) == 0.0
    ensures SqDist(Origin, Corner, 2) == 200.0 && SqDist(Corner, Origin, 2) == 200.0
  {
  }

  /** One centroid on each pair: each point is nearest to the centroid on its own pair. */
  lemma PointsNearest(cs: seq<Centroid>)
    requires cs == [Centroid(Origin), Centroid(Corner)] || cs == [Centroid(Corner), Centroid(Origin)]
    ensures WellFormed(cs, 2)
    ensures Nearest(cs, Origin, 2) < 2 && Nearest(cs, Corner, 2) < 2
    ensures cs[Nearest(cs, Origin, 2)] == Centroid(Origin)
    ensures cs[Nearest(cs, Corner, 2)] == Centroid(Corner)
  {
    PointsDistances();
    NearestIsLastMinimum(cs, Origin, 2);
    NearestIsLastMinimum(cs, Corner, 2);
  }

  /** The group of centroid `j` collects each point whose nearest centroid is `j`. */
  lemma PointsGroup(cs: seq<Centroid>, j: nat)
    requires WellFormed(cs, 2)
    ensures Covers(Points, 2)
    ensures var o := if Nearest(cs, Origin, 2) == j then [Origin] else [];
      var c := if Nearest(cs, Corner, 2) == j then [Corner] else [];
      Group(cs, Points, 2, j) == o + o + c + c
  {
    var p := Points;
    assert p[..3] == [Origin, Origin, Corner];
    assert p[..3][..2] == [Origin, Origin];
    assert p[..3][..2][..1] == [Origin];
    assert p[..3][..2][..1][..0] == [];
    var o := if Nearest(cs, Origin, 2) == j then [Origin] else [];
    var c := if Nearest(cs, Corner, 2) == j then [Corner] else [];
    assert Group(cs, [Origin], 2, j) == o;
    assert Group(cs, [Origin, Origin], 2, j) == o + o;
    assert Group(cs, [Origin, Origin, Corner], 2, j) == o + o + c;
  }

  /** The groups of a round that starts with one centroid on each pair. */
  lemma PointsGroups(cs: seq<Centroid>)
    requires cs == [Centroid(Origin), Centroid(Corner)] || cs == [Centroid(Corner), Centroid(Origin)]
    ensures WellFormed(cs, 2) && Covers(Points, 2)
    ensures forall j :: 0 <= j < 2 ==>
      Group(cs, Points, 2, j) == if cs[j] == Centroid(Origin) then [Origin, Origin] else [Corner, Corner]
  {
    PointsNearest(cs);
    forall j | 0 <= j < 2
      ensures Group(cs, Points, 2, j) == if cs[j] == Centroid(Origin) then [Origin, Origin] else [Corner, Corner]
    {
      PointsGroup(cs, j);
    }
  }

  /** A round that starts with one centroid on each pair leaves the centroids where they are. */
  lemma PointsStep(cs: seq<Centroid>)
    requires cs == [Centroid(Origin), Centroid(Corner)] || cs == [Centroid(Corner), Centroid(Origin)]
    ensures WellFormed(cs, 2) && Covers(Points, 2)
    ensures Step(cs, Points, 2) == cs
  {
    PointsGroups(cs);
    MeanOfCopies(Origin, 2, 2);
    MeanOfCopies(Corner, 2, 2);
    assert seq(2, _ => Origin) == [Origin, Origin];
    assert seq(2, _ => Corner) == [Corner, Corner];
    assert Origin[..2] == Origin && Corner[..2] == Corner;
    var next := Step(cs, Points, 2);
    forall j | 0 <= j < 2
      ensures next[j] == cs[j]
    {
      if cs[j] == Centroid(Origin) {
        assert Group(cs, Points, 2, j) == seq(2, _ => Origin);
      } else {
        assert Group(cs, Points, 2, j) == seq(2, _ => Corner);
      }
    }
  }

  /** k = 2, one round, over the two pairs: when the initial draw puts one
    * centroid on each pair, fit recovers both pairs and infer separates them. */
  lemma TwoPairsScenario(picks: seq<nat>)
    requires |picks| == 2 && picks[0] < 4 && picks[1] < 4
    requires Points[picks[0]] != Points[picks[1]]
    ensures Covers(Points, 2) && WellFormed(InitialCentroids(Points, picks), 2)
    ensures var cs := Train(InitialCentroids(Points, picks), Points, 2, 1);
      && cs == InitialCentroids(Points, picks)
      && Nearest(cs, Origin, 2) != Nearest(cs, Corner, 2)
  {
    var cs := InitialCentroids(Points, picks);
    assert cs == [Centroid(Points[picks[0]]), Centroid(Points[picks[1]])];
    PointsStep(cs);
    PointsNearest(cs);
  }
}
