/**
 The export of a level: from the active dots and the traced path, one entry
 per dot holding its coordinates and `join`, the dedup-list positions of its
 path neighbours, ordered by the dot's first position in the path.
 */
module Export {
  import opened Wrappers
  import opened Cells
  import opened Paths

  /** A `level` entry while it is being built; `id` stays `undefined` (None) for a dot the path never visits. */
  datatype Entry = Entry(dot: Cell, join: seq<int>, id: Option<nat>)

  /** An exported point: the entry without its id. */
  datatype ExportedPoint = ExportedPoint(dot: Cell, join: seq<int>)

  /** The exported object `{ id, points }`. */
  datatype ExportedLevel = ExportedLevel(id: int, points: seq<ExportedPoint>)

  /** `v` is the dedup-list position of a path neighbour of some visit of `c`. */
  ghost predicate NeighbourPosition(points: seq<Cell>, c: Cell, v: int) {
    exists i, k :: 0 <= i < |points| && 0 <= k < |points| && points[i] == c
      && (k == i - 1 || k == i + 1) && v == FindIndex(Dedup(points), points[k])
  }

  /**
   The `subIndexes` of visit `i`: the dedup positions of the previous and
   then the next path cell, each only if it exists.
   */
  function Neighbours(points: seq<Cell>, i: nat): (r: seq<int>)
    requires i < |points|
    ensures |r| == (if i >= 1 then 1 else 0) + (if i + 1 < |points| then 1 else 0)
    ensures i >= 1 ==> r[0] == FindIndex(Dedup(points), points[i - 1])
    ensures i + 1 < |points| ==> r[|r| - 1] == FindIndex(Dedup(points), points[i + 1])
    ensures forall k :: 0 <= k < |r| ==> 0 <= r[k] < |Dedup(points)|
  {
    var u := Dedup(points);
    (if i >= 1 then [FindIndex(u, points[i - 1])] else [])
      + (if i + 1 < |points| then [FindIndex(u, points[i + 1])] else [])
  }

  /** The `join` a dot has collected after the scan has passed the first `n` path cells. */
  function JoinUpTo(c: Cell, points: seq<Cell>, n: nat): (r: seq<int>)
    requires n <= |points|
    ensures forall k :: 0 <= k < |r| ==> 0 <= r[k] < |Dedup(points)|
  {
    if n == 0 then []
    else JoinUpTo(c, points, n - 1) + (if points[n - 1] == c then Neighbours(points, n - 1) else [])
  }

  /** Every value collected in a `join` is the position of a path neighbour of a visit. */
  lemma {:induction false} JoinUpToSound(c: Cell, points: seq<Cell>, n: nat)
    requires n <= |points|
    ensures forall v :: v in JoinUpTo(c, points, n) ==> NeighbourPosition(points, c, v)
  {
    if n > 0 {
      JoinUpToSound(c, points, n - 1);
      var i := n - 1;
      if points[i] == c {
        var ns := Neighbours(points, i);
        var u := Dedup(points);
        forall v | v in ns
          ensures NeighbourPosition(points, c, v)
        {
          if i >= 1 && v == FindIndex(u, points[i - 1]) {
            assert points[i] == c && i - 1 == i - 1;
          } else {
            assert v == FindIndex(u, points[i + 1]);
          }
        }
      }
    }
  }

  /** The `join` of a dot: the neighbour positions of all its visits, in path order. */
  function Join(c: Cell, points: seq<Cell>): (r: seq<int>)
    ensures forall k :: 0 <= k < |r| ==> 0 <= r[k] < |Dedup(points)|
    ensures c !in points ==> r == []
  {
    if c !in points then JoinUpToOfUnvisited(c, points, |points|); JoinUpTo(c, points, |points|)
    else JoinUpTo(c, points, |points|)
  }

  /** The `level` array before sorting: one entry per dot, in the order of `dots`. */
  function BuildLevel(dots: seq<Cell>, points: seq<Cell>): (r: seq<Entry>)
    ensures |r| == |dots|
  {
    seq(|dots|, i requires 0 <= i < |dots| => Entry(dots[i], Join(dots[i], points), FirstIndex(points, dots[i])))
  }

  /**
   The entry-building loop as the editor runs it: for each dot, scan the path
   and collect that dot's entry.
   */
  method GenerateLevel(dots: seq<Cell>, points: seq<Cell>) returns (level: seq<Entry>)
    ensures |level| == |dots|
    ensures forall i :: 0 <= i < |dots| ==> level[i].dot == dots[i]
    ensures forall i :: 0 <= i < |dots| ==> level[i].join == Join(dots[i], points)
    ensures forall i :: 0 <= i < |dots| ==> level[i].id == FirstIndex(points, dots[i])
    ensures level == BuildLevel(dots, points)
  {
    var unique := Dedup(points);
    level := [];
    var n := 0;
    while n < |dots|
      invariant n <= |dots|
      invariant |level| == n
      invariant forall i :: 0 <= i < n ==> level[i] == Entry(dots[i], Join(dots[i], points), FirstIndex(points, dots[i]))
    {
      var item := ScanPath(dots[n], points, unique);
      level := level + [item];
      n := n + 1;
    }
  }

  /**
   The inner scan for one dot: at every visit, set `id` if it is still unset
   and append the visit's `subIndexes` to `join`.
   */
  method ScanPath(c: Cell, points: seq<Cell>, unique: seq<Cell>) returns (item: Entry)
    requires unique == Dedup(points)
    ensures item.dot == c
    ensures item.join == Join(c, points)
    ensures item.id == FirstIndex(points, c)
  {
    item := Entry(c, [], None);
    var index := 0;
    while index < |points|
      invariant index <= |points|
      invariant ScannedUpTo(item, c, points, index)
    {
      item := ScanStep(item, c, points, unique, index);
      index := index + 1;
    }
  }

  /** What the scan for dot `c` has collected after the first `n` path cells. */
  predicate ScannedUpTo(item: Entry, c: Cell, points: seq<Cell>, n: nat)
    requires n <= |points|
  {
    && item.dot == c
    && item.join == JoinUpTo(c, points, n)
    && (item.id.Some? ==> item.id == FirstIndex(points, c))
    && (item.id.None? ==> forall j :: 0 <= j < n ==> points[j] != c)
  }

  /** One iteration of the inner scan, at path index `index`. */
  method ScanStep(item: Entry, c: Cell, points: seq<Cell>, unique: seq<Cell>, index: nat) returns (next: Entry)
    requires unique == Dedup(points) && index < |points|
    requires ScannedUpTo(item, c, points, index)
    ensures ScannedUpTo(next, c, points, index + 1)
  {
    next := item;
    var point := points[index];
    if point == c {
      var before := if index >= 1 then [FindIndex(unique, points[index - 1])] else [];
      var after := if index + 1 < |points| then [FindIndex(unique, points[index + 1])] else [];
      var subIndexes := before + after;
      JoinUpToVisit(c, points, index);
      if next.id == None {
        FirstIndexUnique(points, c, index);
        next := next.(id := Some(index));
      }
      next := next.(dot := point, join := next.join + subIndexes);
    } else {
      JoinUpToSkip(c, points, index);
    }
  }

  /** A visit at `n` appends the dedup positions of the previous and then the next path cell. */
  lemma JoinUpToVisit(c: Cell, points: seq<Cell>, n: nat)
    requires n < |points| && points[n] == c
    ensures JoinUpTo(c, points, n + 1) == JoinUpTo(c, points, n)
      + ((if n >= 1 then [FindIndex(Dedup(points), points[n - 1])] else [])
        + (if n + 1 < |points| then [FindIndex(Dedup(points), points[n + 1])] else []))
  {
  }

  /** A path cell other than `c` adds nothing to its `join`. */
  lemma JoinUpToSkip(c: Cell, points: seq<Cell>, n: nat)
    requires n < |points| && points[n] != c
    ensures JoinUpTo(c, points, n + 1) == JoinUpTo(c, points, n)
  {
  }

  /** Every neighbour position of every visit of `c` is in its `join`. */
  lemma {:induction false} JoinUpToComplete(c: Cell, points: seq<Cell>, n: nat, i: nat, k: nat)
    requires i < n <= |points| && k < |points| && points[i] == c
    requires k == i - 1 || k == i + 1
    ensures FindIndex(Dedup(points), points[k]) in JoinUpTo(c, points, n)
    decreases n
  {
    var v := FindIndex(Dedup(points), points[k]);
    JoinUpToStep(c, points, n);
    if i < n - 1 {
      JoinUpToComplete(c, points, n - 1, i, k);
      assert v in JoinUpTo(c, points, n - 1);
    } else {
      if k == i - 1 {
        NeighbourBefore(points, i);
      } else {
        NeighbourAfter(points, i);
      }
      assert v in Neighbours(points, n - 1);
    }
  }

  /** One more path cell keeps what was collected and adds that cell's neighbours if it is a visit. */
  lemma JoinUpToStep(c: Cell, points: seq<Cell>, n: nat)
    requires 0 < n <= |points|
    ensures forall v :: v in JoinUpTo(c, points, n - 1) ==> v in JoinUpTo(c, points, n)
    ensures points[n - 1] == c ==> forall v :: v in Neighbours(points, n - 1) ==> v in JoinUpTo(c, points, n)
  {
  }

  lemma NeighbourBefore(points: seq<Cell>, i: nat)
    requires 1 <= i < |points|
    ensures FindIndex(Dedup(points), points[i - 1]) in Neighbours(points, i)
  {
    var ns := Neighbours(points, i);
    assert ns[0] in ns;
  }

  lemma NeighbourAfter(points: seq<Cell>, i: nat)
    requires i + 1 < |points|
    ensures FindIndex(Dedup(points), points[i + 1]) in Neighbours(points, i)
  {
    var ns := Neighbours(points, i);
    assert ns[|ns| - 1] in ns;
  }

  /** The values in a dot's `join` are exactly the dedup positions of the path neighbours of its visits. */
  lemma JoinContents(c: Cell, points: seq<Cell>, v: int)
    ensures v in Join(c, points) <==> NeighbourPosition(points, c, v)
  {
    JoinUpToSound(c, points, |points|);
    if NeighbourPosition(points, c, v) {
      var i, k :| 0 <= i < |points| && 0 <= k < |points| && points[i] == c
        && (k == i - 1 || k == i + 1) && v == FindIndex(Dedup(points), points[k]);
      JoinUpToComplete(c, points, |points|, i, k);
    }
  }

  /** A dot that the path never visits keeps an empty `join`. */
  lemma {:induction false} JoinUpToOfUnvisited(c: Cell, points: seq<Cell>, n: nat)
    requires n <= |points| && c !in points
    ensures JoinUpTo(c, points, n) == []
  {
    if n > 0 {
      JoinUpToOfUnvisited(c, points, n - 1);
    }
  }

  /**
   The order `level.sort((a, b) => a.id - b.id)` sorts by. Ids are compared
   numerically; where an id is `undefined` the comparison is NaN and the
   editor's order is unspecified, so this model puts such entries last.
   */
  predicate IdLe(a: Option<nat>, b: Option<nat>) {
    b.None? || (a.Some? && a.value <= b.value)
  }

  predicate SortedById(s: seq<Entry>) {
    forall i, j :: 0 <= i < j < |s| ==> IdLe(s[i].id, s[j].id)
  }

  function Insert(e: Entry, s: seq<Entry>): (r: seq<Entry>)
    requires SortedById(s)
    ensures SortedById(r)
    ensures multiset(r) == multiset(s) + multiset{e}
  {
    if |s| == 0 then [e]
    else if IdLe(e.id, s[0].id) then
      assert forall j :: 0 <= j < |s| ==> IdLe(e.id, s[j].id) by {
        forall j | 0 < j < |s|
          ensures IdLe(e.id, s[j].id)
        {
          assert IdLe(s[0].id, s[j].id);
        }
      }
      ConsSorted(e, s);
      [e] + s
    else
      var t := Insert(e, s[1..]);
      assert s == [s[0]] + s[1..];
      forall j | 0 <= j < |s| - 1
        ensures IdLe(s[0].id, s[1..][j].id)
      {
        assert s[1..][j] == s[j + 1];
      }
      SortedTail(s);
      BoundKept(s[0].id, e, s[1..], t);
      ConsSorted(s[0], t);
      [s[0]] + t
  }

  /** An entry whose id bounds every id of a sorted sequence can go in front of it. */
  lemma ConsSorted(x: Entry, t: seq<Entry>)
    requires SortedById(t)
    requires forall j :: 0 <= j < |t| ==> IdLe(x.id, t[j].id)
    ensures SortedById([x] + t)
  {
    forall i, j | 0 <= i < j < |t| + 1
      ensures IdLe(([x] + t)[i].id, ([x] + t)[j].id)
    {
      assert ([x] + t)[j] == t[j - 1];
      if i > 0 {
        assert ([x] + t)[i] == t[i - 1];
      }
    }
  }

  /** A lower bound on the ids of a sequence and of a new entry bounds the ids of any permutation of both. */
  lemma BoundKept(lo: Option<nat>, e: Entry, s: seq<Entry>, t: seq<Entry>)
    requires IdLe(lo, e.id)
    requires forall j :: 0 <= j < |s| ==> IdLe(lo, s[j].id)
    requires multiset(t) == multiset(s) + multiset{e}
    ensures forall j :: 0 <= j < |t| ==> IdLe(lo, t[j].id)
  {
    forall j | 0 <= j < |t|
      ensures IdLe(lo, t[j].id)
    {
      assert t[j] in multiset(t);
      if t[j] != e {
        assert t[j] in multiset(s);
        var m :| 0 <= m < |s| && s[m] == t[j];
      }
    }
  }

  /** The sort of the level entries: a permutation of them, ordered by id. */
  function SortById(s: seq<Entry>): (r: seq<Entry>)
    ensures SortedById(r)
    ensures multiset(r) == multiset(s)
  {
    if |s| == 0 then []
    else
      assert s == [s[0]] + s[1..];
      Insert(s[0], SortById(s[1..]))
  }

  /** The final `map(({ dot, join }) => ({ dot, join }))`: each entry without its id. */
  function Points(level: seq<Entry>): (r: seq<ExportedPoint>)
    ensures |r| == |level|
    ensures forall i :: 0 <= i < |level| ==> r[i].dot == level[i].dot && r[i].join == level[i].join
  {
    seq(|level|, i requires 0 <= i < |level| => ExportedPoint(level[i].dot, level[i].join))
  }

  /** The point exported for each dot, in the order of `dots`, stated without the editor's loops. */
  function ExpectedPoints(dots: seq<Cell>, points: seq<Cell>): (r: seq<ExportedPoint>)
    ensures |r| == |dots|
  {
    seq(|dots|, i requires 0 <= i < |dots| => ExportedPoint(dots[i], Join(dots[i], points)))
  }

  lemma PointsAppend(x: seq<Entry>, y: seq<Entry>)
    ensures Points(x + y) == Points(x) + Points(y)
  {
  }

  lemma PointsSplitCount(b: seq<Entry>, k: nat)
    requires k < |b|
    ensures multiset(Points(b)) == multiset(Points(b[..k])) + multiset{ExportedPoint(b[k].dot, b[k].join)} + multiset(Points(b[k + 1..]))
  {
    PointsSplit(b, k);
  }

  lemma PointsHeadCount(a: seq<Entry>)
    requires 0 < |a|
    ensures multiset(Points(a)) == multiset{ExportedPoint(a[0].dot, a[0].join)} + multiset(Points(a[1..]))
  {
    var h := [ExportedPoint(a[0].dot, a[0].join)];
    assert Points(a) == h + Points(a[1..]) by {
      PointsSplit(a, 0);
      assert a[..0] == [];
      assert Points(a[..0]) == [];
    }
  }

  lemma PointsSplit(b: seq<Entry>, k: nat)
    requires k < |b|
    ensures Points(b) == Points(b[..k]) + [ExportedPoint(b[k].dot, b[k].join)] + Points(b[k + 1..])
  {
    SplitAt(b, k);
    PointsAppend(b[..k] + [b[k]], b[k + 1..]);
    PointsAppend(b[..k], [b[k]]);
  }

  lemma SplitAt<A>(b: seq<A>, k: nat)
    requires k < |b|
    ensures b == b[..k] + [b[k]] + b[k + 1..]
  {
  }

  /** Removing one copy of `a[0]` from both sides of a permutation leaves a permutation. */
  lemma PermutationTail<A>(a: seq<A>, b: seq<A>, k: nat)
    requires multiset(a) == multiset(b) && |a| > 0 && k < |b| && b[k] == a[0]
    ensures multiset(a[1..]) == multiset(b[..k] + b[k + 1..])
  {
    assert a == [a[0]] + a[1..];
    SplitAt(b, k);
    var b' := b[..k] + b[k + 1..];
    assert multiset(b) == multiset(b[..k]) + multiset{b[k]} + multiset(b[k + 1..]);
    assert multiset(b') == multiset(b[..k]) + multiset(b[k + 1..]);
    assert multiset(a) == multiset{a[0]} + multiset(a[1..]);
    forall x
      ensures multiset(a[1..])[x] == multiset(b')[x]
    {
      assert multiset(a)[x] == multiset{a[0]}[x] + multiset(a[1..])[x];
      assert multiset(b)[x] == multiset(b[..k])[x] + multiset{b[k]}[x] + multiset(b[k + 1..])[x];
    }
  }

  /** Dropping the ids of two permutations of each other gives permutations of each other. */
  lemma {:induction false} PointsPermutation(a: seq<Entry>, b: seq<Entry>)
    requires multiset(a) == multiset(b)
    ensures multiset(Points(a)) == multiset(Points(b))
    decreases |a|
  {
    if |a| == 0 {
      assert |b| == 0 by {
        assert |multiset(b)| == |b|;
      }
    } else {
      assert a[0] in multiset(b);
      var k :| 0 <= k < |b| && b[k] == a[0];
      var left, right := b[..k], b[k + 1..];
      PermutationTail(a, b, k);
      PointsPermutation(a[1..], left + right);
      var p := ExportedPoint(a[0].dot, a[0].join);
      var rest := Points(a[1..]);
      var ml, mr := Points(left), Points(right);
      PointsHeadCount(a);
      PointsSplitCount(b, k);
      PointsAppend(left, right);
      assert multiset(rest) == multiset(ml) + multiset(mr);
      forall x
        ensures multiset(Points(a))[x] == multiset(Points(b))[x]
      {
        assert multiset(Points(a))[x] == multiset{p}[x] + multiset(rest)[x];
        assert multiset(Points(b))[x] == multiset(ml)[x] + multiset{p}[x] + multiset(mr)[x];
      }
    }
  }

  /**
   `generate`: the exported level. Its points are a permutation of the
   expected point of each dot, so there is exactly one per dot.
   */
  function Derive(dots: seq<Cell>, points: seq<Cell>, levelId: int): (r: ExportedLevel)
    ensures r.id == levelId
    ensures |r.points| == |dots|
    ensures multiset(r.points) == multiset(ExpectedPoints(dots, points))
  {
    var level := BuildLevel(dots, points);
    var sorted := SortById(level);
    PointsPermutation(sorted, level);
    assert Points(level) == ExpectedPoints(dots, points);
    ExportedLevel(levelId, Points(sorted))
  }

  /** An entry as the editor builds it for its own dot. */
  predicate IsEntryFor(points: seq<Cell>, x: Entry) {
    x == Entry(x.dot, Join(x.dot, points), FirstIndex(points, x.dot))
  }

  /** Every sorted entry is the entry built for one of the dots. */
  lemma SortedEntries(dots: seq<Cell>, points: seq<Cell>, x: Entry)
    requires x in SortById(BuildLevel(dots, points))
    ensures x.dot in dots && IsEntryFor(points, x)
  {
    var level := BuildLevel(dots, points);
    assert x in multiset(SortById(level));
    assert x in multiset(level);
    var m :| 0 <= m < |level| && level[m] == x;
  }

  /** Every `join` value of every point lies in `0..bound - 1`. */
  predicate JoinsInRange(ps: seq<ExportedPoint>, bound: nat) {
    forall i, k :: 0 <= i < |ps| && 0 <= k < |ps[i].join| ==> 0 <= ps[i].join[k] < bound
  }

  /** Every `join` value of the export is a valid index into the deduplicated path. */
  lemma DeriveJoinsInRange(dots: seq<Cell>, points: seq<Cell>, levelId: int)
    ensures JoinsInRange(Derive(dots, points, levelId).points, |Dedup(points)|)
  {
    var sorted := SortById(BuildLevel(dots, points));
    forall i | 0 <= i < |sorted|
      ensures sorted[i].join == Join(sorted[i].dot, points)
    {
      SortedEntries(dots, points, sorted[i]);
    }
  }

  /**
   Each exported point carries one of the dots with that dot's `join`, and
   each dot's point is exported.
   */
  lemma DerivePoints(dots: seq<Cell>, points: seq<Cell>, levelId: int)
    ensures forall p :: p in Derive(dots, points, levelId).points <==> exists d :: d in dots && p == ExportedPoint(d, Join(d, points))
  {
    var r := Derive(dots, points, levelId).points;
    var e := ExpectedPoints(dots, points);
    forall p
      ensures p in r <==> exists d :: d in dots && p == ExportedPoint(d, Join(d, points))
    {
      assert p in r <==> p in multiset(e);
      if p in e {
        var m :| 0 <= m < |e| && e[m] == p;
        assert dots[m] in dots;
      }
      if exists d :: d in dots && p == ExportedPoint(d, Join(d, points)) {
        var d :| d in dots && p == ExportedPoint(d, Join(d, points));
        var m :| 0 <= m < |dots| && dots[m] == d;
        assert e[m] == p;
      }
    }
  }

  /** Every dot is visited by the path. */
  predicate AllDrawn(dots: seq<Cell>, points: seq<Cell>) {
    forall d :: d in dots ==> d in points
  }

  /** Every point's dot is on the path, and the points follow the order of first visits. */
  predicate InFirstVisitOrder(ps: seq<ExportedPoint>, points: seq<Cell>) {
    forall i, j :: 0 <= i < j < |ps| ==> 0 <= FindIndex(points, ps[i].dot) <= FindIndex(points, ps[j].dot)
  }

  /** When every dot is drawn, the exported points follow the order of first visits along the path. */
  lemma DeriveOrdered(dots: seq<Cell>, points: seq<Cell>, levelId: int)
    requires AllDrawn(dots, points)
    ensures InFirstVisitOrder(Derive(dots, points, levelId).points, points)
  {
    var sorted := SortById(BuildLevel(dots, points));
    var r := Derive(dots, points, levelId).points;
    forall i | 0 <= i < |sorted|
      ensures sorted[i].id == Some(FindIndex(points, sorted[i].dot))
    {
      SortedEntries(dots, points, sorted[i]);
    }
    forall i, j | 0 <= i < j < |r|
      ensures 0 <= FindIndex(points, r[i].dot) <= FindIndex(points, r[j].dot)
    {
      assert r[i].dot == sorted[i].dot && r[j].dot == sorted[j].dot;
      assert IdLe(sorted[i].id, sorted[j].id);
    }
  }

  lemma SameHeadSameTail<T>(a: seq<T>, b: seq<T>)
    requires |a| > 0 && |b| > 0 && a[0] == b[0] && a[1..] == b[1..]
    ensures a == b
  {
    assert a == [a[0]] + a[1..];
    assert b == [b[0]] + b[1..];
  }

  /**
   With every dot drawn, entries with equal ids are equal, so a sorted
   permutation of the level is unique: any consistent sort the editor's
   runtime uses yields exactly the exported points of this model.
   */
  lemma {:induction false} SortedPermutationUnique(a: seq<Entry>, b: seq<Entry>)
    requires multiset(a) == multiset(b)
    requires SortedById(a) && SortedById(b)
    requires IdsDistinguish(a)
    ensures a == b
    decreases |a|
  {
    assert |multiset(a)| == |a| && |multiset(b)| == |b|;
    if |a| > 0 {
      SortedHeadsEqual(a, b);
      HeadTailPermutation(a, b);
      SortedTail(a);
      SortedTail(b);
      IdsDistinguishTail(a);
      SortedPermutationUnique(a[1..], b[1..]);
      SameHeadSameTail(a, b);
    }
  }

  /** Entries carry ids, and no two different entries carry the same id. */
  predicate IdsDistinguish(s: seq<Entry>)
  {
    (forall x :: x in s ==> x.id.Some?)
    && (forall x, y :: x in s && y in s && x.id == y.id ==> x == y)
  }

  lemma IdsDistinguishTail(s: seq<Entry>)
    requires IdsDistinguish(s) && |s| > 0
    ensures IdsDistinguish(s[1..])
  {
    assert forall x :: x in s[1..] ==> x in s;
  }

  lemma HeadTailPermutation<A>(a: seq<A>, b: seq<A>)
    requires multiset(a) == multiset(b) && |a| > 0 && |b| > 0 && a[0] == b[0]
    ensures multiset(a[1..]) == multiset(b[1..])
  {
    PermutationTail(a, b, 0);
    assert b[..0] + b[1..] == b[1..];
  }

  /** Two sorted permutations with distinguishing ids start with the same entry. */
  lemma SortedHeadsEqual(a: seq<Entry>, b: seq<Entry>)
    requires multiset(a) == multiset(b) && |a| > 0 && |b| > 0
    requires SortedById(a) && SortedById(b)
    requires IdsDistinguish(a)
    ensures a[0] == b[0]
  {
    assert a[0] in multiset(b);
    assert b[0] in multiset(a);
    var k :| 0 <= k < |b| && b[k] == a[0];
    var m :| 0 <= m < |a| && a[m] == b[0];
    assert a[0].id.Some? && b[0].id.Some?;
    assert a[0].id.value <= b[0].id.value by {
      assert m == 0 || IdLe(a[0].id, a[m].id);
    }
    assert b[0].id.value <= a[0].id.value by {
      assert k == 0 || IdLe(b[0].id, b[k].id);
    }
    assert b[0] in a;
  }

  lemma SortedTail(s: seq<Entry>)
    requires SortedById(s) && |s| > 0
    ensures SortedById(s[1..])
  {
    forall i, j | 0 <= i < j < |s| - 1
      ensures IdLe(s[1..][i].id, s[1..][j].id)
    {
      assert s[1..][i] == s[i + 1] && s[1..][j] == s[j + 1];
    }
  }

  /** When every dot is drawn, equal ids in the level belong to equal entries. */
  lemma LevelIdsDistinguish(dots: seq<Cell>, points: seq<Cell>)
    requires AllDrawn(dots, points)
    ensures forall x :: x in BuildLevel(dots, points) ==> x.id.Some?
    ensures forall x, y :: x in BuildLevel(dots, points) && y in BuildLevel(dots, points) && x.id == y.id ==> x == y
  {
    var level := BuildLevel(dots, points);
    forall x, y | x in level && y in level && x.id == y.id
      ensures x == y
    {
      var i :| 0 <= i < |level| && level[i] == x;
      var j :| 0 <= j < |level| && level[j] == y;
      assert x.dot == points[x.id.value] == y.dot;
    }
  }

  /**
   When every dot is drawn, the export does not depend on the sort used: any
   permutation of the level that is ordered by id exports the same points.
   */
  lemma DeriveSortIndependent(dots: seq<Cell>, points: seq<Cell>, levelId: int, t: seq<Entry>)
    requires AllDrawn(dots, points)
    requires multiset(t) == multiset(BuildLevel(dots, points))
    requires SortedById(t)
    ensures Points(t) == Derive(dots, points, levelId).points
  {
    var level := BuildLevel(dots, points);
    var sorted := SortById(level);
    LevelIdsDistinguish(dots, points);
    forall x | x in sorted
      ensures x in level
    {
      assert x in multiset(sorted);
    }
    SortedPermutationUnique(sorted, t);
  }

  /**
   A stroke through three distinct cells, each of them a dot: the ends join
   the middle, the middle joins both ends.
   */
  lemma ThreeCellStroke(a: Cell, b: Cell, c: Cell, levelId: int)
    requires a != b && b != c && a != c
    ensures Derive([a, b, c], [a, b, c], levelId) == ExportedLevel(levelId, [
      ExportedPoint(a, [1]), ExportedPoint(b, [0, 2]), ExportedPoint(c, [1])])
  {
    var path := [a, b, c];
    var level := BuildLevel(path, path);
    StrokeSorted(a, b, c);
    DeriveSortIndependent(path, path, levelId, level);
    StrokePoints(a, b, c);
  }

  lemma StrokeSorted(a: Cell, b: Cell, c: Cell)
    requires a != b && b != c && a != c
    ensures SortedById(BuildLevel([a, b, c], [a, b, c]))
    ensures AllDrawn([a, b, c], [a, b, c])
  {
    StrokeLevel(a, b, c);
  }

  lemma StrokePoints(a: Cell, b: Cell, c: Cell)
    requires a != b && b != c && a != c
    ensures Points(BuildLevel([a, b, c], [a, b, c])) == [ExportedPoint(a, [1]), ExportedPoint(b, [0, 2]), ExportedPoint(c, [1])]
  {
    StrokeLevel(a, b, c);
    var stripped := Points(BuildLevel([a, b, c], [a, b, c]));
    assert stripped[0] == ExportedPoint(a, [1]);
    assert stripped[1] == ExportedPoint(b, [0, 2]);
    assert stripped[2] == ExportedPoint(c, [1]);
  }

  lemma StrokeLevel(a: Cell, b: Cell, c: Cell)
    requires a != b && b != c && a != c
    ensures BuildLevel([a, b, c], [a, b, c]) == [Entry(a, [1], Some(0)), Entry(b, [0, 2], Some(1)), Entry(c, [1], Some(2))]
  {
    var path := [a, b, c];
    StrokeJoins(a, b, c);
    FirstIndexUnique(path, a, 0);
    FirstIndexUnique(path, b, 1);
    FirstIndexUnique(path, c, 2);
    var level := BuildLevel(path, path);
    assert level[0] == Entry(a, [1], Some(0));
    assert level[1] == Entry(b, [0, 2], Some(1));
    assert level[2] == Entry(c, [1], Some(2));
  }

  lemma StrokePositions(a: Cell, b: Cell, c: Cell)
    requires a != b && b != c && a != c
    ensures FindIndex(Dedup([a, b, c]), a) == 0
    ensures FindIndex(Dedup([a, b, c]), b) == 1
    ensures FindIndex(Dedup([a, b, c]), c) == 2
  {
    var path := [a, b, c];
    DedupOfDistinct(path);
    FirstIndexUnique(path, a, 0);
    FirstIndexUnique(path, b, 1);
    FirstIndexUnique(path, c, 2);
  }

  lemma StrokeJoins(a: Cell, b: Cell, c: Cell)
    requires a != b && b != c && a != c
    ensures Join(a, [a, b, c]) == [1] && Join(b, [a, b, c]) == [0, 2] && Join(c, [a, b, c]) == [1]
  {
    StrokePositions(a, b, c);
    StrokeJoinEnds(a, b, c);
    StrokeJoinMiddle(a, b, c);
  }

  lemma StrokeJoinEnds(a: Cell, b: Cell, c: Cell)
    requires a != b && b != c && a != c
    requires FindIndex(Dedup([a, b, c]), b) == 1
    ensures Join(a, [a, b, c]) == [1] && Join(c, [a, b, c]) == [1]
  {
    var path := [a, b, c];
    JoinUpToVisit(a, path, 0);
    JoinUpToSkip(a, path, 1);
    JoinUpToSkip(a, path, 2);
    JoinUpToSkip(c, path, 0);
    JoinUpToSkip(c, path, 1);
    JoinUpToVisit(c, path, 2);
  }

  lemma StrokeJoinMiddle(a: Cell, b: Cell, c: Cell)
    requires a != b && b != c && a != c
    requires FindIndex(Dedup([a, b, c]), a) == 0 && FindIndex(Dedup([a, b, c]), c) == 2
    ensures Join(b, [a, b, c]) == [0, 2]
  {
    var path := [a, b, c];
    JoinUpToSkip(b, path, 0);
    JoinUpToVisit(b, path, 1);
    JoinUpToSkip(b, path, 2);
  }

  /** On a one-cell path neither neighbour is in bounds, so its visit adds nothing to `join`. */
  lemma OneCellPathNoNeighbours(a: Cell)
    ensures Neighbours([a], 0) == [] && Join(a, [a]) == []
  {
    JoinUpToVisit(a, [a], 0);
  }

  /** Revisiting a cell repeats positions in `join`: they are not deduplicated. */
  lemma RevisitRepeatsJoin(a: Cell, b: Cell)
    requires a != b
    ensures Join(b, [a, b, a]) == [0, 0] && Join(a, [a, b, a]) == [1, 1]
  {
    RevisitJoinB(a, b);
    RevisitJoinA(a, b);
  }

  lemma RevisitJoinB(a: Cell, b: Cell)
    requires a != b
    ensures Join(b, [a, b, a]) == [0, 0]
  {
    var path := [a, b, a];
    RevisitPositions(a, b);
    JoinUpToSkip(b, path, 0);
    JoinUpToVisit(b, path, 1);
    JoinUpToSkip(b, path, 2);
  }

  lemma RevisitJoinA(a: Cell, b: Cell)
    requires a != b
    ensures Join(a, [a, b, a]) == [1, 1]
  {
    var path := [a, b, a];
    RevisitPositions(a, b);
    JoinUpToVisit(a, path, 0);
    JoinUpToSkip(a, path, 1);
    JoinUpToVisit(a, path, 2);
  }

  lemma RevisitPositions(a: Cell, b: Cell)
    requires a != b
    ensures FindIndex(Dedup([a, b, a]), a) == 0 && FindIndex(Dedup([a, b, a]), b) == 1
  {
    assert [a, b, a][..2] == [a, b];
    DedupOfDistinct([a, b]);
    FirstIndexUnique([a, b], a, 0);
    FirstIndexUnique([a, b], b, 1);
  }
}
