/** Which features may share a signal bit: the interval check of the settings, the state of a feature
at every height, and when the check is enough. */
module FeatureSettings {
  import opened Wrappers

  type Feature = nat

  datatype Criteria = Criteria(bit: nat, start: nat, timeout: nat, minimumActivation: nat, lockInOnTimeout: bool, threshold: nat)

  /** What the criteria validators demand; `E` is the evaluation interval. */
  ghost predicate ValidCriteria(c: Criteria, E: nat, maxBits: nat) {
    && E > 0 && c.bit < maxBits && c.threshold <= E
    && c.start % E == 0 && c.timeout % E == 0 && c.minimumActivation % E == 0
    && c.timeout >= c.start + 2 * E
  }

  // ----- overlapping intervals -----

  datatype Interval = Interval(begin: nat, end: nat, feature: Feature)

  datatype Overlap = NoOverlap | Overlap(first: Interval, second: Interval)

  predicate Apart(a: Interval, b: Interval) {
    a.end < b.begin || b.end < a.begin
  }

  ghost predicate AllApart(s: seq<Interval>) {
    forall i, j :: 0 <= i < j < |s| ==> Apart(s[i], s[j])
  }

  ghost predicate SortedByBegin(s: seq<Interval>) {
    forall i, j :: 0 <= i < j < |s| ==> s[i].begin <= s[j].begin
  }

  /** Stable insertion by begin. */
  function Insert(x: Interval, s: seq<Interval>): (r: seq<Interval>)
    ensures multiset(r) == multiset(s) + multiset{x}
  {
    if s == [] then [x]
    else if x.begin < s[0].begin then [x] + s
    else
      assert s == [s[0]] + s[1..];
      [s[0]] + Insert(x, s[1..])
  }

  function Sorted(s: seq<Interval>): (r: seq<Interval>)
    ensures multiset(r) == multiset(s)
  {
    if s == [] then []
    else
      assert s == s[..|s| - 1] + [s[|s| - 1]];
      Insert(s[|s| - 1], Sorted(s[..|s| - 1]))
  }

  lemma PrependSorted(x: Interval, r: seq<Interval>)
    requires SortedByBegin(r) && (r != [] ==> x.begin <= r[0].begin)
    ensures SortedByBegin([x] + r)
  {
  }

  lemma {:induction false} InsertSorted(x: Interval, s: seq<Interval>)
    requires SortedByBegin(s)
    ensures SortedByBegin(Insert(x, s))
    ensures s != [] ==> Insert(x, s) != [] && Insert(x, s)[0].begin == if x.begin < s[0].begin then x.begin else s[0].begin
  {
    if s != [] && s[0].begin <= x.begin {
      InsertSorted(x, s[1..]);
      var r := Insert(x, s[1..]);
      assert r[0].begin >= s[0].begin;
      PrependSorted(s[0], r);
    }
  }

  lemma {:induction false} SortSorts(s: seq<Interval>)
    ensures SortedByBegin(Sorted(s)) && |Sorted(s)| == |s|
  {
    if s != [] {
      SortSorts(s[..|s| - 1]);
      InsertSorted(s[|s| - 1], Sorted(s[..|s| - 1]));
    }
    assert |multiset(Sorted(s))| == |multiset(s)|;
  }

  /** Two different places of a list hold an overlapping pair. */
  ghost predicate HasOverlap(s: seq<Interval>) {
    exists a, b :: Overlapping(s, a, b)
  }

  ghost predicate Overlapping(s: seq<Interval>, a: Interval, b: Interval) {
    multiset{a, b} <= multiset(s) && !Apart(a, b)
  }

  lemma {:induction false} PairIn(s: seq<Interval>, a: Interval, b: Interval) returns (i: nat, j: nat)
    requires multiset{a, b} <= multiset(s)
    ensures i < |s| && j < |s| && i != j && s[i] == a && s[j] == b
  {
    assert a in s && b in s;
    i :| 0 <= i < |s| && s[i] == a;
    var rest := s[..i] + s[i + 1..];
    assert s == s[..i] + [a] + s[i + 1..];
    assert multiset(s) == multiset(rest) + multiset{a};
    assert b in multiset(rest);
    var k :| 0 <= k < |rest| && rest[k] == b;
    j := if k < i then k else k + 1;
  }

  lemma InPair(s: seq<Interval>, i: nat, j: nat)
    requires i < j < |s|
    ensures multiset{s[i], s[j]} <= multiset(s)
  {
    assert s == s[..i] + [s[i]] + s[i + 1..j] + [s[j]] + s[j + 1..];
  }

  lemma ApartMeansNoOverlap(s: seq<Interval>)
    ensures AllApart(s) <==> !HasOverlap(s)
  {
    if a, b :| Overlapping(s, a, b) {
      var i, j := PairIn(s, a, b);
      assert s[if i < j then i else j] == a || s[if i < j then i else j] == b;
    }
    if i, j :| 0 <= i < j < |s| && !Apart(s[i], s[j]) {
      InPair(s, i, j);
      assert Overlapping(s, s[i], s[j]);
    }
  }

  /** Each of the first `n` ends before the next begins. */
  ghost predicate NextApart(s: seq<Interval>, n: nat)
    requires n <= |s|
  {
    forall k :: 0 < k < n ==> s[k - 1].end < s[k].begin
  }

  /** Neighbours apart means all apart, in a list sorted by begin. */
  lemma {:induction false} NeighboursApart(s: seq<Interval>, i: nat, j: nat)
    requires i < j < |s| && forall k :: 0 <= k < |s| ==> s[k].begin <= s[k].end
    requires NextApart(s, |s|)
    ensures s[i].end < s[j].begin
    decreases j
  {
    if i < j - 1 {
      NeighboursApart(s, i, j - 1);
    }
  }

  /** `_find_overlap`: nothing exactly when all intervals are pairwise apart, otherwise two of the
  intervals that do overlap. */
  method FindOverlap(intervals: seq<Interval>) returns (r: Overlap)
    requires forall i :: i in intervals ==> i.begin <= i.end
    ensures r.NoOverlap? <==> AllApart(intervals)
    ensures r.Overlap? ==> Overlapping(intervals, r.first, r.second)
  {
    hide Sorted, AllApart, Overlapping;
    var sorted := Sorted(intervals);
    var k := 0;
    while k < |sorted|
      invariant 0 <= k <= |sorted|
      invariant NextApart(sorted, k)
    {
      if k > 0 && sorted[k].begin <= sorted[k - 1].end {
        r := Overlap(sorted[k - 1], sorted[k]);
        OverlapFound(intervals, k);
        return;
      }
      k := k + 1;
    }
    r := NoOverlap;
    NothingFound(intervals);
  }

  lemma SortedAt(s: seq<Interval>, k: nat)
    requires SortedByBegin(s) && 0 < k < |s|
    ensures s[k - 1].begin <= s[k].begin
  {
  }

  lemma OverlapFound(intervals: seq<Interval>, k: nat)
    requires (forall i :: i in intervals ==> i.begin <= i.end) && 0 < k < |Sorted(intervals)|
    requires Sorted(intervals)[k].begin <= Sorted(intervals)[k - 1].end
    ensures Overlapping(intervals, Sorted(intervals)[k - 1], Sorted(intervals)[k]) && !AllApart(intervals)
  {
    hide Sorted, SortedByBegin, AllApart;
    var sorted := Sorted(intervals);
    SortSorts(intervals);
    SortedAt(sorted, k);
    SameElements(intervals, sorted[k]);
    InPair(sorted, k - 1, k);
    ApartMeansNoOverlap(intervals);
    assert Overlapping(intervals, sorted[k - 1], sorted[k]);
  }

  lemma NothingFound(intervals: seq<Interval>)
    requires forall i :: i in intervals ==> i.begin <= i.end
    requires NextApart(Sorted(intervals), |Sorted(intervals)|)
    ensures AllApart(intervals)
  {
    hide Sorted;
    var sorted := Sorted(intervals);
    forall k | 0 <= k < |sorted| ensures sorted[k].begin <= sorted[k].end {
      SameElements(intervals, sorted[k]);
    }
    forall i, j | 0 <= i < j < |sorted| ensures Apart(sorted[i], sorted[j]) {
      NeighboursApart(sorted, i, j);
    }
    ApartMeansNoOverlap(intervals);
    ApartMeansNoOverlap(sorted);
    SameOverlaps(intervals, sorted);
  }

  lemma SameElements(intervals: seq<Interval>, x: Interval)
    ensures x in Sorted(intervals) <==> x in intervals
  {
    assert x in multiset(Sorted(intervals)) <==> x in multiset(intervals);
  }

  lemma SameOverlaps(s: seq<Interval>, r: seq<Interval>)
    requires multiset(s) == multiset(r)
    ensures HasOverlap(s) <==> HasOverlap(r)
  {
    if a, b :| Overlapping(s, a, b) {
      assert Overlapping(r, a, b);
    }
    if a, b :| Overlapping(r, a, b) {
      assert Overlapping(s, a, b);
    }
  }

  // ----- the settings check -----

  type Features = map<Feature, Criteria>

  function IntervalOf(f: Feature, c: Criteria): Interval {
    Interval(c.start, c.timeout, f)
  }

  /** The intervals of the features that use `bit`, in order. */
  ghost function OfBit(features: Features, names: seq<Feature>, bit: nat): seq<Interval>
    requires forall f :: f in names ==> f in features
  {
    if names == [] then []
    else
      var f := names[|names| - 1];
      OfBit(features, names[..|names| - 1], bit) + if features[f].bit == bit then [IntervalOf(f, features[f])] else []
  }

  lemma {:induction false} OfBitHolds(features: Features, names: seq<Feature>, bit: nat, x: Interval)
    requires forall f :: f in names ==> f in features
    ensures x in OfBit(features, names, bit) <==> x.feature in names && features[x.feature].bit == bit && x == IntervalOf(x.feature, features[x.feature])
  {
    if names != [] {
      OfBitHolds(features, names[..|names| - 1], bit, x);
    }
  }

  lemma {:induction false} OfBitDistinct(features: Features, names: seq<Feature>, bit: nat, i: nat, j: nat)
    requires (forall f :: f in names ==> f in features) && Distinct(names)
    requires i < j < |OfBit(features, names, bit)|
    ensures OfBit(features, names, bit)[i].feature != OfBit(features, names, bit)[j].feature
  {
    var n := |names| - 1;
    var before := OfBit(features, names[..n], bit);
    if j < |before| {
      OfBitDistinct(features, names[..n], bit, i, j);
    } else {
      OfBitHolds(features, names[..n], bit, before[i]);
    }
  }

  /** Features that use one bit have intervals that do not touch. */
  ghost predicate ConflictFree(features: Features) {
    forall f, g :: f in features && g in features && f != g && features[f].bit == features[g].bit ==>
                     Apart(IntervalOf(f, features[f]), IntervalOf(g, features[g]))
  }

  ghost predicate ConflictFreeAt(features: Features, bit: nat) {
    forall f, g :: f in features && g in features && f != g && features[f].bit == bit == features[g].bit ==>
                     Apart(IntervalOf(f, features[f]), IntervalOf(g, features[g]))
  }

  lemma ApartAt(features: Features, names: seq<Feature>, bit: nat)
    requires Distinct(names) && forall f :: f in names <==> f in features
    ensures AllApart(OfBit(features, names, bit)) <==> ConflictFreeAt(features, bit)
  {
    hide Distinct, OfBit;
    var s := OfBit(features, names, bit);
    if AllApart(s) {
      forall f, g | f in features && g in features && f != g && features[f].bit == bit == features[g].bit
        ensures Apart(IntervalOf(f, features[f]), IntervalOf(g, features[g]))
      {
        OfBitHolds(features, names, bit, IntervalOf(f, features[f]));
        OfBitHolds(features, names, bit, IntervalOf(g, features[g]));
        var i :| 0 <= i < |s| && s[i] == IntervalOf(f, features[f]);
        var j :| 0 <= j < |s| && s[j] == IntervalOf(g, features[g]);
        assert Apart(s[if i < j then i else j], s[if i < j then j else i]);
      }
    }
    if ConflictFreeAt(features, bit) {
      forall i, j | 0 <= i < j < |s| ensures Apart(s[i], s[j]) {
        OfBitDistinct(features, names, bit, i, j);
        OfBitHolds(features, names, bit, s[i]);
        OfBitHolds(features, names, bit, s[j]);
      }
    }
  }

  function Get(m: map<nat, seq<Interval>>, bit: nat): seq<Interval> {
    if bit in m then m[bit] else []
  }

  lemma OfBitEmpty(features: Features, bit: nat)
    ensures OfBit(features, [], bit) == []
  {
  }

  lemma OfBitStep(features: Features, names: seq<Feature>, k: nat, bit: nat)
    requires k < |names| && forall f :: f in names ==> f in features
    ensures OfBit(features, names[..k + 1], bit) ==
            if features[names[k]].bit == bit then OfBit(features, names[..k], bit) + [IntervalOf(names[k], features[names[k]])]
            else OfBit(features, names[..k], bit)
  {
    assert names[..k + 1][..k] == names[..k];
  }

  method IntervalsByBit(features: Features, names: seq<Feature>) returns (byBit: map<nat, seq<Interval>>)
    requires forall f :: f in names ==> f in features
    ensures forall b :: Get(byBit, b) == OfBit(features, names, b)
    ensures forall f :: f in names ==> features[f].bit in byBit
  {
    hide OfBit;
    byBit := map[];
    assert names[..0] == [];
    forall b ensures OfBit(features, [], b) == [] { OfBitEmpty(features, b); }
    var k := 0;
    while k < |names|
      invariant 0 <= k <= |names|
      invariant forall b :: Get(byBit, b) == OfBit(features, names[..k], b)
      invariant forall j :: 0 <= j < k ==> features[names[j]].bit in byBit
    {
      var f := names[k];
      var more := byBit[features[f].bit := Get(byBit, features[f].bit) + [IntervalOf(f, features[f])]];
      forall b ensures Get(more, b) == OfBit(features, names[..k + 1], b) {
        OfBitStep(features, names, k, b);
        assert Get(byBit, b) == OfBit(features, names[..k], b);
      }
      byBit := more;
      k := k + 1;
    }
    assert names[..k] == names;
  }

  /** `_validate_conflicting_bits`: accepts exactly the conflict-free settings. */
  method ValidateBits(features: Features, names: seq<Feature>) returns (ok: bool)
    requires Distinct(names) && forall f :: f in names <==> f in features
    requires forall f :: f in features ==> features[f].start <= features[f].timeout
    ensures ok <==> ConflictFree(features)
  {
    hide Distinct, OfBit, AllApart;
    var byBit := IntervalsByBit(features, names);
    var rest := byBit.Keys;
    while rest != {}
      invariant rest <= byBit.Keys && forall b :: b in byBit && b !in rest ==> ConflictFreeAt(features, b)
      decreases rest
    {
      var b :| b in rest;
      assert byBit[b] == Get(byBit, b);
      forall x | x in byBit[b] ensures x.begin <= x.end {
        OfBitHolds(features, names, b, x);
      }
      ApartAt(features, names, b);
      var overlap := FindOverlap(byBit[b]);
      if overlap.Overlap? {
        return false;
      }
      rest := rest - {b};
    }
    ok := true;
    forall f, g | f in features && g in features && f != g && features[f].bit == features[g].bit
      ensures Apart(IntervalOf(f, features[f]), IntervalOf(g, features[g]))
    {
      assert ConflictFreeAt(features, features[f].bit);
    }
  }
}
