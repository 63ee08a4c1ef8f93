/** A sliding window of samples and its order statistics, on real numbers. */
module MedianModel {
  // ---- Sorting ------------------------------------------------------------------

  predicate Ordered(s: seq<real>) { forall i, j :: 0 <= i < j < |s| ==> s[i] <= s[j] }

  function Insert(x: real, s: seq<real>): seq<real> {
    if s == [] || x <= s[0] then [x] + s else [s[0]] + Insert(x, s[1..])
  }

  /** What `std::sort` leaves in the local copy. */
  function Sort(s: seq<real>): seq<real> {
    if s == [] then [] else Insert(s[0], Sort(s[1..]))
  }

  /** How many elements have a property. */
  function Count(s: seq<real>, p: real -> bool): nat {
    if s == [] then 0 else (if p(s[0]) then 1 else 0) + Count(s[1..], p)
  }

  lemma {:induction false} InsertLaws(x: real, s: seq<real>, p: real -> bool)
    ensures |Insert(x, s)| == |s| + 1
    ensures Ordered(s) ==> Ordered(Insert(x, s))
    ensures forall y :: y in Insert(x, s) <==> y == x || y in s
    ensures Count(Insert(x, s), p) == (if p(x) then 1 else 0) + Count(s, p)
  {
    var r := Insert(x, s);
    if s == [] || x <= s[0] {
      assert r[1..] == s;
    } else {
      InsertLaws(x, s[1..], p);
      assert r[1..] == Insert(x, s[1..]);
      forall i | 0 <= i < |r| - 1 ensures Ordered(s) ==> s[0] <= r[1..][i] {
        assert r[1..][i] in Insert(x, s[1..]);
      }
    }
  }

  /** The sorted copy is ascending and holds every value as often as the window does. */
  lemma {:induction false} SortLaws(s: seq<real>, p: real -> bool)
    ensures |Sort(s)| == |s| && Ordered(Sort(s)) && Count(Sort(s), p) == Count(s, p)
    ensures forall y :: y in Sort(s) <==> y in s
  {
    if s != [] {
      SortLaws(s[1..], p);
      InsertLaws(s[0], Sort(s[1..]), p);
    }
  }

  lemma SortIsOrdered(s: seq<real>)
    ensures |Sort(s)| == |s| && Ordered(Sort(s)) && forall y :: y in Sort(s) <==> y in s
  {
    SortLaws(s, y => true);
  }

  // ---- Order statistics -----------------------------------------------------------

  function Median(w: seq<real>): real {
    if w == [] then 0.0
    else
      SortIsOrdered(w);
      var s, n := Sort(w), |w|;
      if n % 2 == 1 then s[n / 2] else (s[n / 2 - 1] + s[n / 2]) / 2.0
  }

  /** The rank a quantile is read at: `q * (n - 1)`, cut off. */
  function Rank(n: nat, q: real): (k: nat)
    requires n > 0 && 0.0 <= q <= 1.0
    ensures k < n
  {
    var m := (n - 1) as real;
    assert 0.0 <= q * m <= m;
    (q * m).Floor
  }

  lemma ScaleRises(p: real, q: real, m: real)
    requires p <= q && m >= 0.0
    ensures p * m <= q * m
  {
  }

  lemma FloorRises(a: real, b: real)
    requires a <= b
    ensures a.Floor <= b.Floor
  {
  }

  lemma RankRises(n: nat, p: real, q: real)
    requires n > 0 && 0.0 <= p <= q <= 1.0
    ensures Rank(n, p) <= Rank(n, q)
  {
    var m := (n - 1) as real;
    ScaleRises(p, q, m);
    FloorRises(p * m, q * m);
  }

  lemma RankEnds(n: nat)
    requires n > 0
    ensures Rank(n, 0.0) == 0 && Rank(n, 1.0) == n - 1
  {
    var m := (n - 1) as real;
    assert 0.0 * m == 0.0 && 1.0 * m == m;
  }

  function Quantile(w: seq<real>, q: real): real
    requires 0.0 <= q <= 1.0
  {
    if w == [] then 0.0
    else
      SortIsOrdered(w);
      Sort(w)[Rank(|w|, q)]
  }

  // ---- The window -------------------------------------------------------------------

  /** The last `size` samples, or all of them if there are fewer. */
  function Last(samples: seq<real>, size: nat): seq<real> {
    if |samples| <= size then samples else samples[|samples| - size..]
  }

  /** One `add`: the oldest value makes room once the window is full. */
  function Added(w: seq<real>, size: nat, x: real): seq<real>
    requires size > 0
  {
    (if |w| >= size && w != [] then w[1..] else w) + [x]
  }

  function AddedAll(w: seq<real>, size: nat, samples: seq<real>): seq<real>
    requires size > 0
    decreases |samples|
  {
    if samples == [] then w else AddedAll(Added(w, size, samples[0]), size, samples[1..])
  }

  /** After any run of `add` calls the window holds the last samples, in order. */
  lemma {:induction false} WindowIsTheLast(earlier: seq<real>, size: nat, samples: seq<real>)
    requires size > 0
    ensures AddedAll(Last(earlier, size), size, samples) == Last(earlier + samples, size)
    decreases |samples|
  {
    if samples == [] {
      assert earlier + samples == earlier;
    } else {
      var now := earlier + [samples[0]];
      assert Added(Last(earlier, size), size, samples[0]) == Last(now, size);
      WindowIsTheLast(now, size, samples[1..]);
      assert now + samples[1..] == earlier + samples;
    }
  }

  // ---- Robustness ---------------------------------------------------------------------

  lemma {:induction false} CountConcat(a: seq<real>, b: seq<real>, p: real -> bool)
    ensures Count(a + b, p) == Count(a, p) + Count(b, p)
  {
    if a == [] {
      assert a + b == b;
    } else {
      assert (a + b)[1..] == a[1..] + b;
      CountConcat(a[1..], b, p);
    }
  }

  lemma {:induction false} CountAll(s: seq<real>, p: real -> bool)
    requires forall i :: 0 <= i < |s| ==> p(s[i])
    ensures Count(s, p) == |s|
  {
    if s != [] { CountAll(s[1..], p); }
  }

  /** If more elements have a property than there are exceptions, one that is no exception has it. */
  lemma SomeGoodOne(w: seq<real>, p: real -> bool, bad: set<nat>) returns (i: nat)
    requires Count(w, p) > |bad|
    ensures i < |w| && i !in bad && p(w[i])
  {
    HitsAreCounted(w, p);
    if Hits(w, p) <= bad { SubsetSize(Hits(w, p), bad); }
    i :| i in Hits(w, p) && i !in bad;
  }

  ghost function Hits(w: seq<real>, p: real -> bool): set<nat> {
    set k: nat | k < |w| && p(w[k])
  }

  lemma {:induction false} HitsAreCounted(w: seq<real>, p: real -> bool)
    ensures |Hits(w, p)| == Count(w, p)
  {
    if w == [] {
      assert Hits(w, p) == {};
    } else {
      var n := |w| - 1;
      var v := w[..n];
      HitsAreCounted(v, p);
      assert Hits(w, p) == Hits(v, p) + if p(w[n]) then {n} else {};
      CountConcat(v, [w[n]], p);
      assert v + [w[n]] == w && [w[n]][1..] == [];
    }
  }

  lemma {:induction false} SubsetSize(a: set<nat>, b: set<nat>)
    requires a <= b
    ensures |a| <= |b|
  {
    if a != {} {
      var x :| x in a;
      SubsetSize(a - {x}, b - {x});
    }
  }

  /** The `k`-th smallest value has a good sample on either side of it, if enough are good. */
  lemma BetweenGoodOnes(w: seq<real>, k: nat, bad: set<nat>, lo: real, hi: real)
    requires k < |w| && forall i: nat :: i < |w| && i !in bad ==> lo <= w[i] <= hi
    ensures |Sort(w)| == |w|
    ensures |bad| <= k ==> lo <= Sort(w)[k]
    ensures |bad| < |w| - k ==> Sort(w)[k] <= hi
  {
    SortIsOrdered(w);
    var t := Sort(w)[k];
    if |bad| <= k { GoodBelow(w, k, t, bad); }
    if |bad| < |w| - k { GoodAbove(w, k, t, bad); }
  }

  lemma GoodBelow(w: seq<real>, k: nat, t: real, bad: set<nat>)
    requires |bad| <= k < |w| == |Sort(w)| && t == Sort(w)[k]
    ensures exists i: nat :: i < |w| && i !in bad && w[i] <= t
  {
    var s, below := Sort(w), (y: real) => y <= t;
    SortLaws(w, below);
    assert s == s[..k + 1] + s[k + 1..];
    CountConcat(s[..k + 1], s[k + 1..], below);
    CountAll(s[..k + 1], below);
    var i := SomeGoodOne(w, below, bad);
  }

  lemma GoodAbove(w: seq<real>, k: nat, t: real, bad: set<nat>)
    requires k < |w| == |Sort(w)| && |bad| < |w| - k && t == Sort(w)[k]
    ensures exists i: nat :: i < |w| && i !in bad && t <= w[i]
  {
    var s, above := Sort(w), (y: real) => t <= y;
    SortLaws(w, above);
    assert s == s[..k] + s[k..];
    CountConcat(s[..k], s[k..], above);
    CountAll(s[k..], above);
    var i := SomeGoodOne(w, above, bad);
  }

  /** While fewer than half of the samples are corrupted, the median stays among the good ones. */
  lemma MedianIsRobust(w: seq<real>, bad: set<nat>, lo: real, hi: real)
    requires w != [] && 2 * |bad| < |w|
    requires forall i: nat :: i < |w| && i !in bad ==> lo <= w[i] <= hi
    ensures lo <= Median(w) <= hi
  {
    var n := |w|;
    BetweenGoodOnes(w, n / 2, bad, lo, hi);
    if n % 2 == 0 { BetweenGoodOnes(w, n / 2 - 1, bad, lo, hi); SortIsOrdered(w); }
  }

  /** A window of zeros whose corrupted samples read one. */
  function Corrupted(n: nat, bad: set<nat>): seq<real> {
    seq(n, i => if i in bad then 1.0 else 0.0)
  }

  lemma {:induction false} CountNone(s: seq<real>, p: real -> bool)
    ensures Count(s, p) <= |s|
    ensures (forall i :: 0 <= i < |s| ==> !p(s[i])) ==> Count(s, p) == 0
  {
    if s != [] { CountNone(s[1..], p); }
  }

  /** From half of them on it need not: no window size and no set of that many positions is safe. */
  lemma HalfIsTooMany(n: nat, bad: set<nat>)
    requires n > 0 && 2 * |bad| >= n && forall i :: i in bad ==> i < n
    ensures forall i: nat :: i < n && i !in bad ==> Corrupted(n, bad)[i] == 0.0
    ensures Median(Corrupted(n, bad)) > 0.0
  {
    hide Sort, Count;
    var w, high := Corrupted(n, bad), (y: real) => y > 0.0;
    var s := Sort(w);
    SortLaws(w, high);
    HitsAreCounted(w, high);
    assert Hits(w, high) == bad;
    assert forall y :: y in w ==> y >= 0.0;
    if s[n / 2] <= 0.0 {
      assert s == s[..n / 2 + 1] + s[n / 2 + 1..];
      CountConcat(s[..n / 2 + 1], s[n / 2 + 1..], high);
      CountNone(s[..n / 2 + 1], high);
      CountNone(s[n / 2 + 1..], high);
    }
    assert n % 2 == 0 ==> s[n / 2 - 1] in w;
  }

  /** Quantiles rise with their argument. */
  lemma QuantilesRise(w: seq<real>, p: real, q: real)
    requires w != [] && 0.0 <= p <= q <= 1.0
    ensures Quantile(w, p) <= Quantile(w, q)
  {
    hide Sort, Rank;
    SortIsOrdered(w);
    RankRises(|w|, p, q);
  }

  /** They start at the lowest sample and end at the highest. */
  lemma QuantileEnds(w: seq<real>)
    requires w != []
    ensures Quantile(w, 0.0) in w && Quantile(w, 1.0) in w
    ensures forall i :: 0 <= i < |w| ==> Quantile(w, 0.0) <= w[i] <= Quantile(w, 1.0)
  {
    hide Sort, Rank;
    SortIsOrdered(w);
    RankEnds(|w|);
    var s := Sort(w);
    assert Quantile(w, 0.0) == s[0] && Quantile(w, 1.0) == s[|w| - 1];
    assert s[0] in s && s[|w| - 1] in s;
    forall i | 0 <= i < |w| ensures s[0] <= w[i] <= s[|w| - 1] {
      assert w[i] in w;
      var k :| 0 <= k < |s| && s[k] == w[i];
    }
  }

  // ---- The same without sorting ---------------------------------------------------------

  ghost function AtMost(w: seq<real>, a: real): set<nat> { set i: nat | i < |w| && w[i] <= a }
  ghost function AtLeast(w: seq<real>, a: real): set<nat> { set i: nat | i < |w| && w[i] >= a }

  /** The sorted element `k` is at most `a` exactly when more than `k` samples are. */
  lemma RankedAtMost(w: seq<real>, k: nat, a: real)
    requires k < |w|
    ensures |Sort(w)| == |w| && (Sort(w)[k] <= a <==> |AtMost(w, a)| > k)
  {
    hide Sort;
    var s, low := Sort(w), (y: real) => y <= a;
    SortLaws(w, low);
    HitsAreCounted(w, low);
    assert Hits(w, low) == AtMost(w, a);
    if s[k] <= a { SplitCount(s, k + 1, low); } else { SplitCount(s, k, low); }
  }

  lemma RankedAtLeast(w: seq<real>, k: nat, a: real)
    requires k < |w|
    ensures |Sort(w)| == |w| && (Sort(w)[k] >= a <==> |AtLeast(w, a)| >= |w| - k)
  {
    hide Sort;
    var s, high := Sort(w), (y: real) => y >= a;
    SortLaws(w, high);
    HitsAreCounted(w, high);
    assert Hits(w, high) == AtLeast(w, a);
    if s[k] >= a { SplitCount(s, k, high); } else { SplitCount(s, k + 1, high); }
  }

  lemma SplitCount(s: seq<real>, k: nat, p: real -> bool)
    requires k <= |s|
    ensures Count(s, p) == Count(s[..k], p) + Count(s[k..], p)
    ensures Count(s[..k], p) <= k && Count(s[k..], p) <= |s| - k
    ensures (forall i :: 0 <= i < k ==> p(s[i])) ==> Count(s[..k], p) == k
    ensures (forall i :: 0 <= i < k ==> !p(s[i])) ==> Count(s[..k], p) == 0
    ensures (forall i :: k <= i < |s| ==> p(s[i])) ==> Count(s[k..], p) == |s| - k
    ensures (forall i :: k <= i < |s| ==> !p(s[i])) ==> Count(s[k..], p) == 0
  {
    assert s == s[..k] + s[k..];
    CountConcat(s[..k], s[k..], p);
    CountNone(s[..k], p);
    CountNone(s[k..], p);
    if forall i :: 0 <= i < k ==> p(s[i]) { CountAll(s[..k], p); }
    if forall i :: k <= i < |s| ==> p(s[i]) { CountAll(s[k..], p); }
  }

  /** A value that more than half of the samples do not exceed, and more than half are not below. */
  ghost predicate IsMiddle(w: seq<real>, m: real) {
    2 * |AtMost(w, m)| > |w| && 2 * |AtLeast(w, m)| > |w|
  }

  /** Two samples that split the window in halves. */
  ghost predicate AreMiddle(w: seq<real>, a: real, b: real) {
    a in w && b in w && a < b && 2 * |AtMost(w, a)| >= |w| && 2 * |AtLeast(w, b)| >= |w|
  }

  lemma MiddleIsMedian(w: seq<real>, m: real)
    requires w != [] && IsMiddle(w, m)
    ensures Median(w) == m
  {
    hide Sort, AtMost, AtLeast;
    var n := |w|;
    RankedAtMost(w, n / 2, m);
    RankedAtLeast(w, n / 2, m);
    if n % 2 == 0 {
      RankedAtMost(w, n / 2 - 1, m);
      RankedAtLeast(w, n / 2 - 1, m);
    }
  }

  lemma MeanOfMiddleIsMedian(w: seq<real>, a: real, b: real)
    requires AreMiddle(w, a, b)
    ensures |w| % 2 == 0 && Median(w) == (a + b) / 2.0
  {
    hide Sort, AtMost, AtLeast, Ordered;
    var n, s := |w|, Sort(w);
    Halves(w, a, b);
    RankedAtMost(w, n / 2 - 1, a);
    RankedAtLeast(w, n / 2, b);
    SortIsOrdered(w);
    SampleBelow(s, n / 2, a);
    SampleAbove(s, n / 2, b);
  }

  lemma SampleBelow(s: seq<real>, k: nat, a: real)
    requires Ordered(s) && 0 < k < |s| && a in s && a < s[k]
    ensures a <= s[k - 1]
  {
    var i :| 0 <= i < |s| && s[i] == a;
  }

  lemma SampleAbove(s: seq<real>, k: nat, b: real)
    requires Ordered(s) && 0 < k < |s| && b in s && s[k - 1] < b
    ensures s[k] <= b
  {
    var i :| 0 <= i < |s| && s[i] == b;
  }

  lemma Halves(w: seq<real>, a: real, b: real)
    requires AreMiddle(w, a, b)
    ensures |w| % 2 == 0 && 2 * |AtMost(w, a)| == |w| == 2 * |AtLeast(w, b)|
  {
    var any := (y: real) => true;
    HitsAreCounted(w, any);
    CountAll(w, any);
    SubsetSize(AtMost(w, a) + AtLeast(w, b), Hits(w, any));
    assert AtMost(w, a) !! AtLeast(w, b);
  }

  /** Every window has one or the other, so this says what every median is. */
  lemma MedianIsInTheMiddle(w: seq<real>)
    requires w != []
    ensures IsMiddle(w, Median(w)) || exists a, b :: AreMiddle(w, a, b)
  {
    hide Sort, AtMost, AtLeast;
    var n, s := |w|, Sort(w);
    SortIsOrdered(w);
    if n % 2 == 1 {
      RankedAtMost(w, n / 2, s[n / 2]);
      RankedAtLeast(w, n / 2, s[n / 2]);
    } else {
      var a, b := s[n / 2 - 1], s[n / 2];
      RankedAtMost(w, n / 2 - 1, a);
      RankedAtLeast(w, n / 2, b);
      RankedAtMost(w, n / 2, b);
      RankedAtLeast(w, n / 2 - 1, a);
      if a < b {
        assert a in s && b in s;
        assert AreMiddle(w, a, b);
      } else {
        assert a == b;
      }
    }
  }

  function Negated(w: seq<real>): (r: seq<real>)
    ensures |r| == |w|
  {
    seq(|w|, i requires 0 <= i < |w| => 0.0 - w[i])
  }

  /** Turning the samples upside down turns the median. */
  lemma MedianOfNegated(w: seq<real>)
    requires w != []
    ensures Median(Negated(w)) == 0.0 - Median(w)
  {
    hide Median;
    var v := Negated(w);
    MedianIsInTheMiddle(w);
    forall a ensures AtMost(v, 0.0 - a) == AtLeast(w, a) && AtLeast(v, 0.0 - a) == AtMost(w, a) {}
    if IsMiddle(w, Median(w)) {
      MiddleIsMedian(v, 0.0 - Median(w));
    } else {
      var a, b :| AreMiddle(w, a, b);
      var i :| 0 <= i < |w| && w[i] == a;
      var j :| 0 <= j < |w| && w[j] == b;
      assert v[i] == 0.0 - a && v[j] == 0.0 - b;
      MeanOfMiddleIsMedian(w, a, b);
      MeanOfMiddleIsMedian(v, 0.0 - b, 0.0 - a);
    }
  }

  lemma TwoSamples()
    ensures Median([1.0, 2.0]) == 1.5
  {
    var w := [1.0, 2.0];
    assert AtMost(w, 1.0) == {0} && AtLeast(w, 2.0) == {1};
    assert w[0] == 1.0 && w[1] == 2.0;
    MeanOfMiddleIsMedian(w, 1.0, 2.0);
  }

  /** A quantile is at most `a` exactly when more samples are than the rank, cut off, counts. */
  lemma QuantileIsRanked(w: seq<real>, q: real, k: nat, a: real)
    requires w != [] && 0.0 <= q <= 1.0 && k as real <= q * (|w| - 1) as real < (k + 1) as real
    ensures k < |w| && (Quantile(w, q) <= a <==> |AtMost(w, a)| > k)
  {
    hide Sort;
    var m := (|w| - 1) as real;
    assert q * m <= m;
    assert Rank(|w|, q) == k;
    RankedAtMost(w, k, a);
  }

  /** The window, sample by sample. */
  lemma LastSamples(samples: seq<real>, size: nat)
    ensures |Last(samples, size)| == if |samples| < size then |samples| else size
    ensures forall i :: 0 <= i < |Last(samples, size)| ==>
      Last(samples, size)[i] == samples[|samples| - |Last(samples, size)| + i]
  {
  }
}

/** The class. */
module RunningMedian {
  import opened MedianModel

  class RunningMedian {
    const maxSize: nat
    var values: seq<real>

    /** A window of size 0 would erase from an empty vector at its first sample. */
    ghost predicate Valid()
      reads this
    {
      0 < maxSize <= 255 && |values| <= maxSize
    }

    constructor (size: nat)
      requires 0 < size <= 255
      ensures Valid() && maxSize == size && values == []
    {
      maxSize := size;
      values := [];
    }

    method Add(value: real)
      requires Valid()
      modifies this
      ensures Valid() && values == Added(old(values), maxSize, value)
      ensures forall samples :: old(values) == Last(samples, maxSize) ==> values == Last(samples + [value], maxSize)
    {
      ghost var before := values;
      if |values| >= maxSize { values := values[1..]; }
      values := values + [value];
      forall samples | before == Last(samples, maxSize) ensures values == Last(samples + [value], maxSize) {
        WindowIsTheLast(samples, maxSize, [value]);
        assert AddedAll(before, maxSize, [value]) == values;
      }
    }

    method GetMedian() returns (m: real)
      ensures m == Median(values) && (values == [] ==> m == 0.0)
    {
      if values == [] { return 0.0; }
      SortIsOrdered(values);
      var sorted := Sort(values);
      var n := |sorted|;
      if n % 2 == 1 { return sorted[n / 2]; }
      m := (sorted[n / 2 - 1] + sorted[n / 2]) / 2.0;
    }

    method GetHighest() returns (m: real)
      ensures m == if values == [] then 0.0 else Quantile(values, 1.0)
    {
      if values == [] { return 0.0; }
      m := values[0];
      for i := 1 to |values|
        invariant m in values && forall k :: 0 <= k < i ==> values[k] <= m
      {
        if m < values[i] { m := values[i]; }
      }
      QuantileEnds(values);
    }

    method GetLowest() returns (m: real)
      ensures m == if values == [] then 0.0 else Quantile(values, 0.0)
    {
      if values == [] { return 0.0; }
      m := values[0];
      for i := 1 to |values|
        invariant m in values && forall k :: 0 <= k < i ==> m <= values[k]
      {
        if values[i] < m { m := values[i]; }
      }
      QuantileEnds(values);
    }

    method GetSortedElement(n: nat) returns (v: real)
      ensures |Sort(values)| == |values|
      ensures v == if n < |values| then Sort(values)[n] else 0.0
    {
      SortIsOrdered(values);
      if n >= |values| { return 0.0; }
      v := Sort(values)[n];
    }

    method GetQuantile(q: real) returns (v: real)
      requires 0.0 <= q <= 1.0
      ensures v == Quantile(values, q) && (values == [] ==> v == 0.0)
    {
      if values == [] { return 0.0; }
      SortIsOrdered(values);
      var sorted := Sort(values);
      v := sorted[Rank(|sorted|, q)];
    }
  }
}
