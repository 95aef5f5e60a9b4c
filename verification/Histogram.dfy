/** The equal-width histogram of a column, and its selectivity estimates in exact reals. */
module Histogram {

  datatype Op = EQ | NE | GT | LT | GE | LE

  /** The state of a histogram. */
  datatype Hist = Hist(buckets: nat, min: int, max: int, width: int, counts: seq<nat>, total: nat)

  function Sum(s: seq<nat>): nat {
    if s == [] then 0 else Sum(s[..|s| - 1]) + s[|s| - 1]
  }

  /** How many of the values lie in [lo, hi). */
  function CountIn(values: seq<int>, lo: int, hi: int): (n: nat)
    ensures n <= |values|
  {
    if values == [] then 0
    else CountIn(values[..|values| - 1], lo, hi) + if lo <= values[|values| - 1] < hi then 1 else 0
  }

  function Width(buckets: int, min: int, max: int): (w: int)
    requires buckets > 0
    ensures w >= 1
  {
    if (max - min + buckets) / buckets < 1 then 1 else (max - min + buckets) / buckets
  }

  /** The least width of at least 1 with which the buckets cover the range. */
  lemma WidthIsLeast(buckets: nat, min: int, max: int)
    requires buckets > 0
    ensures var w := Width(buckets, min, max);
      w >= 1 && min + buckets * w > max && forall u :: u >= 1 && min + buckets * u > max ==> w <= u
  {
    var r, w := max - min, Width(buckets, min, max);
    assert r + buckets == (r + buckets) / buckets * buckets + (r + buckets) % buckets;
    forall u | u >= 1 && min + buckets * u > max ensures w <= u {
      if u < w {
        assert (u + 1) * buckets == buckets * u + buckets;
        Scale(u + 1, w, buckets);
      }
    }
  }

  function Index(h: Hist, v: int): int
    requires h.width > 0
  {
    (v - h.min) / h.width
  }

  function Left(h: Hist, b: int): int {
    h.min + b * h.width
  }

  /** The end of a bucket, cut off after the greatest value. */
  function Right(h: Hist, b: int): int {
    if Left(h, b) + h.width > h.max then h.max + 1 else Left(h, b) + h.width
  }

  ghost predicate Shaped(h: Hist) {
    h.buckets > 0 && |h.counts| == h.buckets && h.width == Width(h.buckets, h.min, h.max)
  }

  /** The histogram of the values accepted so far: each lies in the bucket that counts it. */
  ghost predicate Describes(h: Hist, values: seq<int>) {
    && Shaped(h) && h.total == |values|
    && (forall v :: v in values ==> h.min <= v <= h.max)
    && (forall b :: 0 <= b < h.buckets ==> h.counts[b] == CountIn(values, Left(h, b), Left(h, b + 1)))
  }

  // ---------- Bucket arithmetic ----------

  /** A value in range falls into a bucket that exists and contains it; the clamp on the
      index never fires. */
  lemma BucketContains(h: Hist, v: int)
    requires Shaped(h) && h.min <= v <= h.max
    ensures 0 <= Index(h, v) < h.buckets
    ensures Left(h, Index(h, v)) <= v < Right(h, Index(h, v)) <= Left(h, Index(h, v) + 1)
  {
    var w, b := h.width, Index(h, v);
    var r := h.max - h.min;
    assert v - h.min == b * w + (v - h.min) % w;
    assert r + h.buckets == (r + h.buckets) / h.buckets * h.buckets + (r + h.buckets) % h.buckets;
    AtLeastOne(r, h.buckets);
    assert (b + 1) * w == b * w + w;
    if b >= h.buckets {
      Scale(h.buckets, b, w);
      assert false;
    }
  }

  lemma AtLeastOne(r: int, n: nat)
    requires n > 0 && r >= 0
    ensures (r + n) / n >= 1
  {
  }

  lemma Scale(a: int, b: int, w: int)
    requires a <= b && w > 0
    ensures a * w <= b * w
  {
  }

  /** Only one bucket contains a value. */
  lemma BucketIsIndex(h: Hist, v: int, b: int)
    requires h.width > 0
    ensures Left(h, b) <= v < Left(h, b + 1) <==> b == Index(h, v)
  {
    var w, i := h.width, Index(h, v);
    assert v - h.min == i * w + (v - h.min) % w;
    assert (b + 1) * w == b * w + w && (i + 1) * w == i * w + w;
    if b < i { Scale(b + 1, i, w); }
    if b > i { Scale(i + 1, b, w); }
  }

  // ---------- Counting ----------

  lemma {:induction false} SumUpdate(s: seq<nat>, i: nat)
    requires i < |s|
    ensures Sum(s[i := s[i] + 1]) == Sum(s) + 1
  {
    var t := s[i := s[i] + 1];
    if i == |s| - 1 {
      assert t[..i] == s[..i];
    } else {
      assert t[..|s| - 1] == s[..|s| - 1][i := s[i] + 1];
      SumUpdate(s[..|s| - 1], i);
    }
  }

  lemma {:induction false} CountSplit(values: seq<int>, lo: int, mid: int, hi: int)
    requires lo <= mid <= hi
    ensures CountIn(values, lo, hi) == CountIn(values, lo, mid) + CountIn(values, mid, hi)
  {
    if values != [] {
      CountSplit(values[..|values| - 1], lo, mid, hi);
    }
  }

  lemma {:induction false} CountAll(values: seq<int>, lo: int, hi: int)
    requires forall v :: v in values ==> lo <= v < hi
    ensures CountIn(values, lo, hi) == |values|
  {
    if values != [] {
      var k := |values| - 1;
      assert values[k] in values && forall v :: v in values[..k] ==> v in values;
      CountAll(values[..k], lo, hi);
    }
  }

  /** The first buckets count the values below their end. */
  lemma {:induction false} SumIsCount(h: Hist, values: seq<int>, b: nat)
    requires Describes(h, values) && b <= h.buckets
    ensures Sum(h.counts[..b]) == CountIn(values, h.min, Left(h, b))
  {
    if b == 0 {
      NoneIn(values, h.min);
    } else {
      SumIsCount(h, values, b - 1);
      assert h.counts[..b][..b - 1] == h.counts[..b - 1];
      assert (b - 1) * h.width + h.width == b * h.width;
      Scale(0, b - 1, h.width);
      CountSplit(values, h.min, Left(h, b - 1), Left(h, b));
    }
  }

  lemma {:induction false} NoneIn(values: seq<int>, lo: int)
    ensures CountIn(values, lo, lo) == 0
  {
    if values != [] {
      NoneIn(values[..|values| - 1], lo);
    }
  }

  /** The bucket counts add up to the number of accepted values. */
  lemma CountsAddUp(h: Hist, values: seq<int>)
    requires Describes(h, values)
    ensures Sum(h.counts) == h.total
  {
    SumIsCount(h, values, h.buckets);
    assert h.counts[..h.buckets] == h.counts;
    forall v | v in values ensures h.min <= v < Left(h, h.buckets) {
      BucketContains(h, v);
      Scale(Index(h, v) + 1, h.buckets, h.width);
    }
    CountAll(values, h.min, Left(h, h.buckets));
  }

  // ---------- Selectivity ----------

  predicate InRange(h: Hist, v: int) {
    h.min <= v <= h.max
  }

  function Share(n: nat, total: nat): real
    requires total > 0
  {
    Over(n as real, total as real)
  }

  /** The share of `k` out of the `n` equally likely values of a bucket. */
  function Part(height: nat, k: int, n: nat, total: nat): real
    requires n > 0 && total > 0
  {
    Over(Over(Times(height as real, k as real), n as real), total as real)
  }

  function Times(a: real, b: real): real {
    a * b
  }

  function Over(a: real, n: real): real
    requires n != 0.0
  {
    a / n
  }

  /** Before and after the bucket of a value in range. */
  function Offset(h: Hist, v: int): int
    requires h.width > 0
  {
    v - Left(h, Index(h, v))
  }

  function Span(h: Hist, v: int): int
    requires h.width > 0
  {
    Right(h, Index(h, v)) - Left(h, Index(h, v))
  }

  function Height(h: Hist, v: int): nat
    requires h.width > 0
  {
    if 0 <= Index(h, v) < |h.counts| then h.counts[Index(h, v)] else 0
  }

  function Before(h: Hist, v: int): nat
    requires h.width > 0
  {
    if 0 <= Index(h, v) <= |h.counts| then Sum(h.counts[..Index(h, v)]) else 0
  }

  function After(h: Hist, v: int): nat
    requires h.width > 0
  {
    if 0 <= Index(h, v) < |h.counts| then Sum(h.counts[Index(h, v) + 1..]) else 0
  }

  ghost predicate Ready(h: Hist) {
    Shaped(h) && h.total > 0 && Sum(h.counts) == h.total && h.min <= h.max && After(h, h.max) == 0
  }

  ghost function Lt(h: Hist, v: int): real
    requires Ready(h)
  {
    if v < h.min then 0.0 else if v > h.max then 1.0
    else BucketContains(h, v); Part(Height(h, v), Offset(h, v), Span(h, v), h.total) + Share(Before(h, v), h.total)
  }

  ghost function Le(h: Hist, v: int): real
    requires Ready(h)
  {
    if v < h.min then 0.0 else if v >= h.max then 1.0
    else BucketContains(h, v); Part(Height(h, v), Offset(h, v) + 1, Span(h, v), h.total) + Share(Before(h, v), h.total)
  }

  ghost function Gt(h: Hist, v: int): real
    requires Ready(h)
  {
    if v < h.min then 1.0 else if v > h.max then 0.0
    else
      BucketContains(h, v);
      Part(Height(h, v), Span(h, v) - Offset(h, v), Span(h, v), h.total) + Share(After(h, v), h.total)
  }

  ghost function Ge(h: Hist, v: int): real
    requires Ready(h)
  {
    if v <= h.min then 1.0 else Gt(h, v)
  }

  ghost function Eq(h: Hist, v: int): real
    requires Ready(h)
  {
    if InRange(h, v) then Part(Height(h, v), 1, h.width, h.total) else 0.0
  }

  /** What `estimate_selectivity` answers. */
  ghost function Selectivity(h: Hist, op: Op, v: int): real
    requires h.total > 0 ==> Ready(h)
  {
    if h.total == 0 then 0.0
    else match op
      case EQ => Eq(h, v)
      case NE => 1.0 - Eq(h, v)
      case LT => Lt(h, v)
      case LE => Le(h, v)
      case GT => Gt(h, v)
      case GE => Ge(h, v)
  }

  // ---------- Real arithmetic ----------

  lemma PartIsLinear(height: nat, j: int, k: int, n: nat, total: nat)
    requires n > 0 && total > 0
    ensures Part(height, j, n, total) + Part(height, k, n, total) == Part(height, j + k, n, total)
  {
    hide Over, Times;
    var a, x, y := height as real, j as real, k as real;
    assert (j + k) as real == x + y;
    Distributes(a, x, y);
    Divides(Times(a, x), Times(a, y), n as real);
    Divides(Over(Times(a, x), n as real), Over(Times(a, y), n as real), total as real);
  }

  lemma Distributes(a: real, x: real, y: real)
    ensures Times(a, x + y) == Times(a, x) + Times(a, y)
  {
  }

  lemma PartEnds(height: nat, k: int, n: nat, total: nat)
    requires n > 0 && total > 0
    ensures Part(height, 0, n, total) == 0.0 && Part(height, n, n, total) == Share(height, total)
    ensures height == 0 ==> Part(height, k, n, total) == 0.0
  {
    Cancels(height as real, n as real);
  }

  lemma Divides(a: real, b: real, n: real)
    requires n > 0.0
    ensures Over(a, n) + Over(b, n) == Over(a + b, n)
  {
  }

  lemma Cancels(a: real, n: real)
    requires n > 0.0
    ensures Over(Times(a, n), n) == a
  {
  }

  lemma PartIsPositive(height: nat, k: nat, n: nat, total: nat)
    requires n > 0 && total > 0
    ensures 0.0 <= Part(height, k, n, total)
    ensures height > 0 && k > 0 ==> 0.0 < Part(height, k, n, total)
  {
    hide Over, Times;
    Signs(height as real, k as real);
    Quotient(Times(height as real, k as real), n as real);
    Quotient(Over(Times(height as real, k as real), n as real), total as real);
  }

  lemma Signs(a: real, b: real)
    requires a >= 0.0 && b >= 0.0
    ensures Times(a, b) >= 0.0 && (a > 0.0 && b > 0.0 ==> Times(a, b) > 0.0)
  {
  }

  lemma Quotient(a: real, n: real)
    requires a >= 0.0 && n > 0.0
    ensures Over(a, n) >= 0.0 && (a > 0.0 ==> Over(a, n) > 0.0)
  {
  }

  lemma ShareAdds(a: nat, b: nat, total: nat)
    requires total > 0
    ensures Share(a, total) + Share(b, total) == Share(a + b, total) && Share(total, total) == 1.0 &&
      Share(0, total) == 0.0
    ensures a <= b ==> Share(a, total) <= Share(b, total)
  {
    Divides(a as real, b as real, total as real);
    if a <= b {
      Divides(a as real, (b - a) as real, total as real);
      Quotient((b - a) as real, total as real);
    }
  }

  // ---------- Buckets and totals ----------

  lemma {:induction false} SumConcat(a: seq<nat>, b: seq<nat>)
    ensures Sum(a + b) == Sum(a) + Sum(b)
  {
    if b == [] {
      assert a + b == a;
    } else {
      assert (a + b)[..|a + b| - 1] == a + b[..|b| - 1];
      SumConcat(a, b[..|b| - 1]);
    }
  }

  lemma SumAround(s: seq<nat>, b: nat)
    requires b < |s|
    ensures Sum(s) == Sum(s[..b]) + s[b] + Sum(s[b + 1..])
    ensures Sum(s[..b + 1]) == Sum(s[..b]) + s[b]
  {
    assert s[..b + 1][..b] == s[..b];
    assert s == s[..b + 1] + s[b + 1..];
    SumConcat(s[..b + 1], s[b + 1..]);
  }

  /** What is before, in and after the bucket of a value is everything. */
  lemma Buckets(h: Hist, v: int)
    requires Ready(h) && InRange(h, v)
    ensures Before(h, v) + Height(h, v) + After(h, v) == h.total
    ensures 0 <= Offset(h, v) < Span(h, v) <= h.width
  {
    hide Width, Part, Share;
    BucketContains(h, v);
    SumAround(h.counts, Index(h, v));
  }

  lemma DescribedIsReady(h: Hist, values: seq<int>)
    requires Describes(h, values) && values != []
    ensures Ready(h)
  {
    hide Width;
    CountsAddUp(h, values);
    assert values[0] in values && h.min <= values[0] <= h.max;
    BucketContains(h, h.max);
    var b := Index(h, h.max);
    SumAround(h.counts, b);
    SumIsCount(h, values, b + 1);
    CountAll(values, h.min, Left(h, b + 1));
  }

  /** `x op v`. */
  predicate Holds(op: Op, x: int, v: int) {
    match op
    case EQ => x == v
    case NE => x != v
    case LT => x < v
    case LE => x <= v
    case GT => x > v
    case GE => x >= v
  }

  /** How many of the values stand in this relation to `v`. */
  function Matching(values: seq<int>, op: Op, v: int): (n: nat)
    ensures n <= |values|
  {
    if values == [] then 0
    else Matching(values[..|values| - 1], op, v) + if Holds(op, values[|values| - 1], v) then 1 else 0
  }

  lemma {:induction false} MatchingInRange(values: seq<int>, v: int, lo: int, hi: int)
    requires lo <= v < hi && forall x :: x in values ==> lo <= x < hi
    ensures Matching(values, LT, v) == CountIn(values, lo, v) && Matching(values, LE, v) == CountIn(values, lo, v + 1)
    ensures Matching(values, GT, v) == CountIn(values, v + 1, hi) && Matching(values, GE, v) == CountIn(values, v, hi)
    ensures Matching(values, EQ, v) == CountIn(values, v, v + 1) == |values| - Matching(values, NE, v)
  {
    if values != [] {
      var k := |values| - 1;
      assert values[k] in values && forall x :: x in values[..k] ==> x in values;
      MatchingInRange(values[..k], v, lo, hi);
    }
  }

  lemma {:induction false} MatchingOutOfRange(values: seq<int>, op: Op, v: int, all: bool)
    requires forall x :: x in values ==> Holds(op, x, v) == all
    ensures Matching(values, op, v) == if all then |values| else 0
  {
    if values != [] {
      var k := |values| - 1;
      assert values[k] in values && forall x :: x in values[..k] ==> x in values;
      MatchingOutOfRange(values[..k], op, v, all);
    }
  }

  // ---------- How good the estimates are ----------

  function Abs(x: real): real {
    if x < 0.0 then -x else x
  }

  /** A guess `p` for the `inside` of the `height` values of a bucket, next to exactly known
      values: wrong by at most the bucket. */
  lemma GuessInBucket(p: real, inside: nat, height: nat, outside: nat, total: nat)
    requires total > 0 && inside <= height && 0.0 <= p <= Share(height, total)
    ensures Abs(p + Share(outside, total) - Share(inside + outside, total)) <= Share(height, total)
  {
    hide Share;
    ShareAdds(inside, outside, total);
    ShareAdds(inside, height, total);
    ShareAdds(0, inside, total);
  }

  lemma Opposite(a: real, n: nat, total: nat, bound: real)
    requires total > 0 && n <= total && Abs(a - Share(n, total)) <= bound
    ensures Abs(1.0 - a - Share(total - n, total)) <= bound
  {
    hide Share;
    ShareAdds(n, total - n, total);
    ShareAdds(0, 0, total);
  }

  /** Where the values lie, seen from the bucket of `v`. */
  lemma AroundBucket(h: Hist, values: seq<int>, v: int)
    requires Describes(h, values) && Ready(h) && InRange(h, v)
    ensures var lo, hi := Left(h, Index(h, v)), Left(h, Index(h, v) + 1);
      && Matching(values, LT, v) == Before(h, v) + CountIn(values, lo, v)
      && Matching(values, LE, v) == Before(h, v) + CountIn(values, lo, v + 1)
      && Matching(values, GT, v) == CountIn(values, v + 1, hi) + After(h, v)
      && Matching(values, GE, v) == CountIn(values, v, hi) + After(h, v)
      && Matching(values, EQ, v) == CountIn(values, v, v + 1) == h.total - Matching(values, NE, v)
      && CountIn(values, lo, v) + CountIn(values, v, hi) == Height(h, v)
      && CountIn(values, lo, v + 1) + CountIn(values, v + 1, hi) == Height(h, v)
      && CountIn(values, v, v + 1) <= Height(h, v)
  {
    hide Width, Sum, Ready;
    BucketContains(h, v);
    Buckets(h, v);
    var b := Index(h, v);
    var lo, hi, end := Left(h, b), Left(h, b + 1), Left(h, h.buckets);
    Scale(0, b, h.width);
    Scale(b + 1, h.buckets, h.width);
    AllBelowEnd(h, values);
    MatchingInRange(values, v, h.min, end);
    SumIsCount(h, values, b);
    SumIsCount(h, values, b + 1);
    SumAround(h.counts, b);
    CountAll(values, h.min, end);
    CountSplit(values, h.min, hi, end);
    SplitAt(values, h.min, lo, v, hi, end);
    SplitAt(values, h.min, lo, v + 1, hi, end);
    CountSplit(values, lo, v, v + 1);
  }

  lemma SplitAt(values: seq<int>, start: int, lo: int, v: int, hi: int, end: int)
    requires start <= lo <= v <= hi <= end
    ensures CountIn(values, start, v) == CountIn(values, start, lo) + CountIn(values, lo, v)
    ensures CountIn(values, v, end) == CountIn(values, v, hi) + CountIn(values, hi, end)
    ensures CountIn(values, lo, hi) == CountIn(values, lo, v) + CountIn(values, v, hi)
  {
    CountSplit(values, start, lo, v);
    CountSplit(values, v, hi, end);
    CountSplit(values, lo, v, hi);
  }

  lemma AllBelowEnd(h: Hist, values: seq<int>)
    requires Describes(h, values)
    ensures forall v :: v in values ==> h.min <= v < Left(h, h.buckets)
  {
    forall v | v in values ensures h.min <= v < Left(h, h.buckets) {
      BucketContains(h, v);
      Scale(Index(h, v) + 1, h.buckets, h.width);
    }
  }

  /** How far an estimate may be off: the share of the value's bucket, nothing out of range. */
  function Slack(h: Hist, v: int): real
    requires h.width > 0 && h.total > 0
  {
    if InRange(h, v) then Share(Height(h, v), h.total) else 0.0
  }

  /** Every estimate differs from the fraction of values for which `x op v` holds by at most
      the share of the bucket of `v`, and out of range it is that fraction. */
  lemma EstimateIsAccurate(h: Hist, values: seq<int>, op: Op, v: int)
    requires Describes(h, values) && values != []
    ensures Ready(h)
    ensures Abs(Selectivity(h, op, v) - Share(Matching(values, op, v), h.total)) <= Slack(h, v)
  {
    hide Part, Share, Width, Sum;
    DescribedIsReady(h, values);
    ShareAdds(0, h.total, h.total);
    if !InRange(h, v) {
      MatchingOutOfRange(values, op, v, if v < h.min then op in {GT, GE, NE} else op in {LT, LE, NE});
    } else {
      AccurateInRange(h, values, op, v);
    }
  }

  lemma AccurateInRange(h: Hist, values: seq<int>, op: Op, v: int)
    requires Describes(h, values) && Ready(h) && InRange(h, v)
    ensures Abs(Selectivity(h, op, v) - Share(Matching(values, op, v), h.total)) <= Share(Height(h, v), h.total)
  {
    hide Part, Share, Width, Sum, Index, Left, Right, Describes, Height, Before, After, Offset, Span, CountIn, Matching;
    AroundBucket(h, values, v);
    Buckets(h, v);
    var height, k, n := Height(h, v), Offset(h, v), Span(h, v);
    var lo, hi := Left(h, Index(h, v)), Left(h, Index(h, v) + 1);
    match op
    case LT =>
      PartWithin(height, k, n, h.total);
      GuessInBucket(Part(height, k, n, h.total), CountIn(values, lo, v), height, Before(h, v), h.total);
    case LE =>
      if v == h.max { LastBucket(h); }
      PartWithin(height, k + 1, n, h.total);
      GuessInBucket(Part(height, k + 1, n, h.total), CountIn(values, lo, v + 1), height, Before(h, v), h.total);
    case GT =>
      PartWithin(height, n - k, n, h.total);
      GuessInBucket(Part(height, n - k, n, h.total), CountIn(values, v + 1, hi), height, After(h, v), h.total);
    case GE =>
      GtIsGe(h, v);
      PartWithin(height, n - k, n, h.total);
      GuessInBucket(Part(height, n - k, n, h.total), CountIn(values, v, hi), height, After(h, v), h.total);
    case EQ =>
      EqInBucket(h, CountIn(values, v, v + 1), v);
    case NE =>
      EqInBucket(h, CountIn(values, v, v + 1), v);
      Opposite(Eq(h, v), CountIn(values, v, v + 1), h.total, Share(height, h.total));
  }

  lemma EqInBucket(h: Hist, inside: nat, v: int)
    requires Ready(h) && InRange(h, v) && inside <= Height(h, v)
    ensures Abs(Eq(h, v) - Share(inside, h.total)) <= Share(Height(h, v), h.total)
  {
    hide Part, Share, Sum, Width;
    PartWithin(Height(h, v), 1, h.width, h.total);
    ShareAdds(0, 0, h.total);
    GuessInBucket(Part(Height(h, v), 1, h.width, h.total), inside, Height(h, v), 0, h.total);
  }

  lemma PartWithin(height: nat, k: nat, n: nat, total: nat)
    requires k <= n && n > 0 && total > 0
    ensures 0.0 <= Part(height, k, n, total) <= Share(height, total)
    ensures Part(height, k, n, total) + Part(height, n - k, n, total) == Share(height, total)
  {
    hide Part, Share;
    PartIsPositive(height, k, n, total);
    PartIsPositive(height, n - k, n, total);
    PartIsLinear(height, k, n - k, n, total);
    PartEnds(height, k, n, total);
  }

  /** Where the next value lies: in the same bucket, or at the start of the next one. */
  lemma NextIndex(h: Hist, v: int)
    requires Shaped(h) && h.min <= v < h.max
    ensures if Offset(h, v) + 1 < Span(h, v)
            then Index(h, v + 1) == Index(h, v) && Offset(h, v + 1) == Offset(h, v) + 1 && Span(h, v + 1) == Span(h, v)
            else Index(h, v + 1) == Index(h, v) + 1 && Offset(h, v + 1) == 0 && Offset(h, v) + 1 == Span(h, v)
  {
    BucketContains(h, v);
    var b := Index(h, v);
    assert (b + 1) * h.width == b * h.width + h.width;
    BucketIsIndex(h, v + 1, b);
    BucketIsIndex(h, v + 1, b + 1);
    assert (b + 2) * h.width == (b + 1) * h.width + h.width;
  }

  lemma LastSpan(h: Hist)
    requires Shaped(h) && h.min <= h.max
    ensures Offset(h, h.max) + 1 == Span(h, h.max)
  {
    BucketContains(h, h.max);
    var b := Index(h, h.max);
    assert (b + 1) * h.width == b * h.width + h.width;
  }

  /** "At most" is "less than the next value". */
  lemma LeIsLtNext(h: Hist, v: int)
    requires Ready(h)
    ensures Selectivity(h, LE, v) == Selectivity(h, LT, v + 1)
  {
    hide Part, Share, Width, Index, Left, Right, Sum;
    if v == h.min - 1 {
      AtMin(h);
    } else if h.min <= v < h.max {
      BucketContains(h, v);
      BucketContains(h, v + 1);
      Buckets(h, v);
      Buckets(h, v + 1);
      NextIndex(h, v);
      if Offset(h, v) + 1 == Span(h, v) {
        SumAround(h.counts, Index(h, v));
        PartEnds(Height(h, v), 0, Span(h, v), h.total);
        PartEnds(Height(h, v + 1), 0, Span(h, v + 1), h.total);
        ShareAdds(Height(h, v), Before(h, v), h.total);
      }
    }
  }

  lemma AtMin(h: Hist)
    requires Ready(h)
    ensures Lt(h, h.min) == 0.0 && Before(h, h.min) == 0 && Offset(h, h.min) == 0
  {
    hide Width, Part, Share;
    Buckets(h, h.min);
    BucketContains(h, h.min);
    BucketIsIndex(h, h.min, 0);
    assert 0 * h.width == 0 && (0 + 1) * h.width == h.width;
    assert h.counts[..0] == [];
    PartEnds(Height(h, h.min), 0, Span(h, h.min), h.total);
    ShareAdds(0, 0, h.total);
  }

  lemma LtStep(h: Hist, v: int)
    requires Ready(h)
    ensures 0.0 <= Lt(h, v) <= Lt(h, v + 1) <= 1.0
  {
    hide Part, Share, Width, Left, Right, Index, Sum;
    LtBounds(h, v);
    LtBounds(h, v + 1);
    if h.min <= v < h.max {
      LeIsLtNext(h, v);
      Buckets(h, v);
      BucketContains(h, v);
      PartIsLinear(Height(h, v), Offset(h, v), 1, Span(h, v), h.total);
      PartIsPositive(Height(h, v), 1, Span(h, v), h.total);
    }
  }

  lemma LtBounds(h: Hist, v: int)
    requires Ready(h)
    ensures 0.0 <= Lt(h, v) <= 1.0
  {
    hide Part, Share, Width, Left, Right, Index, Sum;
    if InRange(h, v) {
      Buckets(h, v);
      BucketContains(h, v);
      PartWithin(Height(h, v), Offset(h, v), Span(h, v), h.total);
      ShareAdds(Height(h, v), Before(h, v), h.total);
      ShareAdds(0, Before(h, v), h.total);
      ShareAdds(Height(h, v) + Before(h, v), h.total, h.total);
    }
  }

  /** A greater bound is never less selective; every estimate is a fraction. */
  lemma {:induction false} LtIsMonotone(h: Hist, u: int, v: int)
    requires Ready(h) && u <= v
    ensures 0.0 <= Selectivity(h, LT, u) <= Selectivity(h, LT, v) <= 1.0
    decreases v - u
  {
    hide Lt, Ready;
    LtStep(h, u);
    if u < v {
      LtIsMonotone(h, u + 1, v);
    }
  }

  lemma Complement(h: Hist, v: int)
    requires Ready(h) && InRange(h, v)
    ensures Lt(h, v) + Gt(h, v) == 1.0
  {
    hide Part, Share, Width, Left, Right, Index, Sum;
    Buckets(h, v);
    BucketContains(h, v);
    PartWithin(Height(h, v), Offset(h, v), Span(h, v), h.total);
    ShareAdds(Before(h, v), Height(h, v), h.total);
    ShareAdds(Before(h, v) + Height(h, v), After(h, v), h.total);
  }

  /** "Less than" and "at least" are complementary, "equal" and "not equal" as well. */
  lemma Complements(h: Hist, v: int)
    requires Ready(h)
    ensures Selectivity(h, LT, v) + Selectivity(h, GE, v) == 1.0
    ensures Selectivity(h, EQ, v) + Selectivity(h, NE, v) == 1.0
  {
    hide Part, Share, Width, Left, Right, Index, Sum;
    if v == h.min {
      AtMin(h);
    } else if InRange(h, v) {
      Complement(h, v);
    }
  }

  /** "Greater than" counts the value itself: it is "at least" wherever the two are not
      decided by the range. */
  lemma GtIsGe(h: Hist, v: int)
    requires Ready(h)
    ensures Selectivity(h, GT, v) == Selectivity(h, GE, v)
  {
    hide Part, Share, Width, Left, Right, Index, Sum;
    if v == h.min {
      Complement(h, v);
      AtMin(h);
    }
  }

  /** "Greater than" and "at most" are complementary exactly when the value is out of range or
      its bucket is empty. */
  lemma GtLeIff(h: Hist, v: int)
    requires Ready(h)
    ensures Selectivity(h, GT, v) + Selectivity(h, LE, v) == 1.0 <==> !InRange(h, v) || Height(h, v) == 0
  {
    hide Part, Share, Width, Left, Right, Index, Sum;
    if InRange(h, v) {
      Complement(h, v);
      Buckets(h, v);
      BucketContains(h, v);
      PartIsLinear(Height(h, v), Offset(h, v), 1, Span(h, v), h.total);
      PartIsPositive(Height(h, v), 1, Span(h, v), h.total);
      PartEnds(Height(h, v), 1, Span(h, v), h.total);
      if v == h.max {
        LastBucket(h);
      }
    }
  }

  /** The formula for "at most" also gives one at the greatest value. */
  lemma LastBucket(h: Hist)
    requires Ready(h)
    ensures 0 <= Offset(h, h.max) && Offset(h, h.max) + 1 == Span(h, h.max)
    ensures Part(Height(h, h.max), Span(h, h.max), Span(h, h.max), h.total) + Share(Before(h, h.max), h.total) == 1.0
  {
    hide Part, Share, Width, Index, Left, Right, Span, Offset, Height, Before, Sum;
    LastSpan(h);
    Buckets(h, h.max);
    PartEnds(Height(h, h.max), 1, Span(h, h.max), h.total);
    ShareAdds(Height(h, h.max), Before(h, h.max), h.total);
    ShareAdds(h.total, 0, h.total);
  }

  /** "Equal" is the gap between "at most" and "less than" exactly when the bucket is not cut
      off by the range, or is empty. */
  lemma EqGapIff(h: Hist, v: int)
    requires Ready(h) && InRange(h, v)
    ensures Selectivity(h, LE, v) - Selectivity(h, LT, v) == Selectivity(h, EQ, v) <==>
      Span(h, v) == h.width || Height(h, v) == 0
  {
    hide Part, Share, Width, Left, Right, Index, Sum;
    Buckets(h, v);
    BucketContains(h, v);
    PartIsLinear(Height(h, v), Offset(h, v), 1, Span(h, v), h.total);
    PartEnds(Height(h, v), 1, Span(h, v), h.total);
    PartEnds(Height(h, v), 1, h.width, h.total);
    if v == h.max {
      LastBucket(h);
    }
    if Height(h, v) > 0 && Span(h, v) < h.width {
      Thinner(Height(h, v), Span(h, v), h.width, h.total);
    }
  }

  /** The estimates of "less than" interpolate: they are exact where a bucket starts and grow
      by the same step for each value of a bucket. The estimate of "equal" spreads the bucket
      over its full width. Together with the other laws this determines every estimate. */
  lemma Interpolates(h: Hist, values: seq<int>, v: int)
    requires Describes(h, values) && values != [] && InRange(h, v)
    ensures Ready(h)
    ensures Offset(h, v) == 0 ==> Selectivity(h, LT, v) == Share(Matching(values, LT, v), h.total)
    ensures (Selectivity(h, LE, v) - Selectivity(h, LT, v)) * Span(h, v) as real == Share(Height(h, v), h.total)
    ensures Selectivity(h, EQ, v) * h.width as real == Share(Height(h, v), h.total)
  {
    hide Part, Share, Width, Right, Index, Sum, Left, Height, Before, After, CountIn, Matching, Describes;
    DescribedIsReady(h, values);
    AroundBucket(h, values, v);
    Buckets(h, v);
    NoneIn(values, v);
    var height, k, n := Height(h, v), Offset(h, v), Span(h, v);
    PartIsLinear(height, k, 1, n, h.total);
    PartEnds(height, 1, n, h.total);
    PartTimes(height, n, h.total);
    PartTimes(height, h.width, h.total);
    if v == h.max {
      LastBucket(h);
    }
    assert Selectivity(h, LE, v) - Selectivity(h, LT, v) == Part(height, 1, n, h.total);
  }

  lemma PartTimes(height: nat, n: nat, total: nat)
    requires n > 0 && total > 0
    ensures Part(height, 1, n, total) * n as real == Share(height, total)
  {
    var a, x, t := height as real, n as real, total as real;
    assert a * 1.0 == a;
    assert a / x / t * x == a / x * x / t;
  }

  lemma Thinner(height: nat, m: nat, n: nat, total: nat)
    requires 0 < m < n && height > 0 && total > 0
    ensures Part(height, 1, n, total) < Part(height, 1, m, total)
  {
    hide Over;
    var a, x, y, t := height as real, m as real, n as real, total as real;
    Quotients(Times(a, 1.0), x, y);
    Smaller(Over(Times(a, 1.0), y), Over(Times(a, 1.0), x), t);
  }

  lemma Quotients(a: real, x: real, y: real)
    requires a > 0.0 && 0.0 < x < y
    ensures Over(a, y) < Over(a, x)
  {
    assert a / y * y == a && a / x * x == a;
  }

  lemma Smaller(a: real, b: real, t: real)
    requires a < b && t > 0.0
    ensures Over(a, t) < Over(b, t)
  {
    hide Over;
    Divides(a, b - a, t);
    Quotient(b - a, t);
  }

  // ---------- Two histograms of one value ----------

  /** One bucket for 0 and 1, holding a 0: half of the value is "greater than 0", although all
      of it is "at most 0" or more. */
  lemma GtAndLeOverlap()
    ensures var h := Hist(1, 0, 1, 2, [1], 1);
      Describes(h, [0]) && Ready(h) && Selectivity(h, GT, 0) + Selectivity(h, LE, 0) != 1.0
  {
    var h := Hist(1, 0, 1, 2, [1], 1);
    CountOne(0, 0, 2);
    DescribedIsReady(h, [0]);
    assert Index(h, 0) == 0;
    GtLeIff(h, 0);
  }

  /** Two buckets of width 2 for 0 to 2, holding a 2: the second bucket is cut off after one
      value, and "equal to 2" still divides by 2. */
  lemma EqMissesGap()
    ensures var h := Hist(2, 0, 2, 2, [0, 1], 1);
      Describes(h, [2]) && Ready(h) && Selectivity(h, LE, 2) - Selectivity(h, LT, 2) != Selectivity(h, EQ, 2)
  {
    var h := Hist(2, 0, 2, 2, [0, 1], 1);
    CountOne(2, 0, 2);
    CountOne(2, 2, 4);
    DescribedIsReady(h, [2]);
    assert Index(h, 2) == 1 && Left(h, 1) == 2 && Right(h, 1) == 3;
    EqGapIff(h, 2);
  }

  lemma CountOne(v: int, lo: int, hi: int)
    ensures CountIn([v], lo, hi) == if lo <= v < hi then 1 else 0
  {
    assert [v][..0] == [];
  }

  // ---------- The histogram object ----------

  class IntHistogram {
    const buckets: nat
    const min: int
    const max: int
    const width: int
    var counts: seq<nat>
    var total: nat
    ghost var values: seq<int>

    function Now(): Hist
      reads this
    {
      Hist(buckets, min, max, width, counts, total)
    }

    ghost predicate Valid()
      reads this
    {
      Describes(Now(), values)
    }

    constructor (buckets: nat, min: int, max: int)
      requires buckets > 0
      ensures Valid() && values == [] && this.buckets == buckets && this.min == min && this.max == max
    {
      this.buckets, this.min, this.max := buckets, min, max;
      width := Width(buckets, min, max);
      counts := seq(buckets, _ => 0);
      total, values := 0, [];
    }

    /** Counts a value in range; any other is ignored. */
    method AddValue(v: int)
      requires Valid()
      modifies this
      ensures Valid() && values == if min <= v <= max then old(values) + [v] else old(values)
    {
      if min <= v <= max {
        BucketContains(Now(), v);
        var b := (v - min) / width;
        if b >= buckets {
          b := buckets - 1;
        }
        AddedDescribes(Now(), values, v);
        counts := counts[b := counts[b] + 1];
        total, values := total + 1, values + [v];
      }
    }

    /** The shares of the buckets from `lo` up to `hi`, added one by one. */
    method AddShares(start: real, lo: nat, hi: nat) returns (sum: real)
      requires total > 0 && lo <= hi <= |counts|
      ensures sum == start + Share(Sum(counts[lo..hi]), total)
    {
      hide Share;
      sum := start;
      ShareAdds(0, 0, total);
      for i := lo to hi
        invariant sum == start + Share(Sum(counts[lo..i]), total)
      {
        assert counts[lo..i + 1][..i - lo] == counts[lo..i];
        ShareAdds(Sum(counts[lo..i]), counts[i], total);
        sum := sum + Share(counts[i], total);
      }
    }

    /** The answer is within the share of v's bucket of the fraction of the added values that
        satisfy the predicate, exact when `v` is out of range, and 0 for an empty histogram. */
    method EstimateSelectivity(op: Op, v: int) returns (r: real)
      requires Valid()
      ensures total > 0 ==> Ready(Now())
      ensures r == Selectivity(Now(), op, v)
      ensures if total == 0 then r == 0.0 else Abs(r - Share(Matching(values, op, v), total)) <= Slack(Now(), v)
      decreases op == NE
    {
      hide Part, Share, Width, Index, Left, Right, Sum;
      if total > 0 {
        EstimateIsAccurate(Now(), values, op, v);
      }
      if total == 0 {
        return 0.0;
      }
      if v < min {
        return if op == GT || op == GE || op == NE then 1.0 else 0.0;
      }
      if v > max {
        return if op == LT || op == LE || op == NE then 1.0 else 0.0;
      }
      if op == NE {
        var equal := EstimateSelectivity(EQ, v);
        return 1.0 - equal;
      }
      r := EstimateInRange(op, v);
    }

    /** The bucket of a value in range, its ends and its height. */
    method Bucket(v: int) returns (b: nat, left: int, right: int, height: nat)
      requires Valid() && min <= v <= max
      ensures var h := Now();
        b == Index(h, v) < buckets == |counts| && left == Left(h, b) && right == Right(h, b) && height == Height(h, v)
      ensures left <= v < right
    {
      BucketContains(Now(), v);
      var index := (v - min) / width;
      if index >= buckets {
        index := buckets - 1;
      }
      b := index;
      height := counts[b];
      left := min + b * width;
      right := left + width;
      if right > max {
        right := max + 1;
      }
    }

    method EstimateInRange(op: Op, v: int) returns (r: real)
      requires Valid() && Ready(Now()) && min <= v <= max && op != NE
      ensures r == Selectivity(Now(), op, v)
    {
      hide Part, Share, Index, Left, Right, Sum, Describes;
      var b, left, right, height := Bucket(v);
      assert counts[..b] == counts[0..b] && counts[b + 1..] == counts[b + 1..buckets];
      match op
      case EQ =>
        PartEnds(height, 1, width, total);
        r := if height == 0 then 0.0 else Part(height, 1, width, total);
      case GT =>
        PartEnds(height, right - v, right - left, total);
        r := if height > 0 then Part(height, right - v, right - left, total) else 0.0;
        r := AddShares(r, b + 1, buckets);
      case LT =>
        PartEnds(height, v - left, right - left, total);
        r := if height > 0 then Part(height, v - left, right - left, total) else 0.0;
        r := AddShares(r, 0, b);
      case GE =>
        if v <= min {
          return 1.0;
        }
        PartEnds(height, right - v, right - left, total);
        r := if height == 0 then 0.0
             else if v == left then Share(height, total)
             else Part(height, right - v, right - left, total);
        r := AddShares(r, b + 1, buckets);
      case LE =>
        if v >= max {
          return 1.0;
        }
        PartEnds(height, v - left + 1, right - left, total);
        r := if height == 0 then 0.0
             else if v == right - 1 then Share(height, total)
             else Part(height, v - left + 1, right - left, total);
        r := AddShares(r, 0, b);
    }
  }

  lemma CountSnoc(values: seq<int>, v: int, lo: int, hi: int)
    ensures CountIn(values + [v], lo, hi) == CountIn(values, lo, hi) + if lo <= v < hi then 1 else 0
  {
    assert (values + [v])[..|values|] == values;
  }

  lemma AddedDescribes(h: Hist, values: seq<int>, v: int)
    requires Describes(h, values) && InRange(h, v)
    ensures 0 <= Index(h, v) < h.buckets
    ensures var b := Index(h, v);
      Describes(h.(counts := h.counts[b := h.counts[b] + 1], total := h.total + 1), values + [v])
  {
    hide Index, Left, CountIn, Width;
    BucketContains(h, v);
    var i, more := Index(h, v), values + [v];
    var h' := h.(counts := h.counts[i := h.counts[i] + 1], total := h.total + 1);
    forall b | 0 <= b < h.buckets ensures h'.counts[b] == CountIn(more, Left(h', b), Left(h', b + 1)) {
      BucketIsIndex(h, v, b);
      SameLeft(h, h', b);
      SameLeft(h, h', b + 1);
      CountSnoc(values, v, Left(h, b), Left(h, b + 1));
    }
  }

  lemma SameLeft(h: Hist, h': Hist, b: int)
    requires h.min == h'.min && h.width == h'.width
    ensures Left(h, b) == Left(h', b)
  {
  }
}
