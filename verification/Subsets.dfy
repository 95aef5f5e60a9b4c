/** All subsets of a given size, by stepping a bit vector from its least to its greatest
    permutation. */
module Subsets {

  type Bits = seq<bool>

  function Ones(b: Bits): (n: nat)
    ensures n <= |b|
  {
    if b == [] then 0 else (if b[0] then 1 else 0) + Ones(b[1..])
  }

  /** Zeros, then k ones. */
  function Low(n: nat, k: nat): (b: Bits)
    requires k <= n
    ensures |b| == n
  {
    seq(n, i => i >= n - k)
  }

  /** k ones, then zeros. */
  function High(n: nat, k: nat): (b: Bits)
    requires k <= n
    ensures |b| == n
  {
    seq(n, i => i < k)
  }

  /** Lexicographic order, false before true. */
  predicate Less(a: Bits, b: Bits)
    requires |a| == |b|
  {
    a != [] && if a[0] == b[0] then Less(a[1..], b[1..]) else b[0]
  }

  lemma {:induction false} LessIsTotal(a: Bits, b: Bits)
    requires |a| == |b|
    ensures Less(a, b) || a == b || Less(b, a)
  {
    if a == [] {
    } else if a[0] == b[0] {
      LessIsTotal(a[1..], b[1..]);
      if a[1..] == b[1..] {
        assert a == [a[0]] + a[1..] && b == [b[0]] + b[1..];
      }
    }
  }

  lemma {:induction false} OnesOfLow(n: nat, k: nat)
    requires k <= n
    ensures Ones(Low(n, k)) == k
  {
    if n == 0 {
    } else if k < n {
      assert Low(n, k)[1..] == Low(n - 1, k);
      OnesOfLow(n - 1, k);
    } else {
      assert Low(n, k)[1..] == Low(n - 1, k - 1);
      OnesOfLow(n - 1, k - 1);
    }
  }

  lemma {:induction false} OnesOfHigh(n: nat, k: nat)
    requires k <= n
    ensures Ones(High(n, k)) == k
  {
    if n == 0 {
    } else if k > 0 {
      assert High(n, k)[1..] == High(n - 1, k - 1);
      OnesOfHigh(n - 1, k - 1);
    } else {
      assert High(n, k)[1..] == High(n - 1, 0);
      OnesOfHigh(n - 1, 0);
    }
  }

  lemma {:induction false} OnesOfConcat(a: Bits, b: Bits)
    ensures Ones(a + b) == Ones(a) + Ones(b)
  {
    if a == [] {
      assert a + b == b;
    } else {
      assert (a + b)[1..] == a[1..] + b;
      OnesOfConcat(a[1..], b);
    }
  }

  /** Among the vectors with as many ones, `Low` comes first. */
  lemma {:induction false} LowIsLeast(c: Bits)
    ensures var low := Low(|c|, Ones(c)); c == low || Less(low, c)
  {
    if c != [] {
      var low := Low(|c|, Ones(c));
      LowIsLeast(c[1..]);
      assert c == [c[0]] + c[1..] && low == [low[0]] + low[1..];
      if !c[0] {
        assert low[1..] == Low(|c| - 1, Ones(c[1..]));
      } else if Ones(c) == |c| {
        assert low[1..] == Low(|c| - 1, Ones(c[1..]));
      }
    }
  }

  /** Among the vectors with as many ones, `High` comes last. */
  lemma {:induction false} HighIsGreatest(c: Bits)
    ensures var high := High(|c|, Ones(c)); !Less(high, c)
  {
    if c != [] {
      var high := High(|c|, Ones(c));
      HighIsGreatest(c[1..]);
      if c[0] {
        assert high[1..] == High(|c| - 1, Ones(c[1..]));
      } else if Ones(c) == 0 {
        assert high[1..] == High(|c| - 1, Ones(c[1..]));
      }
    }
  }

  /** One step: the last zero followed by a one becomes a one, what follows is put in order. */
  ghost predicate Steps(b: Bits, b': Bits, i: nat, m: nat) {
    && i < |b| && 1 <= m <= |b| - i - 1
    && b == b[..i] + [false] + High(|b| - i - 1, m)
    && b' == b[..i] + [true] + Low(|b| - i - 1, m - 1)
  }

  lemma StepKeepsOnes(b: Bits, b': Bits, i: nat, m: nat)
    requires Steps(b, b', i, m)
    ensures |b'| == |b| && Ones(b') == Ones(b)
  {
    OnesOfHigh(|b| - i - 1, m);
    OnesOfLow(|b| - i - 1, m - 1);
    Traded(b[..i], High(|b| - i - 1, m), Low(|b| - i - 1, m - 1), b, b');
  }

  lemma Traded(p: Bits, high: Bits, low: Bits, b: Bits, b': Bits)
    requires b == p + [false] + high && b' == p + [true] + low && |low| == |high| && Ones(high) == Ones(low) + 1
    ensures |b'| == |b| && Ones(b') == Ones(b)
  {
    OnesAround(p, false, high);
    OnesAround(p, true, low);
  }

  lemma OnesAround(p: Bits, x: bool, q: Bits)
    ensures Ones(p + [x] + q) == Ones(p) + (if x then 1 else 0) + Ones(q)
  {
    OnesOfConcat(p + [x], q);
    OnesOfConcat(p, [x]);
    assert [x][1..] == [];
  }

  /** The step goes up, and leaves no vector with as many ones in between. */
  lemma {:induction false} StepIsNext(b: Bits, b': Bits, i: nat, m: nat, c: Bits)
    requires Steps(b, b', i, m) && |c| == |b| == |b'| && Ones(c) == Ones(b)
    ensures Less(b, b') && (Less(b, c) ==> c == b' || Less(b', c))
  {
    var n := |b| - i - 1;
    StepKeepsOnes(b, b', i, m);
    if i == 0 {
      assert b == [false] + High(n, m) && b' == [true] + Low(n, m - 1);
      OnesAround([], false, High(n, m));
      assert [] + [false] + High(n, m) == b;
      OnesOfHigh(n, m);
      StepAtHead(n, m, c);
    } else {
      assert b[1..] == b[1..][..i - 1] + [false] + High(n, m);
      assert b'[1..] == b[1..][..i - 1] + [true] + Low(n, m - 1);
      assert c == [c[0]] + c[1..] && b' == [b'[0]] + b'[1..];
      if c[0] == b[0] {
        StepIsNext(b[1..], b'[1..], i - 1, m, c[1..]);
      } else {
        StepIsNext(b[1..], b'[1..], i - 1, m, b[1..]);
      }
    }
  }

  lemma StepAtHead(n: nat, m: nat, c: Bits)
    requires 1 <= m <= n && |c| == n + 1 && Ones(c) == m
    ensures var b, b' := [false] + High(n, m), [true] + Low(n, m - 1);
      Less(b, b') && (Less(b, c) ==> c == b' || Less(b', c))
  {
    var b, b' := [false] + High(n, m), [true] + Low(n, m - 1);
    assert b[1..] == High(n, m) && b'[1..] == Low(n, m - 1) && c == [c[0]] + c[1..];
    HighIsGreatest(c[1..]);
    LowIsLeast(c[1..]);
  }

  method ReverseFrom(a: array<bool>, from: nat)
    requires from <= a.Length
    modifies a
    ensures forall k :: 0 <= k < from ==> a[k] == old(a[k])
    ensures forall k :: from <= k < a.Length ==> a[k] == old(a[from + a.Length - 1 - k])
  {
    var lo, hi := from, a.Length;
    while lo + 1 < hi
      invariant from <= lo <= a.Length && hi == from + a.Length - lo && lo <= hi + 1
      invariant forall k :: 0 <= k < from || lo <= k < hi ==> a[k] == old(a[k])
      invariant forall k :: from <= k < lo || hi <= k < a.Length ==> a[k] == old(a[from + a.Length - 1 - k])
    {
      a[lo], a[hi - 1] := a[hi - 1], a[lo];
      lo, hi := lo + 1, hi - 1;
    }
  }

  /** `std::next_permutation`: steps to the next vector with as many ones; after the last one
      it answers false and starts over with the first. */
  method NextPermutation(a: array<bool>) returns (more: bool, ghost at: nat, ghost m: nat)
    modifies a
    ensures more ==> Steps(old(a[..]), a[..], at, m)
    ensures !more ==> m <= a.Length && old(a[..]) == High(a.Length, m) && a[..] == Low(a.Length, m)
  {
    hide Steps;
    at, m := 0, 0;
    var i := if a.Length == 0 then 0 else a.Length - 1;
    while i > 0 && (a[i - 1] || !a[i])
      invariant 0 <= i <= a.Length && (a.Length > 0 ==> i < a.Length)
      invariant forall k, l :: i <= k <= l < a.Length && a[l] ==> a[k]
    {
      i := i - 1;
    }
    ghost var was := a[..];
    m := Leading(was, i);
    assert was[i..] == High(a.Length - i, m);
    if i == 0 {
      more := false;
      ReverseFrom(a, 0);
      assert was == was[0..];
      assert a[..] == Low(a.Length, m);
    } else {
      more, at := true, i - 1;
      var j := a.Length - 1;
      while !a[j]
        invariant i <= j < a.Length && a[i] && forall k :: j < k < a.Length ==> !a[k]
        decreases j
      {
        j := j - 1;
      }
      assert m == j - i + 1 by {
        assert was[i..][j - i] == was[j];
        assert j + 1 < a.Length ==> was[i..][j + 1 - i] == was[j + 1];
      }
      a[i - 1], a[j] := a[j], a[i - 1];
      ReverseFrom(a, i);
      forall k | i <= k < a.Length ensures a[k] == Low(a.Length - i, m - 1)[k - i] {
        assert was[i..][i + a.Length - 1 - k - i] == was[i + a.Length - 1 - k];
      }
      StepAt(was, a[..], at, m);
    }
  }

  lemma StepAt(b: Bits, b': Bits, i: nat, m: nat)
    requires i < |b| == |b'| && 1 <= m <= |b| - i - 1
    requires !b[i] && b'[i] && b[i + 1..] == High(|b| - i - 1, m)
    requires forall k :: 0 <= k < i ==> b'[k] == b[k]
    requires forall k :: i < k < |b| ==> b'[k] == Low(|b| - i - 1, m - 1)[k - i - 1]
    ensures Steps(b, b', i, m)
  {
    assert b == b[..i] + [false] + b[i + 1..];
    assert b' == b[..i] + [true] + Low(|b| - i - 1, m - 1);
  }

  /** How many ones a suffix without ascent starts with. */
  lemma {:induction false} Leading(b: Bits, i: nat) returns (m: nat)
    requires i <= |b| && forall k, l :: i <= k <= l < |b| && b[l] ==> b[k]
    ensures m <= |b| - i && b[i..] == High(|b| - i, m)
    decreases |b| - i
  {
    if i == |b| || !b[i] {
      m := 0;
    } else {
      var rest := Leading(b, i + 1);
      m := rest + 1;
      assert b[i..] == [b[i]] + b[i + 1..];
    }
  }

  // ---------- Termination ----------

  function Power(n: nat): (p: nat)
    ensures p > 0
  {
    if n == 0 then 1 else 2 * Power(n - 1)
  }

  function Value(b: Bits): (v: nat)
    ensures v < Power(|b|)
  {
    if b == [] then 0 else (if b[0] then Power(|b| - 1) else 0) + Value(b[1..])
  }

  lemma {:induction false} LessValue(a: Bits, b: Bits)
    requires |a| == |b| && Less(a, b)
    ensures Value(a) < Value(b)
  {
    if a[0] == b[0] {
      LessValue(a[1..], b[1..]);
    }
  }

  // ---------- Subsets ----------

  ghost function Elements<T>(v: seq<T>): set<T> {
    set x | x in v
  }

  /** The elements at the ones. */
  ghost function Pick<T>(v: seq<T>, b: Bits): set<T>
    requires |b| == |v|
  {
    set i | 0 <= i < |v| && b[i] :: v[i]
  }

  ghost predicate Distinct<T>(v: seq<T>) {
    forall i, j :: 0 <= i < j < |v| ==> v[i] != v[j]
  }

  lemma {:induction false} PickSize<T>(v: seq<T>, b: Bits)
    requires |b| == |v| && Distinct(v)
    ensures |Pick(v, b)| == Ones(b)
  {
    if v != [] {
      PickSize(v[1..], b[1..]);
      var first := if b[0] then {v[0]} else {};
      forall x ensures x in Pick(v, b) <==> x in first || x in Pick(v[1..], b[1..]) {
        if x in Pick(v, b) {
          var i :| 0 <= i < |v| && b[i] && v[i] == x;
          assert i > 0 ==> v[1..][i - 1] == x && b[1..][i - 1];
        }
        if x in Pick(v[1..], b[1..]) {
          var i :| 0 <= i < |v[1..]| && b[1..][i] && v[1..][i] == x;
          assert v[i + 1] == x && b[i + 1];
        }
      }
      assert Pick(v, b) == first + Pick(v[1..], b[1..]);
      assert v[0] !in Pick(v[1..], b[1..]);
    } else {
      assert Pick(v, b) == {};
    }
  }

  lemma DistinctSize<T>(v: seq<T>)
    requires Distinct(v)
    ensures |Elements(v)| == |v|
  {
    var all := High(|v|, |v|);
    forall x | x in v ensures x in Pick(v, all) {
      var i :| 0 <= i < |v| && v[i] == x;
      assert all[i];
    }
    assert Pick(v, all) == Elements(v);
    PickSize(v, all);
    OnesOfHigh(|v|, |v|);
  }

  /** Every subset is picked by some vector. */
  lemma SubsetIsPicked<T>(v: seq<T>, s: set<T>) returns (b: Bits)
    requires Distinct(v) && s <= Elements(v)
    ensures |b| == |v| && Pick(v, b) == s && Ones(b) == |s|
  {
    b := seq(|v|, i requires 0 <= i < |v| => v[i] in s);
    forall x | x in s ensures x in Pick(v, b) {
      assert x in Elements(v);
      var i :| 0 <= i < |v| && v[i] == x;
      assert b[i];
    }
    assert Pick(v, b) == s;
    PickSize(v, b);
  }

  ghost predicate Picked<T>(v: seq<T>, k: nat, s: set<T>) {
    exists c: Bits :: |c| == |v| && Ones(c) == k && Pick(v, c) == s
  }

  /** All vectors below `b` were picked, and nothing else. */
  ghost predicate Visited<T>(v: seq<T>, k: nat, b: Bits, res: set<set<T>>)
    requires |b| == |v|
  {
    && (forall c: Bits :: |c| == |v| && Ones(c) == k && Less(c, b) ==> Pick(v, c) in res)
    && (forall s :: s in res ==> Picked(v, k, s))
  }

  lemma VisitedFirst<T>(v: seq<T>, k: nat)
    requires k <= |v|
    ensures Ones(Low(|v|, k)) == k && Visited(v, k, Low(|v|, k), {})
  {
    OnesOfLow(|v|, k);
    forall c: Bits | |c| == |v| && Ones(c) == k ensures !Less(c, Low(|v|, k)) {
      LowIsLeast(c);
      NotBoth(c, Low(|v|, k));
    }
  }

  lemma NotBoth(a: Bits, b: Bits)
    requires |a| == |b|
    ensures !(Less(a, b) && Less(b, a)) && (a == b ==> !Less(a, b))
  {
    if Less(a, b) { LessValue(a, b); }
    if Less(b, a) { LessValue(b, a); }
  }

  lemma VisitedNext<T>(v: seq<T>, k: nat, b: Bits, b': Bits, i: nat, m: nat, res: set<set<T>>)
    requires Steps(b, b', i, m) && |b| == |v| && Ones(b) == k && Visited(v, k, b, res)
    ensures |b'| == |v| && Ones(b') == k && Less(b, b') && Visited(v, k, b', res + {Pick(v, b)})
  {
    StepKeepsOnes(b, b', i, m);
    StepIsNext(b, b', i, m, b);
    forall c: Bits | |c| == |v| && Ones(c) == k && Less(c, b') ensures c == b || Less(c, b) {
      StepIsNext(b, b', i, m, c);
      LessIsTotal(b, c);
      NotBoth(c, b');
    }
  }

  lemma VisitedAll<T>(v: seq<T>, k: nat, b: Bits, res: set<set<T>>)
    requires |b| == |v| && Ones(b) == k && b == High(|v|, k) && Visited(v, k, b, res)
    ensures forall s :: s in res + {Pick(v, b)} <==> Picked(v, k, s)
  {
    forall c: Bits | |c| == |v| && Ones(c) == k ensures c == b || Less(c, b) {
      HighIsGreatest(c);
      LessIsTotal(b, c);
    }
  }

  /** For distinct elements, the vectors with k ones pick exactly the subsets of size k. */
  lemma PickedIsSubset<T>(v: seq<T>, k: nat, s: set<T>)
    requires Distinct(v)
    ensures Picked(v, k, s) <==> s <= Elements(v) && |s| == k
  {
    if Picked(v, k, s) {
      var c: Bits :| |c| == |v| && Ones(c) == k && Pick(v, c) == s;
      PickSize(v, c);
    }
    if s <= Elements(v) && |s| == k {
      var b := SubsetIsPicked(v, s);
    }
  }

  method PickSubset<T(==)>(v: seq<T>, bits: array<bool>) returns (subset: set<T>)
    requires bits.Length == |v|
    ensures subset == Pick(v, bits[..])
  {
    subset := {};
    for i := 0 to |v|
      invariant forall x :: x in subset <==> exists k :: 0 <= k < i && bits[k] && v[k] == x
    {
      if bits[i] {
        subset := subset + {v[i]};
      }
    }
  }

  /** All subsets of the given size, each once. */
  method EnumerateSubsets<T(==)>(v: seq<T>, size: nat) returns (res: set<set<T>>)
    requires size <= |v|
    ensures forall s :: s in res <==> Picked(v, size, s)
    ensures Distinct(v) ==> forall s :: s in res <==> s <= Elements(v) && |s| == size
  {
    hide Visited, Pick, Picked, Steps, Distinct, Elements, Ones, Less;
    var bits := new bool[|v|](i => i >= |v| - size);
    assert bits[..] == Low(|v|, size);
    VisitedFirst(v, size);
    res := {};
    var more := true;
    while more
      invariant Ones(bits[..]) == size
      invariant if more then Visited(v, size, bits[..], res) else forall s :: s in res <==> Picked(v, size, s)
      decreases more, Power(|v|) - Value(bits[..])
    {
      ghost var b, before := bits[..], res;
      var subset := PickSubset(v, bits);
      res := res + {subset};
      ghost var at, m;
      more, at, m := NextPermutation(bits);
      if more {
        VisitedNext(v, size, b, bits[..], at, m, before);
        LessValue(b, bits[..]);
      } else {
        OnesOfHigh(|v|, m);
        OnesOfLow(|v|, m);
        VisitedAll(v, size, b, before);
      }
    }
    if Distinct(v) {
      forall s ensures s in res <==> s <= Elements(v) && |s| == size {
        PickedIsSubset(v, size, s);
      }
    }
  }
}
