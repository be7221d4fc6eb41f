/**
 * idmin for IBM z: the 1-based position of the first minimum of a strided
 * vector. A 32-wide block kernel carries (value, index) pairs in two vector
 * lanes; the dispatcher finishes the tail and runs a 4-way unrolled scalar
 * loop for non-unit strides. Elements are integers.
 */
module IdMin {
  import opened Views

  /** k is the position of the first minimum of s. */
  ghost predicate IsFirstMin(s: seq<int>, k: int)
  {
    0 <= k < |s| &&
    (forall j :: 0 <= j < |s| ==> s[k] <= s[j]) &&
    (forall j :: 0 <= j < k ==> s[k] < s[j])
  }

  lemma FirstMinNotAfter(s: seq<int>, k1: int, k2: int)
    requires IsFirstMin(s, k1) && 0 <= k2 < |s| && s[k2] <= s[k1]
    ensures k1 <= k2
  {
  }

  /** The first minimum is unique. */
  lemma FirstMinUnique(s: seq<int>, k1: int, k2: int)
    requires IsFirstMin(s, k1) && IsFirstMin(s, k2)
    ensures k1 == k2
  {
    FirstMinNotAfter(s, k1, k2);
    FirstMinNotAfter(s, k2, k1);
  }

  /**
   * The scalar scan: from state (j, min) to the end of v, moving min to a
   * later position only on a strictly smaller value.
   */
  function ScanFrom(v: seq<int>, j: int, min: int): (k: int)
    requires 0 <= j <= |v| && 0 <= min < |v|
    ensures 0 <= k < |v|
    decreases |v| - j
  {
    if j == |v| then min else ScanFrom(v, j + 1, if v[j] < v[min] then j else min)
  }

  /** The reference: a naive single-step left-to-right scan seeded from v[0]. */
  function ScanMin(v: seq<int>): (k: int)
    requires |v| > 0
  {
    ScanFrom(v, 1, 0)
  }

  /** Continuing the scan from the first minimum of a prefix ends at the first minimum of v. */
  lemma {:induction false} ScanFromFirstMin(v: seq<int>, j: int, min: int)
    requires 1 <= j <= |v| && IsFirstMin(v[..j], min)
    ensures IsFirstMin(v, ScanFrom(v, j, min))
    decreases |v| - j
  {
    if j == |v| {
      assert v[..j] == v;
    } else {
      var next := if v[j] < v[min] then j else min;
      assert IsFirstMin(v[..j + 1], next) by {
        assert forall p :: 0 <= p < j ==> v[..j + 1][p] == v[..j][p];
      }
      ScanFromFirstMin(v, j + 1, next);
    }
  }

  lemma ScanMinIsFirstMin(v: seq<int>)
    requires |v| > 0
    ensures IsFirstMin(v, ScanMin(v))
  {
    ScanFromFirstMin(v, 1, 0);
  }

  /**
   * Seeding the scalar scan at j with the first minimum of v[..j] (what the
   * block kernel delivers) gives the reference result.
   */
  lemma ScanFromPrefix(v: seq<int>, j: int, min: int)
    requires 1 <= j <= |v| && IsFirstMin(v[..j], min)
    ensures ScanFrom(v, j, min) == ScanMin(v)
  {
    ScanFromFirstMin(v, j, min);
    ScanMinIsFirstMin(v);
    FirstMinUnique(v, ScanFrom(v, j, min), ScanMin(v));
  }

  // ---------------------------------------------------------------------
  // The block kernel idmin_kernel_32

  /** A lane's reduction state: a value and the position it came from. */
  datatype Candidate = Candidate(value: int, index: int)

  /**
   * vfchedb followed by vsel on values and indices: keep the left candidate
   * unless the right one is strictly smaller.
   */
  function KeepLeft(a: Candidate, b: Candidate): (r: Candidate)
    ensures r == a || r == b
    ensures r.value <= a.value && r.value <= b.value
    ensures r == b ==> b.value < a.value || a == b
  {
    if b.value >= a.value then a else b
  }

  /**
   * c is the first minimum of s among the positions p of [lo, hi) held by
   * lane l of a two-lane register (p % 2 == l).
   */
  ghost predicate FirstMinOn(s: seq<int>, lo: int, hi: int, l: int, c: Candidate)
  {
    0 <= lo <= c.index < hi <= |s| && c.index % 2 == l && c.value == s[c.index] &&
    (forall p :: lo <= p < hi && p % 2 == l ==> c.value <= s[p]) &&
    (forall p :: lo <= p < c.index && p % 2 == l ==> c.value < s[p])
  }

  /**
   * Keeping the left candidate on ">=" merges the first minima of two ranges
   * that touch or overlap, the left one starting first, into the first
   * minimum of their union.
   */
  lemma KeepLeftMerges(s: seq<int>, lo: int, aHi: int, bLo: int, hi: int, l: int, a: Candidate, b: Candidate)
    requires lo <= bLo <= aHi <= hi
    requires FirstMinOn(s, lo, aHi, l, a) && FirstMinOn(s, bLo, hi, l, b)
    ensures FirstMinOn(s, lo, hi, l, KeepLeft(a, b))
  {
  }

  /** Lane l of vector register k of a 16-element half: element 2k+l, index 2k+l (v24..v31). */
  function Leaf(b: seq<int>, k: int, l: int): (c: Candidate)
    requires 0 <= k < 8 && 0 <= l < 2 && |b| == 16
    ensures FirstMinOn(b, 2 * k, 2 * k + 2, l, c)
  {
    Candidate(b[2 * k + l], 2 * k + l)
  }

  /**
   * The lane tree of one 16-element half for lane l: the eight registers
   * merged 8 -> 4 -> 2 -> 1, each merge keeping the left (earlier) register
   * on ">=" (vfchedb, vsel).
   */
  method LaneTree(b: seq<int>, l: int) returns (t: Candidate)
    requires |b| == 16 && 0 <= l < 2
    ensures FirstMinOn(b, 0, 16, l, t)
  {
    var m0 := KeepLeft(Leaf(b, 0, l), Leaf(b, 1, l));
    var m1 := KeepLeft(Leaf(b, 2, l), Leaf(b, 3, l));
    var m2 := KeepLeft(Leaf(b, 4, l), Leaf(b, 5, l));
    var m3 := KeepLeft(Leaf(b, 6, l), Leaf(b, 7, l));
    KeepLeftMerges(b, 0, 2, 2, 4, l, Leaf(b, 0, l), Leaf(b, 1, l));
    KeepLeftMerges(b, 4, 6, 6, 8, l, Leaf(b, 2, l), Leaf(b, 3, l));
    KeepLeftMerges(b, 8, 10, 10, 12, l, Leaf(b, 4, l), Leaf(b, 5, l));
    KeepLeftMerges(b, 12, 14, 14, 16, l, Leaf(b, 6, l), Leaf(b, 7, l));
    var n0 := KeepLeft(m0, m1);
    var n1 := KeepLeft(m2, m3);
    KeepLeftMerges(b, 0, 4, 4, 8, l, m0, m1);
    KeepLeftMerges(b, 8, 12, 12, 16, l, m2, m3);
    t := KeepLeft(n0, n1);
    KeepLeftMerges(b, 0, 8, 8, 16, l, n0, n1);
  }

  /** Adding the index base of a half-batch moves a first minimum from the half into s. */
  lemma ShiftFirstMin(s: seq<int>, base: int, l: int, t: Candidate)
    requires 0 <= base && base + 16 <= |s| && base % 2 == 0 && 0 <= l < 2
    requires FirstMinOn(s[base..base + 16], 0, 16, l, t)
    ensures FirstMinOn(s, base, base + 16, l, Candidate(t.value, t.index + base))
  {
    var b := s[base..base + 16];
    forall p | base <= p < base + 16 && p % 2 == l
      ensures t.value <= s[p] && (p < t.index + base ==> t.value < s[p])
    {
      assert b[p - base] == s[p];
      assert (p - base) % 2 == l;
    }
    assert b[t.index] == s[t.index + base];
  }

  /** Merging a half-batch's shifted lane winner into the lane accumulator. */
  lemma AbsorbFirstMin(s: seq<int>, base: int, seen: int, hi: int, acc: Candidate, l: int, t: Candidate)
    requires 0 <= base && hi == base + 16 <= |s| && base % 2 == 0 && 0 <= l < 2
    requires base <= seen <= hi
    requires FirstMinOn(s, 0, seen, l, acc) && FirstMinOn(s[base..hi], 0, 16, l, t)
    ensures FirstMinOn(s, 0, hi, l, KeepLeft(acc, Candidate(t.value, t.index + base)))
  {
    ShiftFirstMin(s, base, l, t);
    KeepLeftMerges(s, 0, seen, base, hi, l, acc, Candidate(t.value, t.index + base));
  }

  /**
   * The final lane fold: on equal lane values the smaller index (vmnlg),
   * otherwise the lane with the smaller value.
   */
  function FinalPick(a: Candidate, b: Candidate): (c: Candidate)
    ensures c.value <= a.value && c.value <= b.value
    ensures c == a || c == b
    ensures (a.value == c.value ==> c.index <= a.index) && (b.value == c.value ==> c.index <= b.index)
  {
    if a.value == b.value then Candidate(a.value, if a.index <= b.index then a.index else b.index)
    else if a.value > b.value then b
    else a
  }

  lemma FinalPickFirstMin(s: seq<int>, hi: int, a: Candidate, b: Candidate)
    requires FirstMinOn(s, 0, hi, 0, a) && FirstMinOn(s, 0, hi, 1, b)
    ensures IsFirstMin(s[..hi], FinalPick(a, b).index)
    ensures FinalPick(a, b).value == s[FinalPick(a, b).index]
  {
    var c := FinalPick(a, b);
    forall p | 0 <= p < hi
      ensures c.value <= s[p]
    {
      assert p % 2 == 0 || p % 2 == 1;
    }
    forall p | 0 <= p < c.index
      ensures c.value < s[p]
    {
      assert p % 2 == 0 || p % 2 == 1;
    }
  }

  /**
   * Sixteen elements x[base..base+16] (v16..v23, indices v24..v31): the lane
   * tree of each lane, the index base added to the winner (vag), and the
   * winner merged into the lane accumulator, kept on ">=".
   */
  method Half16(x: seq<int>, base: int, ghost seen: int, acc: seq<Candidate>) returns (r: seq<Candidate>)
    requires 0 <= base && base + 16 <= |x| && base % 2 == 0 && |acc| == 2
    requires base <= seen <= base + 16
    requires FirstMinOn(x, 0, seen, 0, acc[0]) && FirstMinOn(x, 0, seen, 1, acc[1])
    ensures |r| == 2
    ensures FirstMinOn(x, 0, base + 16, 0, r[0]) && FirstMinOn(x, 0, base + 16, 1, r[1])
  {
    var hi := base + 16;
    var t0 := LaneTree(x[base..hi], 0);
    var t1 := LaneTree(x[base..hi], 1);
    AbsorbFirstMin(x, base, seen, hi, acc[0], 0, t0);
    AbsorbFirstMin(x, base, seen, hi, acc[1], 1, t1);
    r := [KeepLeft(acc[0], Candidate(t0.value, t0.index + base)),
          KeepLeft(acc[1], Candidate(t1.value, t1.index + base))];
  }

  /** The body of the kernel loop: the 32 elements at base, as two halves of 16. */
  method Batch32(x: seq<int>, base: int, ghost seen: int, acc: seq<Candidate>) returns (r: seq<Candidate>)
    requires 0 <= base && base + 32 <= |x| && base % 2 == 0 && |acc| == 2
    requires base <= seen <= base + 16
    requires FirstMinOn(x, 0, seen, 0, acc[0]) && FirstMinOn(x, 0, seen, 1, acc[1])
    ensures |r| == 2
    ensures FirstMinOn(x, 0, base + 32, 0, r[0]) && FirstMinOn(x, 0, base + 32, 1, r[1])
  {
    var mid := base + 16;
    r := Half16(x, base, seen, acc);
    r := Half16(x, mid, mid, r);
  }

  method IdMinKernel32(n: int, x: seq<int>) returns (imin: int, minf: int)
    requires 32 <= n <= |x|
    ensures IsFirstMin(x[..n / 32 * 32], imin) && minf == x[imin]
  {
    // v0/v1: the lane accumulators, seeded from x[0..2) with indices 0, 1
    var acc := [Candidate(x[0], 0), Candidate(x[1], 1)];
    var r0 := n / 32;
    var r1 := 0;
    // k blocks done; the accumulators cover the seed x[0..2), then whole blocks
    ghost var k, seen := 0, 2;
    while r0 > 0
      invariant 0 <= k <= n / 32 && r0 == n / 32 - k && r1 == 32 * k
      invariant |acc| == 2 && seen == (if k == 0 then 2 else r1)
      invariant FirstMinOn(x, 0, seen, 0, acc[0]) && FirstMinOn(x, 0, seen, 1, acc[1])
    {
      acc := Batch32(x, r1, seen, acc);
      r1 := r1 + 32;
      r0 := r0 - 1;
      k, seen := k + 1, r1;
    }
    FinalPickFirstMin(x, r1, acc[0], acc[1]);
    var c := FinalPick(acc[0], acc[1]);
    imin, minf := c.index, c.value;
  }

  // ---------------------------------------------------------------------
  // The dispatcher

  /** The unit-stride path: the block kernel on n & -32 elements, then the tail. */
  method UnitStride(n: int, x: seq<int>) returns (r: int)
    requires 0 < n <= |x|
    ensures Spans(|x|, 0, n, 1) && r == ScanMin(View(x, 0, n, 1)) + 1
  {
    ghost var v := x[..n];
    var n1 := AndNeg(n, 32);
    var i, min, minf;
    if n1 > 0 {
      min, minf := IdMinKernel32(n1, x);
      assert v[..n1] == x[..n1];
      ScanFromPrefix(v, n1, min);
      i := n1;
    } else {
      minf := x[0];
      min := 0;
      i := 1;
    }
    while i < n
      invariant 1 <= i <= n && 0 <= min < n
      invariant minf == v[min] && ScanFrom(v, i, min) == ScanMin(v)
    {
      if x[i] < minf {
        min := i;
        minf := x[i];
      }
      i := i + 1;
    }
    ViewUnit(x, 0, n);
    r := min + 1;
  }

  /**
   * One compare-and-update of the strided loops: element j of the vector,
   * read at offset i == j * incX, replaces the running minimum when it is
   * strictly smaller.
   */
  method Consider(x: seq<int>, incX: int, ghost v: seq<int>, i: int, j: int, min: int, minf: int)
    returns (min': int, minf': int)
    requires Gathers(x, 0, incX, v) && 0 <= j < |v| && i == j * incX
    requires 0 <= min < |v| && minf == v[min]
    ensures 0 <= min' < |v| && minf' == v[min']
    ensures ScanFrom(v, j + 1, min') == ScanFrom(v, j, min)
  {
    assert v[j] == x[i];
    min', minf' := min, minf;
    if x[i] < minf {
      min' := j;
      minf' := x[i];
    }
  }

  /** One round of the unrolled loop: elements j .. j+3 at offsets i, i+incX, i+2*incX, i+3*incX. */
  method Round4(x: seq<int>, incX: int, ghost v: seq<int>, i: int, j: int, min: int, minf: int)
    returns (min': int, minf': int)
    requires Gathers(x, 0, incX, v) && 0 <= j && j + 4 <= |v| && i == j * incX
    requires 0 <= min < |v| && minf == v[min]
    ensures 0 <= min' < |v| && minf' == v[min']
    ensures ScanFrom(v, j + 4, min') == ScanFrom(v, j, min)
  {
    StrideAdvance(i, j, incX);
    min', minf' := Consider(x, incX, v, i, j, min, minf);
    min', minf' := Consider(x, incX, v, i + incX, j + 1, min', minf');
    min', minf' := Consider(x, incX, v, i + 2 * incX, j + 2, min', minf');
    min', minf' := Consider(x, incX, v, i + 3 * incX, j + 3, min', minf');
  }

  /**
   * The non-unit-stride path: a 4-way unrolled loop with a running offset
   * i == j * incX up to n & -4, then a single-step remainder loop.
   */
  method StridedLoops(n: int, x: seq<int>, incX: int, ghost v: seq<int>) returns (r: int)
    requires n == |v| > 0 && Gathers(x, 0, incX, v)
    ensures r == ScanMin(v) + 1
  {
    assert v[0] == x[0 + 0 * incX];
    var min := 0;
    var minf := x[0];
    var i, j := 0, 0;
    var n1 := AndNeg(n, 4);
    // q rounds of four done, out of m
    ghost var q, m := 0, n / 4;
    while j < n1
      invariant j == 4 * q && n1 == 4 * m && 0 <= j <= n1 <= n && i == j * incX
      invariant 0 <= min < n && minf == v[min] && ScanFrom(v, j, min) == ScanMin(v)
    {
      StrideAdvance(i, j, incX);
      min, minf := Round4(x, incX, v, i, j, min, minf);
      i := i + incX * 4;
      j := j + 4;
      q := q + 1;
    }
    while j < n
      invariant 0 <= j <= n && i == j * incX
      invariant 0 <= min < n && minf == v[min] && ScanFrom(v, j, min) == ScanMin(v)
    {
      StrideAdvance(i, j, incX);
      min, minf := Consider(x, incX, v, i, j, min, minf);
      i := i + incX;
      j := j + 1;
    }
    r := min + 1;
  }

  method StridedScan(n: int, x: seq<int>, incX: int) returns (r: int)
    requires n > 0 && incX > 0 && Spans(|x|, 0, n, incX)
    ensures r == ScanMin(View(x, 0, n, incX)) + 1
  {
    ViewGathers(x, 0, n, incX);
    r := StridedLoops(n, x, incX, View(x, 0, n, incX));
  }

  method IdMin(n: int, x: array?<int>, incX: int) returns (r: int)
    requires n > 0 && incX > 0 ==> x != null && Spans(x.Length, 0, n, incX)
    ensures n <= 0 || incX <= 0 ==> r == 0
    ensures n > 0 && incX > 0 ==>
      1 <= r <= n && r == ScanMin(View(x[..], 0, n, incX)) + 1 &&
      IsFirstMin(View(x[..], 0, n, incX), r - 1)
  {
    if n <= 0 || incX <= 0 {
      return 0;
    }
    if incX == 1 {
      r := UnitStride(n, x[..]);
    } else {
      r := StridedScan(n, x[..], incX);
    }
    ScanMinIsFirstMin(View(x[..], 0, n, incX));
  }
}
