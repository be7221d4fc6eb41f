/**
 * smax for IBM z: the largest element of a strided vector. A 64-wide block
 * kernel keeps a running maximum in the four lanes of one vector register;
 * the dispatcher finishes the tail and runs a 4-way unrolled scalar loop for
 * non-unit strides. Elements are integers.
 */
module SMax {
  import opened Views

  /** m is the largest element of s. */
  ghost predicate IsMax(s: seq<int>, m: int)
  {
    (forall i :: 0 <= i < |s| ==> s[i] <= m) && m in s
  }

  /** The largest element is unique. */
  lemma MaxUnique(s: seq<int>, a: int, b: int)
    requires IsMax(s, a) && IsMax(s, b)
    ensures a == b
  {
    var i :| 0 <= i < |s| && s[i] == a;
    var j :| 0 <= j < |s| && s[j] == b;
  }

  /** The larger of two values (vfmaxsb on one lane, `x[i] > maxf` on scalars). */
  function Max2(a: int, b: int): (m: int)
    ensures a <= m && b <= m && (m == a || m == b)
  {
    if b > a then b else a
  }

  /**
   * The scalar scan: from state (j, m) to the end of v, replacing m by a
   * later element only when that element is strictly larger.
   */
  function ScanMaxFrom(v: seq<int>, j: int, m: int): (r: int)
    requires 0 <= j <= |v|
    ensures m <= r
    decreases |v| - j
  {
    if j == |v| then m else ScanMaxFrom(v, j + 1, if v[j] > m then v[j] else m)
  }

  /** The reference: a naive single-step left-to-right scan seeded from v[0]. */
  function ScanMax(v: seq<int>): (m: int)
    requires |v| > 0
  {
    ScanMaxFrom(v, 1, v[0])
  }

  /** Continuing the scan from the maximum of a prefix ends at the maximum of v. */
  lemma {:induction false} ScanMaxFromIsMax(v: seq<int>, j: int, m: int)
    requires 1 <= j <= |v| && IsMax(v[..j], m)
    ensures IsMax(v, ScanMaxFrom(v, j, m))
    decreases |v| - j
  {
    if j == |v| {
      assert v[..j] == v;
    } else {
      var next := if v[j] > m then v[j] else m;
      assert IsMax(v[..j + 1], next) by {
        assert v[..j + 1] == v[..j] + [v[j]];
      }
      ScanMaxFromIsMax(v, j + 1, next);
    }
  }

  lemma ScanMaxIsMax(v: seq<int>)
    requires |v| > 0
    ensures IsMax(v, ScanMax(v))
  {
    assert v[..1] == [v[0]];
    ScanMaxFromIsMax(v, 1, v[0]);
  }

  /**
   * Seeding the scalar scan at j with the maximum of v[..j] (what the block
   * kernel delivers) gives the reference result.
   */
  lemma ScanMaxFromPrefix(v: seq<int>, j: int, m: int)
    requires 1 <= j <= |v| && IsMax(v[..j], m)
    ensures ScanMaxFrom(v, j, m) == ScanMax(v)
  {
    ScanMaxFromIsMax(v, j, m);
    ScanMaxIsMax(v);
    MaxUnique(v, ScanMaxFrom(v, j, m), ScanMax(v));
  }

  // ---------------------------------------------------------------------
  // The block kernel smax_kernel_64

  /** A vector register holding four single-precision lanes. */
  type Register = r: seq<int> | |r| == 4 witness [0, 0, 0, 0]

  /** vfmaxsb: the lane-wise maximum of two registers. */
  function VMax(a: Register, b: Register): (r: Register)
    ensures forall l :: 0 <= l < 4 ==> a[l] <= r[l] && b[l] <= r[l] && (r[l] == a[l] || r[l] == b[l])
  {
    [Max2(a[0], b[0]), Max2(a[1], b[1]), Max2(a[2], b[2]), Max2(a[3], b[3])]
  }

  /**
   * Registers laid out flat, lane l of register k at position 4k + l, hold
   * a lane-wise summary of x[lo..hi): position j holds the maximum of the
   * elements x[i] that fold onto it, those with (i - lo) % |h| == j (the
   * same lane, as |h| is a multiple of 4). Every x[i] is at most the
   * position it folds onto, and position j holds x[w[j]], an element that
   * folds onto j.
   */
  ghost predicate Covers(x: seq<int>, lo: int, hi: int, h: seq<int>, w: seq<int>)
  {
    0 <= lo <= hi <= |x| && |h| > 0 && |w| == |h| &&
    (forall i :: lo <= i < hi ==> x[i] <= h[(i - lo) % |h|]) &&
    (forall j {:trigger w[j]} :: 0 <= j < |w| ==>
      lo <= w[j] < hi && (w[j] - lo) % |h| == j && x[w[j]] == h[j])
  }

  /**
   * One level of the reduction tree: merging register k with register
   * k + R/2 (R registers) is, on the flat layout, merging position i with
   * position i + |s|/2.
   */
  function Halve(s: seq<int>): (h: seq<int>)
    requires |s| % 2 == 0
    ensures |h| == |s| / 2
    ensures forall i :: 0 <= i < |h| ==>
      s[i] <= h[i] && s[i + |h|] <= h[i] && (h[i] == s[i] || h[i] == s[i + |h|])
  {
    seq(|s| / 2, i requires 0 <= i < |s| / 2 => Max2(s[i], s[i + |s| / 2]))
  }

  /** The lane bounds survive a tree level. */
  lemma HalveBounds(x: seq<int>, lo: int, hi: int, s: seq<int>)
    requires 0 <= lo <= hi <= |x| && |s| % 2 == 0 && |s| > 0
    requires forall i :: lo <= i < hi ==> x[i] <= s[(i - lo) % |s|]
    ensures forall i :: lo <= i < hi ==> x[i] <= Halve(s)[(i - lo) % (|s| / 2)]
  {
    var h, half := Halve(s), |s| / 2;
    forall i | lo <= i < hi
      ensures x[i] <= h[(i - lo) % half]
    {
      var d := i - lo;
      ModHalf(d, half, |s|);
      var j := d % |s|;
      if j < half {
        assert x[i] <= s[j] <= h[j];
      } else {
        assert x[i] <= s[(j - half) + half] <= h[j - half];
      }
    }
  }

  /**
   * Position j of a tree level merged positions j and j + |s|/2; whichever
   * wins, its witness folds onto j.
   */
  lemma HalveWitness(x: seq<int>, lo: int, hi: int, s: seq<int>, w: seq<int>, j: int, k: int)
    requires 0 <= lo <= hi <= |x| && |s| % 2 == 0 && |w| == |s| && 0 <= j < |s| / 2
    requires lo <= w[j] < hi && (w[j] - lo) % |s| == j && x[w[j]] == s[j]
    requires lo <= w[j + |s| / 2] < hi && (w[j + |s| / 2] - lo) % |s| == j + |s| / 2
    requires x[w[j + |s| / 2]] == s[j + |s| / 2]
    requires k == if Halve(s)[j] == s[j] then w[j] else w[j + |s| / 2]
    ensures lo <= k < hi && (k - lo) % (|s| / 2) == j && x[k] == Halve(s)[j]
  {
    ModHalf(w[j] - lo, |s| / 2, |s|);
    ModHalf(w[j + |s| / 2] - lo, |s| / 2, |s|);
  }

  /** The witnesses of a tree level: the winning position's witness, which folds onto j. */
  lemma HalveWitnesses(x: seq<int>, lo: int, hi: int, s: seq<int>, w: seq<int>) returns (w': seq<int>)
    requires 0 <= lo <= hi <= |x| && |s| % 2 == 0 && |w| == |s|
    requires forall j {:trigger w[j]} :: 0 <= j < |w| ==>
      lo <= w[j] < hi && (w[j] - lo) % |s| == j && x[w[j]] == s[j]
    ensures |w'| == |s| / 2
    ensures forall j {:trigger w'[j]} :: 0 <= j < |w'| ==>
      lo <= w'[j] < hi && (w'[j] - lo) % (|s| / 2) == j && x[w'[j]] == Halve(s)[j]
  {
    var h, half := Halve(s), |s| / 2;
    w' := seq(half, j requires 0 <= j < half => if h[j] == s[j] then w[j] else w[j + half]);
    forall j | 0 <= j < half
      ensures lo <= w'[j] < hi && (w'[j] - lo) % half == j && x[w'[j]] == h[j]
    {
      // the witnesses of the two merged positions
      assert lo <= w[j] < hi && (w[j] - lo) % |s| == j && x[w[j]] == s[j];
      assert lo <= w[j + half] < hi && (w[j + half] - lo) % |s| == j + half;
      HalveWitness(x, lo, hi, s, w, j, w'[j]);
    }
  }

  /** A tree level keeps the summary; w' says where each maximum came from. */
  lemma HalveCovers(x: seq<int>, lo: int, hi: int, s: seq<int>, w: seq<int>) returns (w': seq<int>)
    requires |s| % 2 == 0 && Covers(x, lo, hi, s, w)
    ensures Covers(x, lo, hi, Halve(s), w')
  {
    HalveBounds(x, lo, hi, s);
    w' := HalveWitnesses(x, lo, hi, s, w);
  }

  /** The registers loaded straight from x[lo..hi) summarise it. */
  lemma CoversLoad(x: seq<int>, lo: int, hi: int) returns (w: seq<int>)
    requires 0 <= lo < hi <= |x|
    ensures Covers(x, lo, hi, x[lo..hi], w)
  {
    forall i | lo <= i < hi
      ensures x[i] <= x[lo..hi][(i - lo) % (hi - lo)]
    {
      DivModUnique(i - lo, hi - lo, 0, i - lo);
    }
    w := seq(hi - lo, j => lo + j);
    forall j | 0 <= j < |w|
      ensures lo <= w[j] < hi && (w[j] - lo) % (hi - lo) == j && x[w[j]] == x[lo..hi][j]
    {
      DivModUnique(j, hi - lo, 0, j);
    }
  }

  /**
   * The reduction tree of one block, held flat as v16..v31: v16..v23 with
   * v24..v31, then v16..v19 with v20..v23, then v16, v17 with v18, v19, then
   * v16 with v17, leaving one register whose lane l is the maximum of the
   * block's elements in lane l.
   */
  method BlockTree(x: seq<int>, base: int, hi: int) returns (t: Register, ghost w: seq<int>)
    requires 0 <= base && hi == base + 64 <= |x|
    ensures Covers(x, base, hi, t, w)
  {
    var r16 := x[base..hi];
    w := CoversLoad(x, base, hi);
    var r8 := Halve(r16);
    w := HalveCovers(x, base, hi, r16, w);
    var r4 := Halve(r8);
    w := HalveCovers(x, base, hi, r8, w);
    var r2 := Halve(r4);
    w := HalveCovers(x, base, hi, r4, w);
    t := Halve(r2);
    w := HalveCovers(x, base, hi, r2, w);
  }

  /** Position p of a block starting at a multiple of 4 keeps its lane. */
  lemma SameLane(p: int, base: int)
    requires base % 4 == 0
    ensures (p - base) % 4 == p % 4
  {
    var q := base / 4;
    assert base == 4 * q;
  }

  /** The lane bounds after vfmaxsb v0, v0, v16. */
  lemma AbsorbBounds(x: seq<int>, base: int, seen: int, hi: int, acc: Register, t: Register)
    requires 0 <= base && hi == base + 64 <= |x| && base % 4 == 0 && base <= seen <= hi
    requires forall p :: 0 <= p < seen ==> x[p] <= acc[(p - 0) % 4]
    requires forall p :: base <= p < hi ==> x[p] <= t[(p - base) % 4]
    ensures forall p :: 0 <= p < hi ==> x[p] <= VMax(acc, t)[(p - 0) % 4]
  {
    var r := VMax(acc, t);
    forall p | 0 <= p < hi
      ensures x[p] <= r[(p - 0) % 4]
    {
      var l := p % 4;
      assert acc[l] <= r[l] && t[l] <= r[l];
      if p >= seen {
        SameLane(p, base);
      }
    }
  }

  /** Merging a block's tree into the accumulator (vfmaxsb v0, v0, v16). */
  lemma AbsorbBlock(x: seq<int>, base: int, seen: int, hi: int, acc: Register, wa: seq<int>,
                    t: Register, wt: seq<int>) returns (w: seq<int>)
    requires hi == base + 64 && base % 4 == 0 && base <= seen <= hi
    requires Covers(x, 0, seen, acc, wa) && Covers(x, base, hi, t, wt)
    ensures Covers(x, 0, hi, VMax(acc, t), w)
  {
    var r := VMax(acc, t);
    AbsorbBounds(x, base, seen, hi, acc, t);
    w := seq(4, l requires 0 <= l < 4 => if r[l] == acc[l] then wa[l] else wt[l]);
    forall l | 0 <= l < 4
      ensures 0 <= w[l] < hi && (w[l] - 0) % 4 == l && x[w[l]] == r[l]
    {
      // lane l of v0 comes from lane l of the accumulator or of the block
      assert 0 <= wa[l] < seen && (wa[l] - 0) % 4 == l && x[wa[l]] == acc[l];
      assert base <= wt[l] < hi && (wt[l] - base) % 4 == l && x[wt[l]] == t[l];
      SameLane(wt[l], base);
    }
  }

  /**
   * The final fold: veslg/vfmaxsb merge lanes 0 with 1 and 2 with 3, vrepf
   * and wfmaxsb merge the two results.
   */
  function FinalMax(a: Register): (m: int)
    ensures a[0] <= m && a[1] <= m && a[2] <= m && a[3] <= m
    ensures m == a[0] || m == a[1] || m == a[2] || m == a[3]
  {
    Max2(Max2(a[0], a[1]), Max2(a[2], a[3]))
  }

  lemma FinalMaxIsMax(x: seq<int>, hi: int, a: Register, w: seq<int>)
    requires Covers(x, 0, hi, a, w)
    ensures IsMax(x[..hi], FinalMax(a))
  {
    var m := FinalMax(a);
    forall p | 0 <= p < hi
      ensures x[..hi][p] <= m
    {
      var l := (p - 0) % 4;
      assert x[p] <= a[l];
      assert l == 0 || l == 1 || l == 2 || l == 3;
    }
    assert m in x[..hi] by {
      assert x[..hi][w[0]] == a[0] && x[..hi][w[1]] == a[1];
      assert x[..hi][w[2]] == a[2] && x[..hi][w[3]] == a[3];
    }
  }

  /** The body of the kernel loop: the 64 elements at base through the tree into v0. */
  method Block64(x: seq<int>, base: int, ghost seen: int, acc: Register, ghost wa: seq<int>)
    returns (r: Register, ghost w: seq<int>)
    requires 0 <= base && base + 64 <= |x| && base % 4 == 0 && base <= seen <= base + 64
    requires Covers(x, 0, seen, acc, wa)
    ensures Covers(x, 0, base + 64, r, w)
  {
    var hi := base + 64;
    var t, wt := BlockTree(x, base, hi);
    w := AbsorbBlock(x, base, seen, hi, acc, wa, t, wt);
    r := VMax(acc, t);
  }

  method SMaxKernel64(n: int, x: seq<int>) returns (max: int)
    requires 64 <= n <= |x|
    ensures IsMax(x[..n / 64 * 64], max)
  {
    // v0: the lane accumulator, seeded from x[0..4)
    var acc: Register := x[..4];
    ghost var w := CoversLoad(x, 0, 4);
    var r0 := n / 64;
    var r1 := 0;
    // k blocks done; the accumulator covers the seed x[0..4), then whole blocks
    ghost var k, seen := 0, 4;
    while r0 > 0
      invariant 0 <= k <= n / 64 && r0 == n / 64 - k && r1 == 64 * k
      invariant seen == (if k == 0 then 4 else r1) && Covers(x, 0, seen, acc, w)
    {
      acc, w := Block64(x, r1, seen, acc, w);
      r1 := r1 + 64;
      r0 := r0 - 1;
      k, seen := k + 1, r1;
    }
    assert r1 == n / 64 * 64;
    FinalMaxIsMax(x, r1, acc, w);
    max := FinalMax(acc);
  }

  // ---------------------------------------------------------------------
  // The dispatcher

  /** The unit-stride path: the block kernel on n & -64 elements, then the tail. */
  method UnitStride(n: int, x: seq<int>) returns (maxf: int)
    requires 0 < n <= |x|
    ensures Spans(|x|, 0, n, 1) && maxf == ScanMax(View(x, 0, n, 1))
  {
    ghost var v := x[..n];
    var n1 := AndNeg(n, 64);
    var i;
    if n1 > 0 {
      maxf := SMaxKernel64(n1, x);
      assert v[..n1] == x[..n1];
      ScanMaxFromPrefix(v, n1, maxf);
      i := n1;
    } else {
      maxf := x[0];
      i := 1;
    }
    while i < n
      invariant 1 <= i <= n && ScanMaxFrom(v, i, maxf) == ScanMax(v)
    {
      if x[i] > maxf {
        maxf := x[i];
      }
      i := i + 1;
    }
    ViewUnit(x, 0, n);
  }

  /**
   * One compare-and-update of the strided loops: element j of the vector,
   * read at offset i == j * incX, replaces the running maximum when it is
   * strictly larger.
   */
  method Consider(x: seq<int>, incX: int, ghost v: seq<int>, i: int, j: int, maxf: int)
    returns (maxf': int)
    requires Gathers(x, 0, incX, v) && 0 <= j < |v| && i == j * incX
    ensures ScanMaxFrom(v, j + 1, maxf') == ScanMaxFrom(v, j, maxf)
  {
    assert v[j] == x[i];
    maxf' := maxf;
    if x[i] > maxf {
      maxf' := x[i];
    }
  }

  /** One round of the unrolled loop: elements j .. j+3 at offsets i, i+incX, i+2*incX, i+3*incX. */
  method Round4(x: seq<int>, incX: int, ghost v: seq<int>, i: int, j: int, maxf: int)
    returns (maxf': int)
    requires Gathers(x, 0, incX, v) && 0 <= j && j + 4 <= |v| && i == j * incX
    ensures ScanMaxFrom(v, j + 4, maxf') == ScanMaxFrom(v, j, maxf)
  {
    StrideAdvance(i, j, incX);
    maxf' := Consider(x, incX, v, i, j, maxf);
    maxf' := Consider(x, incX, v, i + incX, j + 1, maxf');
    maxf' := Consider(x, incX, v, i + 2 * incX, j + 2, maxf');
    maxf' := Consider(x, incX, v, i + 3 * incX, j + 3, maxf');
  }

  /**
   * The non-unit-stride path: a 4-way unrolled loop with a running offset
   * i == j * incX up to n & -4, then a single-step remainder loop.
   */
  method StridedLoops(n: int, x: seq<int>, incX: int, ghost v: seq<int>) returns (maxf: int)
    requires n == |v| > 0 && Gathers(x, 0, incX, v)
    ensures maxf == ScanMax(v)
  {
    assert v[0] == x[0 + 0 * incX];
    maxf := x[0];
    var i, j := 0, 0;
    var n1 := AndNeg(n, 4);
    // q rounds of four done, out of m
    ghost var q, m := 0, n / 4;
    while j < n1
      invariant j == 4 * q && n1 == 4 * m && 0 <= j <= n1 <= n && i == j * incX
      invariant ScanMaxFrom(v, j, maxf) == ScanMax(v)
    {
      StrideAdvance(i, j, incX);
      maxf := Round4(x, incX, v, i, j, maxf);
      i := i + incX * 4;
      j := j + 4;
      q := q + 1;
    }
    while j < n
      invariant 0 <= j <= n && i == j * incX
      invariant ScanMaxFrom(v, j, maxf) == ScanMax(v)
    {
      StrideAdvance(i, j, incX);
      maxf := Consider(x, incX, v, i, j, maxf);
      i := i + incX;
      j := j + 1;
    }
  }

  method StridedScan(n: int, x: seq<int>, incX: int) returns (maxf: int)
    requires n > 0 && incX > 0 && Spans(|x|, 0, n, incX)
    ensures maxf == ScanMax(View(x, 0, n, incX))
  {
    ViewGathers(x, 0, n, incX);
    maxf := StridedLoops(n, x, incX, View(x, 0, n, incX));
  }

  method SMax(n: int, x: array?<int>, incX: int) returns (maxf: int)
    requires n > 0 && incX > 0 ==> x != null && Spans(x.Length, 0, n, incX)
    ensures n <= 0 || incX <= 0 ==> maxf == 0
    ensures n > 0 && incX > 0 ==>
      maxf == ScanMax(View(x[..], 0, n, incX)) && IsMax(View(x[..], 0, n, incX), maxf)
  {
    if n <= 0 || incX <= 0 {
      return 0;
    }
    if incX == 1 {
      maxf := UnitStride(n, x[..]);
    } else {
      maxf := StridedScan(n, x[..], incX);
    }
    ScanMaxIsMax(View(x[..], 0, n, incX));
  }
}
