# OpenBLAS Level-1 kernels for IBM z (idmin, smax, scopy)

This project models three OpenBLAS Level-1 routines for IBM z (zarch) and
proves properties of the models. Each routine is a C dispatcher (`CNAME`)
wrapped around a vector block kernel written in inline assembly.

- **idmin** returns the 1-based position of the first minimum of a strided
  double vector.
  - `idmin_kernel_32` handles blocks of 32 elements. It keeps two lanes of
    (value, index) pairs. A 16-element half goes through a pairwise
    reduction tree that keeps the left operand on ties. The lanes are merged
    at the end.
  - The dispatcher finishes the unit-stride tail one element at a time. For
    any other stride it runs a 4-way unrolled scalar loop with a remainder.
- **smax** returns the largest element of a strided float vector.
  - `smax_kernel_64` handles blocks of 64 elements. Each block goes through
    a halving tree over sixteen 4-lane registers and is folded into a
    running 4-lane maximum. The four lanes are merged at the end.
  - The dispatcher has the same structure as idmin's.
- **scopy** copies a strided vector into another.
  - `scopy_kernel_64` moves 256 bytes (64 elements) per `mvc`.
  - The dispatcher uses the kernel plus a tail loop when both strides are 1,
    and an independent-stride loop otherwise.

The model is imperative, as the source is:

- Each loop is a `method` with a `while` loop and its invariants.
- scopy writes into an `array`.
- A reduction reads a snapshot `x[..]` of its buffer, which it never writes.
- Elements are mathematical integers.

A pointer with a stride is seen through `Views.View(a, base, n, inc)`: element
k is `a[base + k*inc]`. The dispatchers take `array?`, because the C code never
touches `x` or `y` when it returns early.

Every method has a specification function to match:

- **idmin:** `IdMin.ScanMin` is a naive single-step scan. It replaces the
  candidate only on a strictly smaller value, as `x[i] < minf` does.
  `IdMin.IsFirstMin` states what the scan computes: the smallest index among
  the minimal elements.
- **smax:** `SMax.ScanMax` is the naive scan, and `SMax.IsMax` states what it
  computes.
- **scopy:** `SCopy.Stores` is the buffer after the stores of the general
  loop, taken in program order.

The two dispatch paths of each routine are proved against the same function:

- The unit-stride path runs the block kernel, then the tail.
- The strided path runs the 4-way unrolled loop, then the remainder loop.

So the paths agree on every input. For scopy, `SCopy.StoresUnit` shows that
`Stores` with both strides 1 is the plain prefix copy that the unit path
produces.

## Model

| member | source | states |
|---|---|---|
| Views.SpansIndex | kernel/zarch/idmin.c:206-220 | when the first and the last offset of a strided vector lie in the buffer, every offset k*inc with k < n does |
| Views.StrideAdvance | kernel/zarch/idmin.c:223-225 | running offsets: from i == j*inc, the offsets i+inc, i+2*inc, i+3*inc are those of elements j+1..j+3, and i + inc*4 is that of element j+4 |
| Views.ViewAt | kernel/zarch/idmin.c:206-233 | element k of the strided vector is the buffer element at base + k*inc, and that offset is in range |
| Views.ViewUnit | kernel/zarch/idmin.c:189-195 | with stride 1 the vector is the contiguous slice of n elements from base |
| Views.ViewGathers | kernel/zarch/idmin.c:206-233 | the strided vector is gathered from the buffer at base + k*inc, for every k |
| Views.GathersIsView | kernel/zarch/scopy.c:72-79 | any sequence gathered from a buffer at base + k*inc is the strided vector of its length, and its offsets are in range |
| Views.AndNeg | kernel/zarch/idmin.c:176 | `n & -w`, for the block widths used (w = 4, 32, 64), is a multiple of w, at most n, and more than n - w |
| IdMin.FirstMinNotAfter | kernel/zarch/idmin.c:190 | the first minimum is at or before every element that is not larger than it |
| IdMin.FirstMinUnique | kernel/zarch/idmin.c:190 | the first-minimum index is unique |
| IdMin.ScanFromFirstMin | kernel/zarch/idmin.c:189-195 | continuing the single-step scan from the first minimum of a prefix yields the first minimum of the whole vector |
| IdMin.ScanMinIsFirstMin | kernel/zarch/idmin.c:200-237 | the reference scan seeded from element 0 returns the first minimum |
| IdMin.ScanFromPrefix | kernel/zarch/idmin.c:177-195 | tail scanning after a block result that is the first minimum of the prefix equals the single-step scan of the whole vector: unrolled or blocked scanning equals single stepping |
| IdMin.KeepLeft | kernel/zarch/idmin.c:70-75 | vfchedb/vsel keep the left (value, index) pair unless the right value is strictly smaller; the result is one of the pair and no larger than either |
| IdMin.KeepLeftMerges | kernel/zarch/idmin.c:83-92 | keep-left merging of first minima of two adjacent or overlapping ranges of one lane gives the first minimum of their union |
| IdMin.Leaf | kernel/zarch/idmin.c:70-81 | the first tree level (v16 against v17 with indices v24/v25, and so on) gives, per lane, the first minimum of each register pair |
| IdMin.LaneTree | kernel/zarch/idmin.c:70-92 | the three-level tree over eight registers gives, per lane, the first minimum of the 16 loaded elements with its local index |
| IdMin.ShiftFirstMin | kernel/zarch/idmin.c:93 | adding the running block offset (vag v4, v4, v3) turns a local first minimum into a global one |
| IdMin.AbsorbFirstMin | kernel/zarch/idmin.c:95-97 | merging a half's tree into the lane accumulator v0/v1 keeps it the first minimum of everything seen so far |
| IdMin.FinalPick | kernel/zarch/idmin.c:142-155 | the final lane pick returns one of the two lane candidates with the smaller value; on equal values it takes the smaller index |
| IdMin.FinalPickFirstMin | kernel/zarch/idmin.c:142-155 | the final lane pick (equal values: smaller index via vmnlg; otherwise the smaller value) is the first minimum of the processed prefix, and its value is the element there |
| IdMin.Half16 | kernel/zarch/idmin.c:61-98 | one half-batch of 16 elements leaves both lane accumulators the first minima of their lanes up to base + 16 |
| IdMin.Batch32 | kernel/zarch/idmin.c:61-138 | one loop iteration of 32 elements extends the lane first minima by 32 elements |
| IdMin.IdMinKernel32 | kernel/zarch/idmin.c:30-164 | idmin_kernel_32 returns the first minimum of x[0..n/32*32) and the value there |
| IdMin.UnitStride | kernel/zarch/idmin.c:174-196 | the unit-stride path (kernel on n & -32, or seed x[0], then the tail) returns the reference scan's index plus one |
| IdMin.Consider | kernel/zarch/idmin.c:206-209 | one compare at offset i == j*incX advances the reference scan by one element |
| IdMin.Round4 | kernel/zarch/idmin.c:204-226 | one unrolled round of four compares advances the reference scan by four elements |
| IdMin.StridedLoops | kernel/zarch/idmin.c:198-239 | the unrolled loop up to n & -4 and the remainder loop together return the reference scan's index plus one |
| IdMin.StridedScan | kernel/zarch/idmin.c:198-239 | the strided path on a buffer returns the reference scan of its strided vector plus one |
| IdMin.IdMin | kernel/zarch/idmin.c:166-240 | 0 when n <= 0 or inc_x <= 0; otherwise a 1-based index in [1, n], equal on both paths to the reference scan plus one, and at that index is the first minimum |
| SMax.MaxUnique | kernel/zarch/smax.c:119 | the maximum of a vector is unique |
| SMax.Max2 | kernel/zarch/smax.c:58 | the lane maximum is at least both operands and is one of them |
| SMax.ScanMaxFrom | kernel/zarch/smax.c:118-123 | the running maximum never decreases |
| SMax.ScanMaxFromIsMax | kernel/zarch/smax.c:118-123 | continuing the scan from the maximum of a prefix gives the maximum of the whole vector |
| SMax.ScanMaxIsMax | kernel/zarch/smax.c:128-159 | the reference scan seeded from element 0 returns the maximum |
| SMax.ScanMaxFromPrefix | kernel/zarch/smax.c:106-123 | tail scanning after a block result that is the maximum of the prefix equals the single-step scan: blocked or unrolled scanning equals single stepping |
| SMax.VMax | kernel/zarch/smax.c:77 | vfmaxsb: each result lane is at least both operand lanes and equals one of them |
| SMax.Halve | kernel/zarch/smax.c:58-75 | one tree level pairs register k with register k + R/2: each surviving lane is at least both merged lanes and equals one of them |
| SMax.HalveWitness | kernel/zarch/smax.c:58-75 | the winner of a merged position comes from a lane element that folds onto that position |
| SMax.HalveWitnesses | kernel/zarch/smax.c:58-75 | after a tree level every lane still holds an element of its own lane of the block |
| SMax.HalveBounds | kernel/zarch/smax.c:58-75 | after a tree level (register k with k + R/2) every element is still bounded by its lane in the surviving registers |
| SMax.HalveCovers | kernel/zarch/smax.c:58-75 | a tree level keeps the lane summary: every lane is the maximum of the block elements that fold onto it |
| SMax.CoversLoad | kernel/zarch/smax.c:41-56 | the sixteen loaded registers summarise their 64 elements: each position is its own element |
| SMax.BlockTree | kernel/zarch/smax.c:41-75 | the tree leaves in lane l of v16 the maximum of the block elements in lane l, held by an element of that lane |
| SMax.SameLane | kernel/zarch/smax.c:79 | advancing by whole registers keeps an element in its lane |
| SMax.AbsorbBounds | kernel/zarch/smax.c:77 | after vfmaxsb v0, v0, v16 every element seen is bounded by its lane of v0 |
| SMax.AbsorbBlock | kernel/zarch/smax.c:77 | merging the block's tree into v0 keeps lane l of v0 the maximum of the elements seen in lane l, held by one of them |
| SMax.FinalMax | kernel/zarch/smax.c:82-86 | the veslg/vfmaxsb, vrepf/wfmaxsb fold returns the largest of the four lanes |
| SMax.FinalMaxIsMax | kernel/zarch/smax.c:82-87 | the fold veslg/vfmaxsb, then vrepf/wfmaxsb, of a lane summary is the maximum of the processed prefix |
| SMax.Block64 | kernel/zarch/smax.c:39-80 | one loop iteration extends the lane summary by 64 elements |
| SMax.SMaxKernel64 | kernel/zarch/smax.c:30-94 | smax_kernel_64 returns the maximum of x[0..n/64*64) |
| SMax.UnitStride | kernel/zarch/smax.c:103-124 | the unit-stride path (kernel on n & -64, or seed x[0], then the tail) returns the reference scan |
| SMax.Consider | kernel/zarch/smax.c:133-135 | one compare at offset i == j*incX advances the reference scan by one element |
| SMax.Round4 | kernel/zarch/smax.c:131-149 | one unrolled round of four compares advances the reference scan by four elements |
| SMax.StridedLoops | kernel/zarch/smax.c:126-160 | the unrolled loop up to n & -4 and the remainder loop together return the reference scan |
| SMax.StridedScan | kernel/zarch/smax.c:126-160 | the strided path on a buffer returns the reference scan of its strided vector |
| SMax.SMax | kernel/zarch/smax.c:96-162 | 0 when n <= 0 or inc_x <= 0; otherwise the reference scan on both paths, which is the maximum of the strided vector |
| SCopy.MulCancel | kernel/zarch/scopy.c:74 | with a non-zero stride distinct elements are stored at distinct offsets |
| SCopy.StoresUntouched | kernel/zarch/scopy.c:72-79 | nothing else changes: an offset of y that is not k*inc_y for some k < n keeps its old value |
| SCopy.StoresAt | kernel/zarch/scopy.c:72-79 | with inc_y != 0, y[k*inc_y] ends as x[k*inc_x] for every k < n |
| SCopy.StoresCopies | kernel/zarch/scopy.c:72-79 | with inc_y != 0, the strided vector read back from y equals the strided vector of x |
| SCopy.StoresLastWins | kernel/zarch/scopy.c:74-76 | with inc_y == 0 every store hits y[0], which ends as the last source element |
| SCopy.StoresUnit | kernel/zarch/scopy.c:55-68 | with both strides 1 the stores give x[0..n) followed by y's old elements from n on |
| SCopy.StoresStep | kernel/zarch/scopy.c:74 | one more store reads element i of x at i*inc_x and writes it at i*inc_y |
| SCopy.SCopyKernel64 | kernel/zarch/scopy.c:30-47 | scopy_kernel_64 copies exactly x[0..n/64*64) to y and leaves the rest of y |
| SCopy.UnitStride | kernel/zarch/scopy.c:55-68 | the unit-stride path (kernel on n & -64, then the tail) leaves y[0..n) == x[0..n), and the rest of y unchanged, for every n |
| SCopy.StridedCopy | kernel/zarch/scopy.c:72-79 | the general loop with ix == i*inc_x and iy == i*inc_y leaves y as the in-order stores |
| SCopy.SCopy | kernel/zarch/scopy.c:49-85 | always returns 0; y unchanged when n <= 0; otherwise y is the in-order stores on both paths, and with inc_y != 0 it holds x's strided vector |

## Left out

- Floating point. Elements are integers. The model leaves out:
  - NaN, where a false NaN compare in `vfchedb` lets a NaN lane win a select;
  - signed zero and the mode-0 semantics of `vfmaxsb`;
  - the `wfcdb`/`wfchdb` behaviour on unordered operands.
- Prefetch (`pfd`), register allocation and the clobber lists: none of them
  affects results.
- `BLASLONG` width. Offsets such as `k*inc_x`, the 1-based result and the
  pointer advances are unbounded integers, so overflow is not modelled.
- Block size of the kernels. The kernels are called only with n1 = n & -w,
  which is at least w. Their loop count `n >> 6` (or `>> 5`) is modelled as
  n / w. The kernels' contracts require n >= w: with a zero count `brctg`
  would wrap around.
- idmin_kernel_32: the minimum value is stored through its `min` pointer
  argument. It is modelled as a second return value.
- Pointers. Each pointer is the start of its buffer, so offsets below 0
  fall outside it. A negative stride is reachable only in scopy, and there
  only with n == 1. idmin and smax return early on `inc_x <= 0`.
- Views.AndNeg: the bit clearing `n & -w` is modelled by its arithmetic
  meaning `(n / w) * w`, and the function accepts any w > 0. The
  bit-level identity is not proved; it holds for the power-of-two w the
  dispatchers use.
- Aliasing. SCopy requires x and y to be distinct buffers. Overlapping
  operands, including `mvc`'s byte-by-byte semantics, are not modelled.
- None of the three routines reads a clock or performs I/O. The benchmark
  driver `benchmark/axpy.c` is not part of this model: it is a timing
  harness, and the `AXPY` routine it times is not one of the three routines
  modelled here.
