/** The quadratic probe over groups of slots (common/raw_hashtable.h:879-969).

    `GroupAt` is the group number reached after `j` steps, in closed form. The
    class `ProbeSequence` computes the same walk incrementally with masks. The
    main results: over a power-of-two number of groups the first `groups` steps
    visit every group exactly once, and so does any odd stride. */
module Probe {
  import opened Bits

  function Triangle(j: nat): nat {
    if j == 0 then 0 else Triangle(j - 1) + j
  }

  lemma {:induction false} TriangleClosed(j: nat)
    ensures 2 * Triangle(j) == j * (j + 1) && Triangle(j) == (j + j * j) / 2
  {
    if j == 0 {
    } else {
      TriangleClosed(j - 1);
      assert (j - 1) * j + 2 * j == j * (j + 1);
    }
    assert j * (j + 1) == j + j * j;
  }

  // The group number after j steps from hash index `start`, among `groups` groups.
  function GroupAt(start: nat, groups: nat, j: nat): (r: nat)
    requires groups > 0
    ensures r < groups
  {
    (start + Triangle(j)) % groups
  }

  // The formula the source gives for the probe, scaled to whole groups.
  lemma GroupAtClosed(start: nat, groups: nat, j: nat)
    requires groups > 0
    ensures GroupAt(start, groups, j) == (start + (j + j * j) / 2) % groups
  {
    TriangleClosed(j);
  }

  // --- Number theory: odd numbers are units modulo a power of two ---

  // m divides a * b and a is odd: m divides b.
  lemma {:induction false} OddFactorCancels(a: nat, b: nat, m: nat, k: nat) returns (c: nat)
    requires IsPow2(m) && a % 2 == 1 && a * b == m * k
    ensures b == m * c
  {
    if m == 1 {
      c := b;
    } else {
      var h, d := m / 2, b / 2;
      HalveProduct(m, h, k, a * b);
      HalveOddProduct(a, b, d);
      c := OddFactorCancels(a, d, h, k);
      HalveProduct(m, h, c, m * c);
    }
  }

  lemma HalveOddProduct(a: nat, b: nat, d: nat)
    requires a % 2 == 1 && (a * b) % 2 == 0 && d == b / 2
    ensures b == 2 * d && (a * b) / 2 == a * d
  {
    if b % 2 == 1 { OddTimesOdd(a, b); }
    HalveProduct(b, d, a, b * a);
    assert a * d == d * a;
  }

  lemma OddTimesOdd(a: nat, b: nat)
    requires a % 2 == 1 && b % 2 == 1
    ensures (a * b) % 2 == 1
  {
    var x, y := a / 2, b / 2;
    assert a * b == 2 * (2 * (x * y) + x + y) + 1;
  }

  lemma SameModDivides(x: nat, y: nat, m: nat) returns (k: nat)
    requires m > 0 && x <= y && x % m == y % m
    ensures y - x == m * k
  {
    var d := y / m - x / m;
    assert y - x == d * m;
    MulAtLeast(d, m);
    k := d;
  }

  lemma MultipleTooSmall(b: nat, m: nat, c: nat)
    requires 0 < b < m
    ensures b != m * c
  {}

  // Triangular numbers below n differ modulo a power of two n: twice their gap is
  // (j - i)(i + j + 1), one factor of which is odd and the other too small.
  lemma TriangleGapNotMultiple(i: nat, j: nat, n: nat, k: nat)
    requires IsPow2(n) && i < j < n
    ensures Triangle(j) - Triangle(i) != n * k
  {
    hide Triangle, IsPow2;
    TwiceTriangleGap(i, j);
    OddPair(i, j);
    GapNotMultiple(Triangle(j) - Triangle(i), j - i, i + j + 1, n, k);
  }

  lemma OddPair(i: nat, j: nat)
    requires i < j
    ensures (j - i) % 2 != (i + j + 1) % 2
  {}

  lemma GapNotMultiple(gap: int, a: nat, b: nat, n: nat, k: nat)
    requires IsPow2(n) && 2 * gap == a * b
    requires a % 2 != b % 2 && 0 < a < 2 * n && 0 < b < 2 * n
    ensures gap != n * k
  {
    if gap == n * k {
      Pow2Double(n);
      ProductNotMultiple(a, b, 2 * n, k);
      HalveProduct(2 * n, n, k, 2 * n * k);
    }
  }

  lemma Pow2Double(n: nat)
    requires IsPow2(n)
    ensures IsPow2(2 * n)
  {}

  lemma ProductNotMultiple(a: nat, b: nat, m: nat, k: nat)
    requires IsPow2(m) && a % 2 != b % 2 && 0 < a < m && 0 < b < m
    ensures a * b != m * k
  {
    if a % 2 == 1 {
      OddFactorTooSmall(a, b, m, k);
    } else {
      OddFactorTooSmall(b, a, m, k);
      Commute(a, b);
    }
  }

  lemma Commute(a: nat, b: nat)
    ensures a * b == b * a
  {}

  lemma OddFactorTooSmall(a: nat, b: nat, m: nat, k: nat)
    requires IsPow2(m) && a % 2 == 1 && 0 < b < m
    ensures a * b != m * k
  {
    if a * b == m * k {
      var c := OddFactorCancels(a, b, m, k);
      MultipleTooSmall(b, m, c);
    }
  }

  lemma TwiceTriangleGap(i: nat, j: nat)
    requires i < j
    ensures 2 * (Triangle(j) - Triangle(i)) == (j - i) * (i + j + 1)
  {}

  lemma {:induction false} TriangleMonotone(i: nat, j: nat)
    requires i <= j
    ensures Triangle(i) <= Triangle(j)
  {
    if i >= j {
    } else {
      TriangleMonotone(i, j - 1);
    }
  }

  // No group is visited twice.
  lemma ProbeDistinct(start: nat, groups: nat, i: nat, j: nat)
    requires IsPow2(groups) && i < j < groups
    ensures GroupAt(start, groups, i) != GroupAt(start, groups, j)
  {
    if GroupAt(start, groups, i) == GroupAt(start, groups, j) {
      TriangleMonotone(i, j);
      var k := SameModDivides(start + Triangle(i), start + Triangle(j), groups);
      TriangleGapNotMultiple(i, j, groups, k);
    }
  }

  // --- Counting: an injection of [0, n) into itself is onto ---

  // The values of the first k arguments.
  ghost function Image(f: nat -> nat, k: nat): set<nat> {
    if k == 0 then {} else Image(f, k - 1) + {f(k - 1)}
  }

  lemma {:induction false} InImage(f: nat -> nat, k: nat, x: nat)
    ensures x in Image(f, k) <==> exists i :: 0 <= i < k && f(i) == x
  {
    if k == 0 {
    } else {
      InImage(f, k - 1, x);
    }
  }

  lemma {:induction false} ImageSize(f: nat -> nat, n: nat, k: nat)
    requires k <= n && forall i, j :: 0 <= i < j < n ==> f(i) != f(j)
    ensures |Image(f, k)| == k
  {
    if k == 0 {
    } else {
      ImageSize(f, n, k - 1);
      NewInImage(f, n, k - 1);
    }
  }

  lemma NewInImage(f: nat -> nat, n: nat, k: nat)
    requires k < n && forall i, j :: 0 <= i < j < n ==> f(i) != f(j)
    ensures f(k) !in Image(f, k)
  {
    InImage(f, k, f(k));
  }

  lemma SubsetOfSameSize<T>(a: set<T>, b: set<T>)
    requires a <= b && |a| == |b|
    ensures a == b
  {
    assert b == a + (b - a);
    assert |b| == |a| + |b - a|;
    assert b - a == {};
  }

  lemma InjectionIsOnto(f: nat -> nat, n: nat, target: nat) returns (j: nat)
    requires forall i :: 0 <= i < n ==> f(i) < n
    requires forall i, j :: 0 <= i < j < n ==> f(i) != f(j)
    requires target < n
    ensures j < n && f(j) == target
  {
    var id := (i: nat) => i;
    ImageSize(f, n, n);
    ImageSize(id, n, n);
    forall x | x in Image(f, n) ensures x in Image(id, n) {
      InImage(f, n, x);
      InImage(id, n, x);
      assert id(x) == x;
    }
    SubsetOfSameSize(Image(f, n), Image(id, n));
    InImage(id, n, target);
    InImage(f, n, target);
    assert id(target) == target;
    j :| 0 <= j < n && f(j) == target;
  }

  // Every group is reached within `groups` steps.
  lemma ProbeCovers(start: nat, groups: nat, g: nat) returns (j: nat)
    requires IsPow2(groups) && g < groups
    ensures j < groups && GroupAt(start, groups, j) == g
  {
    forall i, j | 0 <= i < j < groups
      ensures GroupAt(start, groups, i) != GroupAt(start, groups, j)
    {
      ProbeDistinct(start, groups, i, j);
    }
    j := InjectionIsOnto((i: nat) => GroupAt(start, groups, i), groups, g);
  }

  // --- Odd strides (the debug traversal order) ---

  // The group visited after i strides.
  function StrideGroup(start: nat, stride: nat, groups: nat, i: nat): (r: nat)
    requires groups > 0
    ensures r < groups
  {
    (start + i * stride) % groups
  }

  lemma StrideDistinct(start: nat, stride: nat, groups: nat, i: nat, j: nat)
    requires IsPow2(groups) && stride % 2 == 1 && i < j < groups
    ensures StrideGroup(start, stride, groups, i) != StrideGroup(start, stride, groups, j)
  {
    if StrideGroup(start, stride, groups, i) == StrideGroup(start, stride, groups, j) {
      assert j * stride - i * stride == stride * (j - i);
      assert stride * (j - i) >= 0;
      var k := SameModDivides(start + i * stride, start + j * stride, groups);
      OddFactorTooSmall(stride, j - i, groups, k);
    }
  }

  lemma StrideCovers(start: nat, stride: nat, groups: nat, g: nat) returns (i: nat)
    requires IsPow2(groups) && stride % 2 == 1 && g < groups
    ensures i < groups && StrideGroup(start, stride, groups, i) == g
  {
    forall i, j | 0 <= i < j < groups
      ensures StrideGroup(start, stride, groups, i) != StrideGroup(start, stride, groups, j)
    {
      StrideDistinct(start, stride, groups, i, j);
    }
    i := InjectionIsOnto((i: nat) => StrideGroup(start, stride, groups, i), groups, g);
  }

  // --- The incremental walk ---

  lemma ModOfModPlus(x: nat, d: nat, m: nat)
    requires m > 0
    ensures (x % m + d) % m == (x + d) % m
  {
    var s := x % m + d;
    assert x + d == (x / m + s / m) * m + s % m;
    DivModUnique(x + d, m, x / m + s / m, s % m);
  }

  // How many slots share one group of metadata bytes: 16 with x86 SIMD, otherwise 8.
  datatype Width = Eight | Sixteen {
    function Size(): nat {
      if Eight? then 8 else 16
    }

    // The first slot of group g.
    function First(g: nat): nat {
      if Eight? then 8 * g else 16 * g
    }

    // The group of slot i.
    function GroupOf(i: nat): nat {
      if Eight? then i / 8 else i / 16
    }
  }

  const MAX_GROUP_SIZE := 16

  predicate IsTableSize(size: nat) {
    IsPow2(size) && size >= MAX_GROUP_SIZE
  }

  lemma GroupCount(w: Width, size: nat)
    requires IsTableSize(size)
    ensures IsPow2(w.GroupOf(size)) && w.First(w.GroupOf(size)) == size
  {
    Pow2Divides(w.Size(), size);
  }

  // Stepping group by group through a table stays aligned and ends at its size.
  lemma NextGroup(w: Width, i: nat, size: nat)
    requires IsTableSize(size) && w.First(w.GroupOf(i)) == i && i < size
    ensures i < i + w.Size() <= size && w.First(w.GroupOf(i + w.Size())) == i + w.Size()
  {
    GroupCount(w, size);
    hide IsPow2;
  }

  function ProbeMaskFromSize(w: Width, size: nat): nat
    requires size > 0
  {
    AndNot(size - 1, w.Size() - 1)
  }

  // Masking a hash index gives the first slot of the group it falls in.
  lemma ProbeMaskMeaning(w: Width, x: nat, size: nat)
    requires IsTableSize(size)
    ensures w.GroupOf(size) > 0
    ensures And(x, ProbeMaskFromSize(w, size)) == w.First(w.GroupOf(x) % w.GroupOf(size))
  {
    AndGroupMask(x, w.Size(), size);
  }

  // Walks the groups of a table from a hash index. `p` and `step` are in slots.
  class ProbeSequence {
    const w: Width
    const size: nat
    const mask: nat
    ghost const start: nat  // the unmasked hash index
    var step: nat
    var p: nat
    ghost var taken: nat    // calls to Next so far

    ghost predicate Valid()
      reads this
    {
      && IsTableSize(size) && w.GroupOf(size) > 0
      && mask == ProbeMaskFromSize(w, size)
      && taken < w.GroupOf(size)
      && step == w.First(taken)
      && p == w.First(GroupAt(w.GroupOf(start), w.GroupOf(size), taken))
    }

    constructor (w: Width, start: nat, size: nat)
      requires IsTableSize(size)
      ensures Valid() && taken == 0
      ensures this.w == w && this.start == start && this.size == size
    {
      ProbeMaskMeaning(w, start, size);
      this.w, this.size, this.start := w, size, start;
      mask := ProbeMaskFromSize(w, size);
      step := 0;
      p := And(start, ProbeMaskFromSize(w, size));
      taken := 0;
    }

    // The group reached satisfies the closed formula the source checks in debug builds.
    method Next()
      requires Valid() && taken + 1 < w.GroupOf(size)
      modifies this
      ensures Valid() && taken == old(taken) + 1
      ensures step < size
      ensures w.GroupOf(p)
           == (w.GroupOf(start) + (w.GroupOf(step) + w.GroupOf(step) * w.GroupOf(step)) / 2) % w.GroupOf(size)
    {
      hide And, GroupAt, IsPow2, ProbeMaskFromSize;
      ghost var groups := w.GroupOf(size);
      ghost var from := w.GroupOf(start);
      ghost var before := GroupAt(from, groups, taken);
      step := step + w.Size();
      ProbeMaskMeaning(w, p + step, size);
      assert w.GroupOf(p + step) == before + (taken + 1);
      p := And(p + step, mask);
      taken := taken + 1;
      GroupAtNext(from, groups, taken - 1);
      GroupAtClosed(from, groups, taken);
      assert w.GroupOf(step) == taken;
      assert w.GroupOf(p) == GroupAt(from, groups, taken);
    }

    function Index(): nat
      reads this
    {
      p
    }
  }

  lemma GroupAtNext(start: nat, groups: nat, j: nat)
    requires groups > 0
    ensures GroupAt(start, groups, j + 1) == (GroupAt(start, groups, j) + (j + 1)) % groups
  {
    ModOfModPlus(start + Triangle(j), j + 1, groups);
  }
}
