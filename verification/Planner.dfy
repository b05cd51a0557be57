/** How the host derives the kernels' group sizes from the shape of the hypercube. */
module Planner {
  import opened Arithmetic
  import opened Blocks
  import opened Tasklets
  import opened Kernels

  function Product(axes: seq<nat>): nat {
    if axes == [] then 1 else axes[0] * Product(axes[1..])
  }

  /** The number of DPUs that communicate with each other. */
  function Selected(axes: seq<nat>, comm: seq<bool>): nat
    requires |axes| == |comm|
  {
    if axes == [] then 1 else (if comm[0] then axes[0] else 1) * Selected(axes[1..], comm[1..])
  }

  /** The DPU with index `x` differs from DPU 0 only along selected axes. */
  predicate InGroup(axes: seq<nat>, comm: seq<bool>, x: nat)
    requires |axes| == |comm| && forall i | 0 <= i < |axes| :: 0 < axes[i]
  {
    axes == [] || ((comm[0] || x % axes[0] == 0) && InGroup(axes[1..], comm[1..], x / axes[0]))
  }

  /** How many of the first `n` DPUs belong to the group of DPU 0. */
  function Members(axes: seq<nat>, comm: seq<bool>, n: nat): nat
    requires |axes| == |comm| && forall i | 0 <= i < |axes| :: 0 < axes[i]
  {
    if n == 0 then 0 else Members(axes, comm, n - 1) + if InGroup(axes, comm, n - 1) then 1 else 0
  }

  /** The axes split `m` consecutive DPUs evenly: each one divides what is left of `m`, until one covers it. */
  predicate Tiles(axes: seq<nat>, m: nat)
    requires 0 < m && forall i | 0 <= i < |axes| :: 0 < axes[i]
  {
    if m == 1 then true
    else if axes == [] then false
    else axes[0] % m == 0 || (m % axes[0] == 0 && 0 < m / axes[0] && Tiles(axes[1..], m / axes[0]))
  }

  /** What the host's loop multiplies up, when `m` of the eight DPUs are left to be split. */
  function GroupFactor(axes: seq<nat>, comm: seq<bool>, m: nat): (rg: nat)
    requires |axes| == |comm| && 0 < m && forall i | 0 <= i < |axes| :: 0 < axes[i]
    requires Tiles(axes, m)
  {
    if m == 1 then 1
    else if axes[0] % m == 0 then if comm[0] then m else 1
    else (if comm[0] then axes[0] else 1) * GroupFactor(axes[1..], comm[1..], m / axes[0])
  }

  // ---------------------------------------------------------------- the factor counts the members

  lemma {:induction false} ZeroInGroup(axes: seq<nat>, comm: seq<bool>)
    requires |axes| == |comm| && forall i | 0 <= i < |axes| :: 0 < axes[i]
    ensures InGroup(axes, comm, 0)
  {
    if axes != [] {
      DivModUnique(0, axes[0], 0, 0);
      ZeroInGroup(axes[1..], comm[1..]);
    }
  }

  /** Along one axis that is at least `n` long, every DPU or only the first one is a member. */
  lemma {:induction false} MembersWithinAxis(axes: seq<nat>, comm: seq<bool>, n: nat)
    requires |axes| == |comm| && (forall i | 0 <= i < |axes| :: 0 < axes[i]) && axes != [] && n <= axes[0]
    ensures Members(axes, comm, n) == if comm[0] || n == 0 then n else 1
  {
    if n > 0 {
      MembersWithinAxis(axes, comm, n - 1);
      DivModUnique(n - 1, axes[0], 0, n - 1);
      ZeroInGroup(axes[1..], comm[1..]);
    }
  }

  /** One more run of the first axis adds all of its DPUs, or one, or none. */
  lemma {:induction false} MembersOfRun(axes: seq<nat>, comm: seq<bool>, k: nat, j: nat)
    requires |axes| == |comm| && (forall i | 0 <= i < |axes| :: 0 < axes[i]) && axes != [] && j <= axes[0]
    ensures Members(axes, comm, k * axes[0] + j) == Members(axes, comm, k * axes[0]) +
      if !InGroup(axes[1..], comm[1..], k) then 0 else if comm[0] || j == 0 then j else 1
  {
    if j > 0 {
      MembersOfRun(axes, comm, k, j - 1);
      DivModUnique(k * axes[0] + j - 1, axes[0], k, j - 1);
    }
  }

  lemma OneMore(k: int, a: int)
    ensures (k + 1) * a == k * a + a && a * (k + 1) == a * k + a
  {
  }

  lemma {:induction false} MembersOfRuns(axes: seq<nat>, comm: seq<bool>, k: nat)
    requires |axes| == |comm| && (forall i | 0 <= i < |axes| :: 0 < axes[i]) && axes != []
    ensures Members(axes, comm, k * axes[0]) == (if comm[0] then axes[0] else 1) * Members(axes[1..], comm[1..], k)
  {
    if k > 0 {
      var a, each, m := axes[0], if comm[0] then axes[0] else 1, Members(axes[1..], comm[1..], k - 1);
      MembersOfRuns(axes, comm, k - 1);
      MembersOfRun(axes, comm, k - 1, a);
      OneMore(k - 1, a);
      OneMore(m, each);
    }
  }

  /** The product of the selected axes is the number of members among all DPUs. */
  lemma {:induction false} SelectedCountsMembers(axes: seq<nat>, comm: seq<bool>)
    requires |axes| == |comm| && forall i | 0 <= i < |axes| :: 0 < axes[i]
    ensures Selected(axes, comm) == Members(axes, comm, Product(axes))
  {
    if axes == [] {
      assert Members(axes, comm, 0) == 0;
      assert Members(axes, comm, 1) == 1;
    } else {
      var k := Product(axes[1..]);
      SelectedCountsMembers(axes[1..], comm[1..]);
      MembersOfRuns(axes, comm, k);
      Commuted(k, axes[0]);
    }
  }

  lemma Commuted(x: nat, y: nat)
    ensures x * y == y * x
  {
  }

  /** A DPU is a member exactly if all its coordinates along axes that are not selected are zero. */
  lemma {:induction false} MembersByCoordinates(axes: seq<nat>, comm: seq<bool>, x: nat)
    requires |axes| == |comm| && forall i | 0 <= i < |axes| :: 0 < axes[i]
    ensures forall i | 0 <= i <= |axes| :: 0 < Product(axes[..i])
    ensures InGroup(axes, comm, x) <==>
              forall i | 0 <= i < |axes| && !comm[i] :: x / Product(axes[..i]) % axes[i] == 0
  {
    forall i | 0 <= i <= |axes|
      ensures 0 < Product(axes[..i])
    {
      ProductPositive(axes[..i]);
    }
    if axes != [] {
      var a := axes[0];
      MembersByCoordinates(axes[1..], comm[1..], x / a);
      assert axes[..0] == [] && Product(axes[..0]) == 1;
      forall i | 0 < i < |axes|
        ensures x / Product(axes[..i]) == x / a / Product(axes[1..][..i - 1])
      {
        assert axes[..i][1..] == axes[1..][..i - 1];
        var p := Product(axes[1..][..i - 1]);
        ProductPositive(axes[1..][..i - 1]);
        DivByFactor(x, a, p);
        Commuted(a, p);
      }
      FirstAndRest(axes, comm, x);
    }
  }

  /** The condition on the coordinates, one axis at a time. */
  lemma FirstAndRest(axes: seq<nat>, comm: seq<bool>, x: nat)
    requires |axes| == |comm| && axes != [] && (forall i | 0 <= i < |axes| :: 0 < axes[i])
    requires forall i | 0 <= i <= |axes| :: 0 < Product(axes[..i])
    requires forall i | 0 <= i < |axes| :: 0 < Product(axes[1..][..i])
    requires Product(axes[..0]) == 1
    requires forall i | 0 < i < |axes| :: x / Product(axes[..i]) == x / axes[0] / Product(axes[1..][..i - 1])
    ensures (forall i | 0 <= i < |axes| && !comm[i] :: x / Product(axes[..i]) % axes[i] == 0)
       <==> && (comm[0] || x % axes[0] == 0)
            && forall i | 0 <= i < |axes| - 1 && !comm[1..][i] ::
                 x / axes[0] / Product(axes[1..][..i]) % axes[1..][i] == 0
  {
    hide Product;
    if (comm[0] || x % axes[0] == 0) && forall i | 0 <= i < |axes| - 1 && !comm[1..][i] ::
         x / axes[0] / Product(axes[1..][..i]) % axes[1..][i] == 0 {
      forall i | 0 <= i < |axes| && !comm[i]
        ensures x / Product(axes[..i]) % axes[i] == 0
      {
        if i > 0 {
          assert !comm[1..][i - 1] && axes[1..][i - 1] == axes[i];
        }
      }
    }
    if forall i | 0 <= i < |axes| && !comm[i] :: x / Product(axes[..i]) % axes[i] == 0 {
      assert !comm[0] ==> x / Product(axes[..0]) % axes[0] == 0;
      forall i | 0 <= i < |axes| - 1 && !comm[1..][i]
        ensures x / axes[0] / Product(axes[1..][..i]) % axes[1..][i] == 0
      {
        assert !comm[i + 1] && axes[1..][i] == axes[i + 1];
        assert x / Product(axes[..i + 1]) == x / axes[0] / Product(axes[1..][..i + 1 - 1]);
      }
    }
  }

  /** The factor is the number of members among the first `m` DPUs. */
  lemma {:induction false} FactorCountsMembers(axes: seq<nat>, comm: seq<bool>, m: nat)
    requires |axes| == |comm| && 0 < m && (forall i | 0 <= i < |axes| :: 0 < axes[i]) && Tiles(axes, m)
    ensures GroupFactor(axes, comm, m) == Members(axes, comm, m)
    decreases |axes|
  {
    if m == 1 {
      ZeroInGroup(axes, comm);
      assert Members(axes, comm, 0) == 0;
    } else if axes[0] % m == 0 {
      AtLeast(axes[0], m);
      MembersWithinAxis(axes, comm, m);
    } else {
      var k := m / axes[0];
      FactorCountsMembers(axes[1..], comm[1..], k);
      MembersOfRuns(axes, comm, k);
      Quotient(m, axes[0]);
    }
  }

  lemma Quotient(m: nat, a: nat)
    requires 0 < a && m % a == 0
    ensures m / a * a == m
  {
  }

  lemma AtLeast(a: nat, m: nat)
    requires 0 < a && 0 < m && a % m == 0
    ensures m <= a
  {
    assert a == a / m * m;
    if a < m {
      DivModUnique(a, m, 0, a);
      assert false;
    }
  }

  // ---------------------------------------------------------------- divisibility

  ghost predicate Divides(d: nat, n: nat) {
    exists k: nat :: IsProduct(d, k, n)
  }

  predicate IsProduct(d: nat, k: nat, n: nat) {
    d * k == n
  }

  lemma DividesProduct(d: nat, n: nat, x: nat, y: nat)
    requires Divides(d, n)
    ensures Divides(x * d, x * n) && Divides(d, n * y)
  {
    var k: nat :| IsProduct(d, k, n);
    assert x * d * k == x * (d * k) && d * (k * y) == d * k * y;
    assert IsProduct(x * d, k, x * n) && IsProduct(d, k * y, n * y);
  }

  lemma DividesByRemainder(d: nat, n: nat)
    requires 0 < d && n % d == 0
    ensures Divides(d, n) && Divides(1, n)
  {
    Quotient(n, d);
    assert IsProduct(d, n / d, n) && IsProduct(1, n, n);
  }

  lemma {:induction false} FactorDivides(axes: seq<nat>, comm: seq<bool>, m: nat)
    requires |axes| == |comm| && 0 < m && (forall i | 0 <= i < |axes| :: 0 < axes[i]) && Tiles(axes, m)
    ensures Divides(GroupFactor(axes, comm, m), m)
    ensures Divides(GroupFactor(axes, comm, m), Selected(axes, comm))
    decreases |axes|
  {
    if m == 1 {
      assert IsProduct(1, 1, m);
      assert IsProduct(1, Selected(axes, comm), Selected(axes, comm));
    } else if axes[0] % m == 0 {
      assert IsProduct(m, 1, m) && IsProduct(1, m, m);
      DividesByRemainder(m, axes[0]);
      var rest := Selected(axes[1..], comm[1..]);
      assert IsProduct(1, rest, rest);
      DividesProduct(m, axes[0], 1, rest);
    } else {
      var a, k := axes[0], m / axes[0];
      FactorDivides(axes[1..], comm[1..], k);
      Quotient(m, a);
      var f := GroupFactor(axes[1..], comm[1..], k);
      DividesProduct(f, k, a, a);
      DividesProduct(f, Selected(axes[1..], comm[1..]), a, 1);
    }
  }

  // ---------------------------------------------------------------- powers of two

  predicate PowerOfTwo(n: nat) {
    n == 1 || (0 < n && n % 2 == 0 && PowerOfTwo(n / 2))
  }

  /** Power-of-two axes whose product is at least `m` split `m` DPUs evenly. */
  lemma {:induction false} PowersOfTwoTile(axes: seq<nat>, m: nat)
    requires m == 1 || m == 2 || m == 4 || m == 8
    requires (forall i | 0 <= i < |axes| :: PowerOfTwo(axes[i])) && m <= Product(axes)
    ensures (forall i | 0 <= i < |axes| :: 0 < axes[i]) && Tiles(axes, m)
  {
    if m > 1 {
      var a := axes[0];
      SmallPower(a);
      if a % m != 0 {
        DivideOut(m, a, Product(axes[1..]));
        PowersOfTwoTile(axes[1..], m / a);
        PositiveAxes(axes);
      } else {
        PositiveAxes(axes);
      }
    }
  }

  lemma DivideOut(m: nat, a: nat, rest: nat)
    requires m == 2 || m == 4 || m == 8
    requires (a == 1 || a == 2 || a == 4 || a % 8 == 0) && a % m != 0 && m <= a * rest
    ensures m % a == 0 && 0 < a && m / a <= rest && (m / a == 1 || m / a == 2 || m / a == 4 || m / a == 8)
  {
    if a == 1 {} else if a == 2 {} else if a == 4 {}
  }

  lemma PositiveAxes(axes: seq<nat>)
    requires forall i | 0 <= i < |axes| :: PowerOfTwo(axes[i])
    ensures forall i | 0 <= i < |axes| :: 0 < axes[i]
  {
    forall i | 0 <= i < |axes|
      ensures 0 < axes[i]
    {
      assert PowerOfTwo(axes[i]);
    }
  }

  lemma SmallPower(a: nat)
    requires PowerOfTwo(a)
    ensures a == 1 || a == 2 || a == 4 || a % 8 == 0
  {
    if a != 1 && a / 2 != 1 && a / 4 != 1 {
      assert PowerOfTwo(a / 2) && PowerOfTwo(a / 2 / 2);
    }
  }

  // ---------------------------------------------------------------- the loops of the host

  lemma {:induction false} ProductPositive(axes: seq<nat>)
    requires forall i | 0 <= i < |axes| :: 0 < axes[i]
    ensures 0 < Product(axes)
  {
    if axes != [] {
      ProductPositive(axes[1..]);
    }
  }

  lemma {:induction false} ProductPrefix(axes: seq<nat>, k: nat)
    requires k < |axes|
    ensures Product(axes[..k + 1]) == Product(axes[..k]) * axes[k]
  {
    if k == 0 {
      assert axes[..1] == [axes[0]] && axes[..1][1..] == [] && axes[..0] == [];
    } else {
      ProductPrefix(axes[1..], k - 1);
      assert axes[..k + 1][1..] == axes[1..][..k] && axes[..k][1..] == axes[1..][..k - 1];
      var p, q := Product(axes[1..][..k - 1]), axes[k];
      assert axes[0] * (p * q) == axes[0] * p * q;
    }
  }

  lemma {:induction false} PrefixAtMostProduct(axes: seq<nat>, k: nat)
    requires k <= |axes| && forall i | 0 <= i < |axes| :: 0 < axes[i]
    ensures Product(axes[..k]) <= Product(axes)
    decreases |axes| - k
  {
    if k < |axes| {
      PrefixAtMostProduct(axes, k + 1);
      ProductPrefix(axes, k);
      ProductPositive(axes[..k]);
      MulGap(1, axes[k], Product(axes[..k]));
    } else {
      assert axes[..k] == axes;
    }
  }

  /** The loop that computes `num_comm_dpu`: the number of DPUs in the group of DPU 0. */
  method NumCommDpu(axes: seq<nat>, comm: seq<bool>) returns (n: nat)
    requires |axes| == |comm|
    ensures n == Selected(axes, comm)
    ensures (forall i | 0 <= i < |axes| :: 0 < axes[i]) ==> n == Members(axes, comm, Product(axes))
  {
    n := 1;
    assert axes[0..] == axes && comm[0..] == comm;
    var dim := 0;
    while dim < |axes|
      invariant 0 <= dim <= |axes| && n * Selected(axes[dim..], comm[dim..]) == Selected(axes, comm)
    {
      assert axes[dim..][1..] == axes[dim + 1..] && comm[dim..][1..] == comm[dim + 1..];
      Reassociate(n, if comm[dim] then axes[dim] else 1, Selected(axes[dim + 1..], comm[dim + 1..]));
      if comm[dim] {
        n := n * axes[dim];
      }
      dim := dim + 1;
    }
    if forall i | 0 <= i < |axes| :: 0 < axes[i] {
      SelectedCountsMembers(axes, comm);
    }
  }

  /** The loop that computes `num_comm_rg`.  Its condition looks at `len` only, so `inside` records whether it
      has stopped before reading past the last axis: it does so exactly when there are at least eight DPUs. */
  method NumCommRg(axes: seq<nat>, comm: seq<bool>) returns (rg: nat, inside: bool)
    requires |axes| == |comm| && forall i | 0 <= i < |axes| :: 0 < axes[i]
    ensures inside <==> 8 <= Product(axes)
    ensures Tiles(axes, 8) ==> inside && rg == Members(axes, comm, 8)
  {
    rg := 1;
    var dim, len := 0, 1;
    assert axes[0..] == axes && comm[0..] == comm;
    while len < 8
      invariant 0 <= dim <= |axes| && 0 < len && len == Product(axes[..dim])
      invariant Tiles(axes, 8) ==> Progress(axes, comm, dim, len, rg)
      decreases |axes| - dim
    {
      if dim == |axes| {
        assert axes[..dim] == axes;
        return rg, false;
      }
      ghost var before := rg;
      if comm[dim] {
        rg := rg * if axes[dim] <= 8 / len then axes[dim] else 8 / len;
      }
      if Tiles(axes, 8) {
        ProgressStep(axes, comm, dim, len, before, rg);
      }
      if rg >= 8 {
        rg := 8;
      }
      ProductPrefix(axes, dim);
      MulGap(0, axes[dim], len);
      len := len * axes[dim];
      dim := dim + 1;
    }
    PrefixAtMostProduct(axes, dim);
    FactorCountsMembersIfTiled(axes, comm);
    inside := true;
  }

  /** Two DPUs on one axis: the loop reads past it. */
  method SingleShortAxis() returns (rg: nat, inside: bool)
    ensures !inside
  {
    rg, inside := NumCommRg([2], [true]);
    assert Product([2]) == 2 * Product([2][1..]);
  }

  lemma FactorCountsMembersIfTiled(axes: seq<nat>, comm: seq<bool>)
    requires |axes| == |comm| && (forall i | 0 <= i < |axes| :: 0 < axes[i])
    ensures Tiles(axes, 8) ==> GroupFactor(axes, comm, 8) == Members(axes, comm, 8)
  {
    if Tiles(axes, 8) {
      FactorCountsMembers(axes, comm, 8);
    }
  }

  /** What has been multiplied up so far, times what the remaining axes contribute, is the whole factor. */
  ghost predicate Progress(axes: seq<nat>, comm: seq<bool>, dim: nat, len: nat, rg: nat)
    requires |axes| == |comm| && dim <= |axes| && (forall i | 0 <= i < |axes| :: 0 < axes[i]) && Tiles(axes, 8)
  {
    if len < 8 then
      && (len == 1 || len == 2 || len == 4)
      && Tiles(axes[dim..], 8 / len)
      && rg * GroupFactor(axes[dim..], comm[dim..], 8 / len) == GroupFactor(axes, comm, 8)
    else rg == GroupFactor(axes, comm, 8)
  }

  lemma ProgressStep(axes: seq<nat>, comm: seq<bool>, dim: nat, len: nat, rg: nat, rg': nat)
    requires |axes| == |comm| && dim < |axes| && (forall i | 0 <= i < |axes| :: 0 < axes[i]) && Tiles(axes, 8)
    requires 0 < len < 8 && Progress(axes, comm, dim, len, rg)
    requires rg' == rg * if !comm[dim] then 1 else if axes[dim] <= 8 / len then axes[dim] else 8 / len
    ensures Progress(axes, comm, dim + 1, len * axes[dim], rg') && rg' <= 8
  {
    var m, a, rest, crest := 8 / len, axes[dim], axes[dim..], comm[dim..];
    assert rest[0] == a && rest[1..] == axes[dim + 1..] && crest[0] == comm[dim] && crest[1..] == comm[dim + 1..];
    assert len * m == 8 && (m == 2 || m == 4 || m == 8);
    FactorAtMostEight(axes, comm);
    if a % m == 0 {
      AtLeast(a, m);
      LongAxis(len, m, a);
    } else {
      AtLeast(m, a);
      ShortAxis(len, m, a);
      var f := GroupFactor(rest[1..], crest[1..], m / a);
      FactorDivides(rest[1..], crest[1..], m / a);
      PositiveDivisor(f, m / a);
      var each := if comm[dim] then a else 1;
      Regroup(rg, each, f);
    }
  }

  lemma LongAxis(len: nat, m: nat, a: nat)
    requires len * m == 8 && m <= a
    ensures 8 <= len * a
  {
    MulGap(m, a, len);
  }

  lemma NotDividing(a: nat)
    requires 0 < a
    ensures a == 3 || a == 5 || a == 6 || a == 7 ==> 8 % a != 0
    ensures a == 3 ==> 4 % a != 0
  {
  }

  lemma ShortAxis(len: nat, m: nat, a: nat)
    requires (len == 1 && m == 8) || (len == 2 && m == 4) || (len == 4 && m == 2)
    requires 0 < a <= m && m % a == 0 && a % m != 0
    ensures len * a < 8 && (len * a == 1 || len * a == 2 || len * a == 4) && 8 / (len * a) == m / a
  {
    assert a == 1 || a == 2 || a == 4 by {
      assert a < m by { if a == m { DivModUnique(m, m, 1, 0); assert false; } }
      NotDividing(a);
    }
    if a == 1 {} else if a == 2 {} else if a == 4 {}
  }

  lemma Reassociate(x: nat, y: nat, z: nat)
    ensures x * y * z == x * (y * z)
  {
  }

  lemma Regroup(rg: nat, each: nat, f: nat)
    requires 0 < f
    ensures rg * each * f == rg * (each * f) && rg * each <= rg * each * f
  {
    MulGap(1, f, rg * each);
  }

  lemma PositiveDivisor(d: nat, n: nat)
    requires Divides(d, n) && 0 < n
    ensures 0 < d <= n
  {
    var k: nat :| IsProduct(d, k, n);
    MulGap(0, k, d);
    assert d == 0 ==> d * k == 0;
  }

  lemma FactorAtMostEight(axes: seq<nat>, comm: seq<bool>)
    requires |axes| == |comm| && (forall i | 0 <= i < |axes| :: 0 < axes[i]) && Tiles(axes, 8)
    ensures 0 < GroupFactor(axes, comm, 8) <= 8
  {
    FactorDivides(axes, comm, 8);
    PositiveDivisor(GroupFactor(axes, comm, 8), 8);
  }

  /** For power-of-two axes the planner's two numbers are what the kernels with groups of `num_comm_rg` blocks
      need: a group size, that divides the number of blocks.  Between disjoint regions they can be started, and
      in place in their branch with barriers. */
  lemma PlanFitsKernels(axes: seq<nat>, comm: seq<bool>, a: Args, size: nat, rotation: Rotation)
    requires |axes| == |comm| && (forall i | 0 <= i < |axes| :: PowerOfTwo(axes[i])) && 8 <= Product(axes)
    requires forall i | 0 <= i < |axes| :: 0 < axes[i]
    requires a.commDpus == Selected(axes, comm) && a.commRg == Members(axes, comm, 8) && GroupSize(a.elem)
    requires Fits(a, size)
    requires DisjointRegions(a) || (a.start == a.target && !a.withoutX && (a.commRg == 2 || a.commRg == 4))
    ensures WellFormed(a) && a.commDpus % a.commRg == 0
    ensures forall c | c in ShortPlan(rotation, a) :: Startable(c, size)
  {
    PowersOfTwoTile(axes, 8);
    FactorCountsMembers(axes, comm, 8);
    FactorDivides(axes, comm, 8);
    OnlyDivisorsOfEight(a.commRg);
    var l: nat :| IsProduct(a.commRg, l, a.commDpus);
    DivModUnique(a.commDpus, a.commRg, l, 0);
    SelectedPositive(axes, comm);
    ShortPlanIsStartable(rotation, a, size);
  }

  lemma OnlyDivisorsOfEight(d: nat)
    requires Divides(d, 8)
    ensures GroupSize(d)
  {
    var k: nat :| IsProduct(d, k, 8);
    PositiveDivisor(d, 8);
    DivModUnique(8, d, k, 0);
    NotDividing(d);
  }

  lemma {:induction false} SelectedPositive(axes: seq<nat>, comm: seq<bool>)
    requires |axes| == |comm| && (forall i | 0 <= i < |axes| :: 0 < axes[i])
    ensures 0 < Selected(axes, comm)
  {
    if axes != [] {
      SelectedPositive(axes[1..], comm[1..]);
    }
  }
}
