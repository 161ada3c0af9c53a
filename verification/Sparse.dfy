/** Which block groups carry a backup superblock: the powers of 3, 5 and 7. */
module Sparse {
  import opened Bytes
  import opened Arithmetic

  ghost predicate IsPower(base: nat, v: nat) {
    exists k: nat :: v == Pow(base, k)
  }

  lemma PowerStep(base: nat, v: nat)
    requires base >= 2 && v >= 1 && v % base == 0
    ensures v / base >= 1 && v / base < v && (IsPower(base, v) <==> IsPower(base, v / base))
  {
    var q := v / base;
    assert v == q * base;
    MulMonotone(2, base, q);
    if IsPower(base, v) {
      var k: nat :| v == Pow(base, k);
      DivOfProduct(Pow(base, k - 1), base);
      assert q == Pow(base, k - 1);
    }
    if IsPower(base, q) {
      var k: nat :| q == Pow(base, k);
      assert v == Pow(base, k + 1);
    }
  }

  lemma PowerEnd(base: nat, v: nat)
    requires base >= 2 && v % base != 0
    ensures IsPower(base, v) <==> v == 1
  {
    if v == 1 {
      assert v == Pow(base, 0);
    }
    if IsPower(base, v) {
      var k: nat :| v == Pow(base, k);
      if k > 0 {
        PowerDivides(base, k);
      }
    }
  }

  lemma PowerDivides(base: nat, k: nat)
    requires base >= 2 && k > 0
    ensures Pow(base, k) % base == 0
  {
    var p := Pow(base, k - 1);
    assert Pow(base, k) == p * base;
    hide Pow;
    DivOfProduct(p, base);
  }

  /** `is_power_of`. */
  method IsPowerOf(value: nat, base: nat) returns (r: bool)
    requires base >= 2
    ensures r <==> IsPower(base, value)
  {
    if value < 1 {
      ZeroIsNoPower(base);
      return false;
    }
    var v := value;
    while v % base == 0
      invariant v >= 1 && (IsPower(base, v) <==> IsPower(base, value))
      decreases v
    {
      PowerStep(base, v);
      v := v / base;
    }
    PowerEnd(base, v);
    return v == 1;
  }

  lemma ZeroIsNoPower(base: nat)
    requires base >= 2
    ensures !IsPower(base, 0)
  {
    forall k: nat
      ensures Pow(base, k) != 0
    {
      PowPositive(base, k);
    }
  }

  ghost predicate SparseGroup(group: nat) {
    group == 0 || IsPower(3, group) || IsPower(5, group) || IsPower(7, group)
  }

  /** `has_sparse_super`. */
  method HasSparseSuper(group: nat) returns (r: bool)
    ensures r <==> SparseGroup(group)
    ensures r <==> group == 0 || IsPower(3, group) || IsPower(5, group) || IsPower(7, group)
  {
    if group == 0 {
      return true;
    }
    if group == 1 {
      assert group == Pow(3, 0);
      return true;
    }
    var three := IsPowerOf(group, 3);
    var five := IsPowerOf(group, 5);
    var seven := IsPowerOf(group, 7);
    return three || five || seven;
  }

  /** The groups 1 .. n - 1 that carry a backup, in increasing order. */
  ghost function SparseGroups(n: nat): seq<nat> {
    if n <= 1 then []
    else if SparseGroup(n - 1) then SparseGroups(n - 1) + [n - 1]
    else SparseGroups(n - 1)
  }

  lemma {:induction false} SparseGroupsExact(n: nat)
    ensures forall g: nat :: g in SparseGroups(n) <==> 1 <= g < n && SparseGroup(g)
    ensures forall g: nat ::
              g in SparseGroups(n) <==> 1 <= g < n && (IsPower(3, g) || IsPower(5, g) || IsPower(7, g))
    ensures forall i, j | 0 <= i < j < |SparseGroups(n)| :: SparseGroups(n)[i] < SparseGroups(n)[j]
  {
    assert forall g: nat | g > 0 :: SparseGroup(g) <==> IsPower(3, g) || IsPower(5, g) || IsPower(7, g);
    hide SparseGroup, IsPower;
    if n > 1 {
      SparseGroupsExact(n - 1);
      var before := SparseGroups(n - 1);
      assert forall i | 0 <= i < |before| :: before[i] in before;
    }
  }

  // There are at most 45 of them below 2^32.

  /** The powers base^1 .. base^k. */
  ghost function PowersTo(base: nat, k: nat): set<nat> {
    if k == 0 then {} else PowersTo(base, k - 1) + {Pow(base, k)}
  }

  lemma {:induction false} PowersToSize(base: nat, k: nat)
    ensures |PowersTo(base, k)| <= k
  {
    if k > 0 {
      PowersToSize(base, k - 1);
    }
  }

  lemma {:induction false} PowersToMember(base: nat, k: nat, j: nat)
    requires 1 <= j <= k
    ensures Pow(base, j) in PowersTo(base, k)
  {
    if j < k {
      PowersToMember(base, k - 1, j);
    }
  }

  /** A power below base^(k+1) is 1 or one of the first k. */
  lemma BoundedPower(base: nat, k: nat, g: nat)
    requires base >= 2 && IsPower(base, g) && g < Pow(base, k + 1)
    ensures g == 1 || g in PowersTo(base, k)
  {
    var j: nat :| g == Pow(base, j);
    if j > k + 1 {
      PowGrows(base, k + 1, j);
    }
    if 1 <= j <= k {
      PowersToMember(base, k, j);
    }
  }

  lemma PowersPastLimit()
    ensures Pow(3, 21) > U32 && Pow(5, 14) > U32 && Pow(7, 12) > U32
  {
    assert Pow(3, 3) == 27;
    PowAdd(3, 3, 3);
    PowAdd(3, 6, 6);
    PowAdd(3, 12, 6);
    PowAdd(3, 18, 3);
    assert Pow(5, 3) == 125;
    PowAdd(5, 3, 3);
    PowAdd(5, 6, 1);
    PowAdd(5, 7, 7);
    assert Pow(7, 3) == 343;
    PowAdd(7, 3, 3);
    PowAdd(7, 6, 6);
  }

  lemma {:induction false} IncreasingSize(s: seq<nat>, within: set<nat>)
    requires forall i, j | 0 <= i < j < |s| :: s[i] < s[j]
    requires forall i | 0 <= i < |s| :: s[i] in within
    ensures |s| <= |within|
    decreases |s|
  {
    if s != [] {
      var n := |s| - 1;
      IncreasingSize(s[..n], within - {s[n]});
    }
  }

  /** All groups below 2^32 that carry a backup are among these. */
  ghost function Candidates(): set<nat> {
    {1} + PowersTo(3, 20) + PowersTo(5, 13) + PowersTo(7, 11)
  }

  lemma CandidatesSize()
    ensures |Candidates()| <= 45
  {
    hide PowersTo;
    PowersToSize(3, 20);
    PowersToSize(5, 13);
    PowersToSize(7, 11);
    UnionSize({1}, PowersTo(3, 20));
    UnionSize({1} + PowersTo(3, 20), PowersTo(5, 13));
    UnionSize({1} + PowersTo(3, 20) + PowersTo(5, 13), PowersTo(7, 11));
  }

  lemma CandidatesCover(g: nat)
    requires 1 <= g < U32 && SparseGroup(g)
    ensures g in Candidates()
  {
    hide PowersTo, Pow;
    PowersPastLimit();
    if IsPower(3, g) {
      BoundedPower(3, 20, g);
    } else if IsPower(5, g) {
      BoundedPower(5, 13, g);
    } else {
      BoundedPower(7, 11, g);
    }
  }

  /** Discovery never lists more than 45 groups: group counts stay below 2^32. */
  lemma AtMostFortyFive(n: nat)
    requires n <= U32
    ensures |SparseGroups(n)| <= 45
  {
    hide Candidates, SparseGroup, SparseGroups;
    SparseGroupsExact(n);
    var groups := SparseGroups(n);
    forall i | 0 <= i < |groups|
      ensures groups[i] in Candidates()
    {
      assert groups[i] in groups;
      CandidatesCover(groups[i]);
    }
    IncreasingSize(groups, Candidates());
    CandidatesSize();
  }

  lemma UnionSize(a: set<nat>, b: set<nat>)
    ensures |a + b| <= |a| + |b|
  {
    assert |a + b| == |a| + |b| - |a * b|;
  }
}
