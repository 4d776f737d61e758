/**
 * What BSSID validation and allocation in hostapd.c promise together: the radio's address and
 * the configured and automatic BSSIDs are pairwise distinct and share one aligned block.
 */
module BssidSpec {
  import opened Bits
  import opened MacAddress

  /** Number of MAC addresses. */
  const M: nat := 0x1_0000_0000_0000

  lemma {:induction false} MacCount()
    ensures M == Pow2(48)
  {
    Pow2Octet();
    hide Pow2;
    Pow2Add(8, 8); Pow2Add(16, 8); Pow2Add(24, 24);
  }

  lemma {:induction false} MacBound(a: Mac)
    ensures Num(a) < M == Pow2(48)
  {
    hide Pow2, Num;
    NumBound(a);
    MacCount();
  }

  predicate Auto(bssids: seq<Mac>, j: nat)
    requires j < |bssids|
  {
    bssids[j] == EMPTY
  }

  /** Some BSS other than the first has no configured BSSID. */
  predicate HasAuto(bssids: seq<Mac>) {
    exists j :: 1 <= j < |bssids| && Auto(bssids, j)
  }

  /** 2^b addresses suffice for all BSSs, and the block of that size around the radio has every configured BSSID. */
  ghost predicate Covers(radio: Mac, bssids: seq<Mac>, b: nat) {
    && |bssids| <= Pow2(b)
    && forall j :: 0 <= j < |bssids| && !Auto(bssids, j) ==> Shr(Num(bssids[j]), b) == Shr(Num(radio), b)
  }

  /** Validation accepts exactly this for the number of bits it works out. */
  ghost predicate Validated(radio: Mac, bssids: seq<Mac>, bits: nat) {
    && Covers(radio, bssids, bits)
    && bits <= 40
    && Low(Num(radio), bits) == 0
  }

  /** The addresses that mac_in_conf finds, as numbers; an unset BSSID counts as address 0. */
  ghost function Taken(bssids: seq<Mac>): set<nat> {
    set j | 0 <= j < |bssids| :: Num(bssids[j])
  }

  /** The address o steps after base, rolling over. */
  function Addr(base: nat, o: nat): nat {
    (base + o) % M
  }

  predicate Free(base: nat, T: set<nat>, o: nat) {
    Addr(base, o) !in T
  }

  /** r is the first address after base, cyclically, that is not taken; t steps were needed. */
  ghost predicate NextFree(base: nat, T: set<nat>, t: nat, r: nat) {
    && t >= 1 && r == Addr(base, t) && Free(base, T, t)
    && forall s :: 1 <= s < t ==> !Free(base, T, s)
  }

  /** The BSS whose address BSS j starts from: the last automatic one before it, or the first BSS. */
  function Previous(bssids: seq<Mac>, j: nat): (p: nat)
    requires 1 <= j <= |bssids|
    ensures p < j
  {
    if j == 1 || Auto(bssids, j - 1) then j - 1 else Previous(bssids, j - 1)
  }

  /** What a successful setup of all BSSs leaves in their own_addr fields. */
  ghost predicate Assigned(radio: Mac, bssids: seq<Mac>, addrs: seq<Mac>) {
    && |addrs| == |bssids| >= 1
    && addrs[0] == radio
    && forall j :: 1 <= j < |bssids| ==> AddressOk(radio, bssids, addrs, j)
  }

  ghost predicate AddressOk(radio: Mac, bssids: seq<Mac>, addrs: seq<Mac>, j: nat)
    requires 1 <= j < |bssids| && j < |addrs|
  {
    if Auto(bssids, j)
    then exists t :: NextFree(Num(addrs[Previous(bssids, j)]), Taken(bssids), t, Num(addrs[j]))
    else addrs[j] == bssids[j] && addrs[j] != radio
  }

  predicate DistinctConfigured(bssids: seq<Mac>) {
    forall i, j :: 0 <= i < j < |bssids| && !Auto(bssids, i) ==> bssids[i] != bssids[j]
  }

  // ---- counting free and taken addresses after a base ----

  function FreeCount(base: nat, T: set<nat>, x: nat): nat {
    if x == 0 then 0 else FreeCount(base, T, x - 1) + if Free(base, T, x) then 1 else 0
  }

  function TakenCount(base: nat, T: set<nat>, x: nat): nat {
    if x == 0 then 0 else TakenCount(base, T, x - 1) + if Free(base, T, x) then 0 else 1
  }

  lemma {:induction false} CountsAddUp(base: nat, T: set<nat>, x: nat)
    ensures FreeCount(base, T, x) + TakenCount(base, T, x) == x
    decreases x
  {
    if x > 0 { CountsAddUp(base, T, x - 1); }
  }

  lemma {:induction false} FreeCountMono(base: nat, T: set<nat>, x: nat, y: nat)
    requires x <= y
    ensures FreeCount(base, T, x) <= FreeCount(base, T, y)
    decreases y
  {
    if x < y { FreeCountMono(base, T, x, y - 1); }
  }

  /** Nothing free between x and y, except y itself, adds exactly one. */
  lemma {:induction false} NextFreeCount(base: nat, T: set<nat>, x: nat, y: nat, top: nat)
    requires x <= y < top && Free(base, T, top)
    requires forall o :: x < o < top ==> !Free(base, T, o)
    ensures FreeCount(base, T, y) == FreeCount(base, T, x)
    ensures y + 1 == top ==> FreeCount(base, T, top) == FreeCount(base, T, x) + 1
    decreases y
  {
    if x < y { NextFreeCount(base, T, x, y - 1, top); }
  }

  /** Fewer than M steps meet each taken address at most once. */
  lemma {:induction false} TakenAtMost(base: nat, T: set<nat>, x: nat)
    requires x < M
    ensures TakenCount(base, T, x) <= |T|
    decreases x
  {
    var met := Met(base, T, x);
    MetSize(base, T, x);
    SubsetSize(met, T);
  }

  ghost function Met(base: nat, T: set<nat>, x: nat): set<nat> {
    set o | 1 <= o <= x && !Free(base, T, o) :: Addr(base, o)
  }

  lemma SubsetSize(a: set<nat>, b: set<nat>)
    requires a <= b
    ensures |a| <= |b|
    decreases |a|
  {
    if a != {} {
      var x :| x in a;
      SubsetSize(a - {x}, b - {x});
    }
  }

  lemma {:induction false} AddrInjective(base: nat, i: nat, j: nat)
    requires 0 <= i < j < M
    ensures Addr(base, i) != Addr(base, j)
  {
  }

  lemma {:induction false} MetSize(base: nat, T: set<nat>, x: nat)
    requires x < M
    ensures |Met(base, T, x)| == TakenCount(base, T, x)
    decreases x
  {
    if x > 0 {
      MetSize(base, T, x - 1);
      if Free(base, T, x) {
        assert Met(base, T, x) == Met(base, T, x - 1);
      } else {
        forall o | 1 <= o < x ensures Addr(base, o) != Addr(base, x) { AddrInjective(base, o, x); }
        hide Addr;
        assert Met(base, T, x) == Met(base, T, x - 1) + {Addr(base, x)};
      }
    } else {
      assert Met(base, T, x) == {};
    }
  }

  /** If as many addresses are free up to x as up to the free address o, then o is not beyond x. */
  lemma {:induction false} RankBound(base: nat, T: set<nat>, o: nat, x: nat)
    requires o >= 1 && Free(base, T, o) && FreeCount(base, T, o) <= FreeCount(base, T, x)
    ensures o <= x
  {
    if x < o { FreeCountMono(base, T, x, o - 1); }
  }

  // ---- the addresses of a run of the BSS setup loop ----

  /** Automatic BSSs among 1..j. */
  function AutoCount(bssids: seq<Mac>, j: nat): nat
    requires j < |bssids|
  {
    if j == 0 then 0 else AutoCount(bssids, j - 1) + if Auto(bssids, j) then 1 else 0
  }

  lemma {:induction false} PreviousCount(bssids: seq<Mac>, j: nat)
    requires 1 <= j <= |bssids|
    ensures AutoCount(bssids, Previous(bssids, j)) == AutoCount(bssids, j - 1)
    ensures Previous(bssids, j) == 0 ==> AutoCount(bssids, j - 1) == 0
    ensures Previous(bssids, j) == 0 || Auto(bssids, Previous(bssids, j))
    decreases j
  {
    if j > 1 && !Auto(bssids, j - 1) { PreviousCount(bssids, j - 1); }
  }

  lemma {:induction false} AutoCountMono(bssids: seq<Mac>, i: nat, j: nat)
    requires i <= j < |bssids|
    ensures AutoCount(bssids, i) <= AutoCount(bssids, j) <= j
    ensures i < j && Auto(bssids, j) ==> AutoCount(bssids, i) < AutoCount(bssids, j)
    decreases j
  {
    if j > 0 { AutoCountMono(bssids, if i < j then i else i - 1, j - 1); }
  }

  lemma {:induction false} AddrAdd(base: nat, x: nat, y: nat)
    ensures Addr(Addr(base, x), y) == Addr(base, x + y)
  {
    var q := (base + x) / M;
    assert base + x == q * M + Addr(base, x);
    assert (base + x + y) % M == (Addr(base, x) + y) % M by {
      DivUnique(base + x + y, M, (Addr(base, x) + y) / M + q, (Addr(base, x) + y) % M);
    }
  }

  /** One allocation moves from one free offset to the next. */
  lemma {:induction false} NextFreeFrom(r: nat, T: set<nat>, o: nat, t: nat, x: nat)
    requires NextFree(Addr(r, o), T, t, x)
    ensures x == Addr(r, o + t) && Free(r, T, o + t)
    ensures FreeCount(r, T, o + t) == FreeCount(r, T, o) + 1
  {
    forall y | o < y < o + t ensures !Free(r, T, y) {
      AddrAdd(r, o, y - o);
      assert !Free(Addr(r, o), T, y - o);
    }
    AddrAdd(r, o, t);
    NextFreeCount(r, T, o, o + t - 1, o + t);
  }

  /** The address of the first or an automatic BSS j is the AutoCount(j)-th free one after the radio's. */
  lemma {:induction false} AutoOffset(radio: Mac, bssids: seq<Mac>, addrs: seq<Mac>, j: nat) returns (o: nat)
    requires Assigned(radio, bssids, addrs) && j < |bssids|
    requires j == 0 || Auto(bssids, j)
    ensures Num(addrs[j]) == Addr(Num(radio), o)
    ensures FreeCount(Num(radio), Taken(bssids), o) == AutoCount(bssids, j)
    ensures j == 0 ==> o == 0
    ensures j > 0 ==> o > 0 && Free(Num(radio), Taken(bssids), o)
    decreases j
  {
    var r, T := Num(radio), Taken(bssids);
    MacBound(radio);
    if j == 0 {
      o := 0;
    } else {
      var p := Previous(bssids, j);
      PreviousCount(bssids, j);
      var o' := AutoOffset(radio, bssids, addrs, p);
      assert AddressOk(radio, bssids, addrs, j);
      var t: nat :| NextFree(Num(addrs[p]), T, t, Num(addrs[j]));
      NextFreeFrom(r, T, o', t, Num(addrs[j]));
      o := o' + t;
    }
  }

  lemma {:induction false} TakenSize(bssids: seq<Mac>)
    ensures |Taken(bssids)| <= |bssids|
    decreases |bssids|
  {
    if bssids == [] {
      assert Taken(bssids) == {};
    } else {
      var n := |bssids| - 1;
      TakenSize(bssids[..n]);
      assert forall j :: 0 <= j < n ==> bssids[..n][j] == bssids[j];
      assert Taken(bssids) <= Taken(bssids[..n]) + {Num(bssids[n])};
      SubsetSize(Taken(bssids), Taken(bssids[..n]) + {Num(bssids[n])});
    }
  }

  lemma {:induction false} ManyAddresses()
    ensures 2 * Pow2(32) < M
  {
    hide Pow2;
    MacCount();
    Pow2Mono(33, 47);
    Pow2Succ(32);
    Pow2Succ(47);
  }

  /** Offsets of automatic addresses stay below the number of BSSs times two, so they never lap the radio. */
  lemma {:induction false} OffsetBound(radio: Mac, bssids: seq<Mac>, o: nat, k: nat)
    requires |bssids| < Pow2(32) && k < |bssids|
    requires o == 0 || Free(Num(radio), Taken(bssids), o)
    requires FreeCount(Num(radio), Taken(bssids), o) == k
    ensures o < M
  {
    hide Pow2, Num, Taken, Free, FreeCount;
    var r, T := Num(radio), Taken(bssids);
    TakenSize(bssids);
    ManyAddresses();
    TakenAtMost(r, T, k + |T|);
    CountsAddUp(r, T, k + |T|);
    if o > 0 { RankBound(r, T, o, k + |T|); }
  }

  predicate Distinct(addrs: seq<Mac>) {
    forall i, j :: 0 <= i < j < |addrs| ==> addrs[i] != addrs[j]
  }

  /** No two BSSs get the same address. */
  lemma {:induction false} DistinctAddresses(radio: Mac, bssids: seq<Mac>, addrs: seq<Mac>)
    requires Assigned(radio, bssids, addrs) && |bssids| < Pow2(32) && DistinctConfigured(bssids)
    ensures Distinct(addrs)
  {
    forall i, j | 0 <= i < j < |addrs| ensures addrs[i] != addrs[j] {
      PairDistinct(radio, bssids, addrs, i, j);
    }
  }

  lemma {:induction false} PairDistinct(radio: Mac, bssids: seq<Mac>, addrs: seq<Mac>, i: nat, j: nat)
    requires Assigned(radio, bssids, addrs) && |bssids| < Pow2(32) && DistinctConfigured(bssids)
    requires i < j < |addrs|
    ensures addrs[i] != addrs[j]
  {
    hide Num, Addr, Pow2;
    assert AddressOk(radio, bssids, addrs, j);
    assert i >= 1 ==> AddressOk(radio, bssids, addrs, i);
    var k := if Auto(bssids, j) then j else i;
    if k == 0 || Auto(bssids, k) {
      AutoCountMono(bssids, i, j);
      AutoCountMono(bssids, k, |bssids| - 1);
      var o := AutoOffset(radio, bssids, addrs, k);
      OffsetBound(radio, bssids, o, AutoCount(bssids, k));
      if Auto(bssids, j) && (i == 0 || Auto(bssids, i)) {
        var o' := AutoOffset(radio, bssids, addrs, i);
        OffsetBound(radio, bssids, o', AutoCount(bssids, i));
        AddrInjective(Num(radio), if o < o' then o else o', if o < o' then o' else o);
      }
    }
  }

  // ---- the aligned block ----

  predicate InBlock(radio: Mac, bits: nat, a: Mac) {
    Num(radio) <= Num(a) < Num(radio) + Pow2(bits)
  }

  /** The block starting at an aligned radio address does not reach past the last MAC address. */
  lemma {:induction false} BlockFits(radio: Mac, bits: nat)
    requires Low(Num(radio), bits) == 0 && bits <= 48
    ensures Num(radio) + Pow2(bits) <= M
  {
    MacBound(radio);
    ShrLowSplit(Num(radio), bits);
    Pow2Add(48 - bits, bits);
    NextMultiple(Shr(Num(radio), bits), Pow2(48 - bits), Pow2(bits));
  }

  lemma NextMultiple(q: nat, p: nat, b: nat)
    requires q * b < p * b
    ensures q * b + b <= p * b
  {
    assert q < p;
    assert (q + 1) * b <= p * b;
  }

  /** Agreeing with an aligned radio address above the low bits means lying in its block. */
  lemma {:induction false} SharedPrefixInBlock(radio: Mac, bits: nat, a: Mac)
    requires Low(Num(radio), bits) == 0 && Shr(Num(a), bits) == Shr(Num(radio), bits)
    ensures InBlock(radio, bits, a)
  {
    ShrLowSplit(Num(radio), bits);
    ShrLowSplit(Num(a), bits);
  }

  /** The first BSS has a configured BSSID that is not the radio's own address, and so is never used. */
  predicate FirstSpare(radio: Mac, bssids: seq<Mac>) {
    bssids != [] && !Auto(bssids, 0) && bssids[0] != radio
  }

  /** The configured addresses of BSSs 0..j other than the radio's own. */
  ghost function Elsewhere(radio: Mac, bssids: seq<Mac>, j: nat): set<nat>
    requires j < |bssids|
  {
    set i | 0 <= i <= j && !Auto(bssids, i) && bssids[i] != radio :: Num(bssids[i])
  }

  lemma {:induction false} ElsewhereSize(radio: Mac, bssids: seq<Mac>, j: nat)
    requires j < |bssids| && DistinctConfigured(bssids)
    requires forall i :: 1 <= i <= j ==> bssids[i] != radio || Auto(bssids, i)
    ensures |Elsewhere(radio, bssids, j)| ==
      j - AutoCount(bssids, j) + if FirstSpare(radio, bssids) then 1 else 0
    decreases j
  {
    hide Num, Elsewhere, DistinctConfigured;
    if j == 0 {
      FirstElsewhere(radio, bssids);
    } else {
      ElsewhereSize(radio, bssids, j - 1);
      ElsewhereStep(radio, bssids, j);
      if !Auto(bssids, j) { NewElsewhere(radio, bssids, j); }
    }
  }

  lemma {:induction false} FirstElsewhere(radio: Mac, bssids: seq<Mac>)
    requires bssids != []
    ensures Elsewhere(radio, bssids, 0) == if FirstSpare(radio, bssids) then {Num(bssids[0])} else {}
  {
    hide Num;
  }

  lemma {:induction false} ElsewhereStep(radio: Mac, bssids: seq<Mac>, j: nat)
    requires 0 < j < |bssids| && (bssids[j] != radio || Auto(bssids, j))
    ensures Elsewhere(radio, bssids, j)
         == Elsewhere(radio, bssids, j - 1) + if Auto(bssids, j) then {} else {Num(bssids[j])}
  {
    hide Num;
  }

  lemma {:induction false} NewElsewhere(radio: Mac, bssids: seq<Mac>, j: nat)
    requires 0 < j < |bssids| && DistinctConfigured(bssids) && !Auto(bssids, j)
    ensures Num(bssids[j]) !in Elsewhere(radio, bssids, j - 1)
  {
    hide Num;
    if Num(bssids[j]) in Elsewhere(radio, bssids, j - 1) {
      var i :| 0 <= i <= j - 1 && !Auto(bssids, i) && Num(bssids[i]) == Num(bssids[j]);
      NumInjective(bssids[i], bssids[j]);
      assert false;
    }
  }

  /** Exactly these are taken inside the block. */
  lemma {:induction false} TakenInBlock(radio: Mac, bssids: seq<Mac>, bits: nat)
    requires bssids != [] && Validated(radio, bssids, bits)
    ensures Met(Num(radio), Taken(bssids), Pow2(bits) - 1) == Elsewhere(radio, bssids, |bssids| - 1)
  {
    hide Num, Pow2, Shr, Low;
    var r, T, n, B := Num(radio), Taken(bssids), |bssids|, Pow2(bits);
    BlockFits(radio, bits);
    forall j | 0 <= j < n && !Auto(bssids, j) && bssids[j] != radio
      ensures Num(bssids[j]) in Met(r, T, B - 1)
    {
      SharedPrefixInBlock(radio, bits, bssids[j]);
      if Num(bssids[j]) == r { NumInjective(bssids[j], radio); }
      var o := Num(bssids[j]) - r;
      assert Addr(r, o) == Num(bssids[j]);
      assert !Free(r, T, o);
    }
    forall o | 1 <= o < B && !Free(r, T, o) ensures Addr(r, o) in Elsewhere(radio, bssids, n - 1) {
      assert Addr(r, o) == r + o;
      var j :| 0 <= j < n && Num(bssids[j]) == r + o;
      EmptyIsZero(bssids[j]);
      assert Num(bssids[j]) in Elsewhere(radio, bssids, n - 1);
    }
  }

  lemma {:induction false} AddrInBlock(r: nat, o: nat, B: nat)
    requires r + B <= M && r < M && o < M
    ensures r <= Addr(r, o) < r + B <==> o < B
  {
  }

  /** Automatic BSS j lies in the block exactly when the block has that many free addresses after the radio's. */
  lemma {:induction false} AutoInBlock(radio: Mac, bssids: seq<Mac>, addrs: seq<Mac>, bits: nat, j: nat)
    requires Assigned(radio, bssids, addrs) && Validated(radio, bssids, bits) && |bssids| < Pow2(32)
    requires 1 <= j < |bssids| && Auto(bssids, j)
    ensures InBlock(radio, bits, addrs[j]) <==>
      AutoCount(bssids, j) <= FreeCount(Num(radio), Taken(bssids), Pow2(bits) - 1)
  {
    hide Num, Pow2, Shr, Low, Free, FreeCount, Taken, Covers, Addr, Auto;
    var r, T, B := Num(radio), Taken(bssids), Pow2(bits);
    BlockFits(radio, bits);
    MacBound(radio);
    var o := AutoOffset(radio, bssids, addrs, j);
    AutoCountMono(bssids, j, |bssids| - 1);
    OffsetBound(radio, bssids, o, AutoCount(bssids, j));
    AddrInBlock(r, o, B);
    if o < B {
      FreeCountMono(r, T, o, B - 1);
    } else if AutoCount(bssids, j) <= FreeCount(r, T, B - 1) {
      RankBound(r, T, o, B - 1);
    }
  }

  lemma {:induction false} EachInBlock(radio: Mac, bssids: seq<Mac>, addrs: seq<Mac>, bits: nat, j: nat)
    requires Assigned(radio, bssids, addrs) && Validated(radio, bssids, bits) && |bssids| < Pow2(32)
    requires j < |bssids|
    ensures InBlock(radio, bits, addrs[j]) <==>
      (j == 0 || !Auto(bssids, j) ||
       AutoCount(bssids, j) <= FreeCount(Num(radio), Taken(bssids), Pow2(bits) - 1))
  {
    hide Num, Pow2, Shr, Low, FreeCount, Taken;
    if j > 0 && Auto(bssids, j) {
      AutoInBlock(radio, bssids, addrs, bits, j);
    } else {
      assert j > 0 ==> AddressOk(radio, bssids, addrs, j);
      SharedPrefixInBlock(radio, bits, addrs[j]);
    }
  }

  lemma {:induction false} AssignedFacts(radio: Mac, bssids: seq<Mac>, addrs: seq<Mac>, bits: nat)
    requires Assigned(radio, bssids, addrs) && Validated(radio, bssids, bits)
    ensures 1 <= |addrs| == |bssids| <= Pow2(bits)
    ensures forall i :: 1 <= i < |bssids| ==> bssids[i] != radio || Auto(bssids, i)
  {
    assert forall i :: 1 <= i < |bssids| && bssids[i] == radio ==> AddressOk(radio, bssids, addrs, i);
  }

  /** How many addresses after the radio's are free in the block. */
  lemma {:induction false} FreeInBlock(radio: Mac, bssids: seq<Mac>, bits: nat)
    requires bssids != [] && Validated(radio, bssids, bits) && DistinctConfigured(bssids)
    requires forall i :: 1 <= i < |bssids| ==> bssids[i] != radio || Auto(bssids, i)
    ensures FreeCount(Num(radio), Taken(bssids), Pow2(bits) - 1) ==
      Pow2(bits) - |bssids| + AutoCount(bssids, |bssids| - 1) - if FirstSpare(radio, bssids) then 1 else 0
  {
    hide Num, Pow2, Shr, Low, FreeCount, TakenCount, Taken, Met, Elsewhere, AutoCount, Covers, DistinctConfigured;
    var r, T, n, B := Num(radio), Taken(bssids), |bssids|, Pow2(bits);
    TakenInBlock(radio, bssids, bits);
    ElsewhereSize(radio, bssids, n - 1);
    BlockFits(radio, bits);
    MetSize(r, T, B - 1);
    CountsAddUp(r, T, B - 1);
  }

  /**
   * Once validation and setup have succeeded, every BSS lies in the aligned 2^bits block that starts
   * at the radio's address exactly when the first BSS does not waste an address, or one is to spare.
   */
  lemma {:induction false} AllInBlock(radio: Mac, bssids: seq<Mac>, addrs: seq<Mac>, bits: nat)
    requires Assigned(radio, bssids, addrs) && Validated(radio, bssids, bits) && HasAuto(bssids)
    requires DistinctConfigured(bssids) && |bssids| < Pow2(32)
    ensures (forall j :: 0 <= j < |addrs| ==> InBlock(radio, bits, addrs[j])) <==>
      !FirstSpare(radio, bssids) || |bssids| < Pow2(bits)
  {
    hide Num, Pow2, FreeCount, Taken, Validated, Assigned, InBlock, HasAuto, DistinctConfigured, Auto, AutoCount;
    AssignedFacts(radio, bssids, addrs, bits);
    FreeInBlock(radio, bssids, bits);
    LastAuto(bssids);
    EachInBlock(radio, bssids, addrs, bits, Previous(bssids, |bssids|));
    if !FirstSpare(radio, bssids) || |bssids| < Pow2(bits) {
      forall j | 0 <= j < |addrs| ensures InBlock(radio, bits, addrs[j]) {
        EachInBlock(radio, bssids, addrs, bits, j);
        AutoCountMono(bssids, j, |bssids| - 1);
      }
    }
  }

  /** The last automatic BSS counts them all. */
  lemma {:induction false} LastAuto(bssids: seq<Mac>)
    requires HasAuto(bssids)
    ensures var p := Previous(bssids, |bssids|);
      p >= 1 && Auto(bssids, p) && AutoCount(bssids, p) == AutoCount(bssids, |bssids| - 1)
  {
    PreviousCount(bssids, |bssids|);
    var j :| 1 <= j < |bssids| && Auto(bssids, j);
    AutoCountMono(bssids, 0, j);
    AutoCountMono(bssids, j, |bssids| - 1);
  }
}
