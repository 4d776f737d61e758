/** BSSID validation and allocation as hostapd.c performs them on octet arrays. */
module Bssid {
  import opened Bits
  import opened MacAddress
  import opened BssidSpec

  // ---- bit operators octet by octet and on whole numbers ----

  lemma {:induction false} OrConcat(a: nat, b: nat, x: nat, y: nat, k: nat)
    requires x < Pow2(k) && y < Pow2(k)
    ensures BitOr(x, y) < Pow2(k)
    ensures BitOr(a * Pow2(k) + x, b * Pow2(k) + y) == BitOr(a, b) * Pow2(k) + BitOr(x, y)
    decreases k
  {
    if k > 0 {
      OrConcat(a, b, x / 2, y / 2, k - 1);
      Halve(a, x, k); Halve(b, y, k); Halve(BitOr(a, b), BitOr(x, y), k);
      assert BitOr(x, y) / 2 == BitOr(x / 2, y / 2);
    }
  }

  lemma {:induction false} XorConcat(a: nat, b: nat, x: nat, y: nat, k: nat)
    requires x < Pow2(k) && y < Pow2(k)
    ensures BitXor(x, y) < Pow2(k)
    ensures BitXor(a * Pow2(k) + x, b * Pow2(k) + y) == BitXor(a, b) * Pow2(k) + BitXor(x, y)
    decreases k
  {
    if k > 0 {
      XorConcat(a, b, x / 2, y / 2, k - 1);
      Halve(a, x, k); Halve(b, y, k); Halve(BitXor(a, b), BitXor(x, y), k);
      assert BitXor(x, y) / 2 == BitXor(x / 2, y / 2);
    }
  }

  /** Halving a * 2^k + x. */
  lemma {:induction false} Halve(a: nat, x: nat, k: nat)
    requires k > 0
    ensures (a * Pow2(k) + x) / 2 == a * Pow2(k - 1) + x / 2
    ensures (a * Pow2(k) + x) % 2 == x % 2
  {
    assert a * Pow2(k) == 2 * (a * Pow2(k - 1));
  }

  lemma {:induction false} LowConcat(a: nat, x: nat, k: nat, l: nat)
    requires x < Pow2(k)
    ensures Low(a * Pow2(k) + x, k + l) == Low(a, l) * Pow2(k) + x
    decreases k
  {
    if k > 0 {
      Halve(a, x, k); Halve(Low(a, l), x, k);
      LowConcat(a, x / 2, k - 1, l);
      assert Low(a, l) * Pow2(k) == 2 * (Low(a, l) * Pow2(k - 1));
    }
  }

  lemma {:induction false} BitLenConcat(a: nat, x: nat, k: nat)
    requires x < Pow2(k) && a > 0
    ensures BitLen(a * Pow2(k) + x) == BitLen(a) + k
    decreases k
  {
    if k > 0 {
      var y := a * Pow2(k) + x;
      Halve(a, x, k);
      BitLenConcat(a, x / 2, k - 1);
      assert y > 0 by { Positive(a, Pow2(k)); }
      assert BitLen(y) == 1 + BitLen(y / 2);
    }
  }

  lemma Positive(a: nat, p: nat)
    requires a > 0 && p > 0
    ensures a * p > 0
  {
  }

  /** mask |= a ^ b, octet by octet. */
  function OrXor(m: seq<byte>, a: seq<byte>, b: seq<byte>): (r: seq<byte>)
    requires |m| == |a| == |b|
    ensures |r| == |m|
    decreases |m|
  {
    if m == [] then []
    else
      var n := |m| - 1;
      OctetOr(m[n], a[n], b[n]);
      OrXor(m[..n], a[..n], b[..n]) + [BitOr(m[n], BitXor(a[n], b[n]))]
  }

  lemma {:induction false} OctetOr(m: byte, a: byte, b: byte)
    ensures BitOr(m, BitXor(a, b)) < 256
  {
    assert Pow2(8) == 256;
    XorConcat(0, 0, a, b, 8);
    OrConcat(0, 0, m, BitXor(a, b), 8);
  }

  lemma {:induction false} OrXorNum(m: seq<byte>, a: seq<byte>, b: seq<byte>)
    requires |m| == |a| == |b|
    ensures Num(OrXor(m, a, b)) == BitOr(Num(m), BitXor(Num(a), Num(b)))
    decreases |m|
  {
    hide Pow2, BitOr, BitXor;
    XorZero(0, 0); OrZero(0, 0);
    if m != [] {
      var n := |m| - 1;
      OrXorNum(m[..n], a[..n], b[..n]);
      assert OrXor(m, a, b)[..n] == OrXor(m[..n], a[..n], b[..n]);
      Pow2Octet();
      XorConcat(Num(a[..n]), Num(b[..n]), a[n], b[n], 8);
      OrConcat(Num(m[..n]), BitXor(Num(a[..n]), Num(b[..n])), m[n], BitXor(a[n], b[n]), 8);
    }
  }

  /** The mask is zero from bit b up exactly when all configured BSSIDs so far agree with the radio there. */
  ghost predicate MaskOk(m: nat, radio: Mac, bssids: seq<Mac>, n: nat)
    requires n <= |bssids|
  {
    forall b: nat :: Shr(m, b) == 0 <==> Agree(radio, bssids, n, b)
  }

  ghost predicate Agree(radio: Mac, bssids: seq<Mac>, n: nat, b: nat)
    requires n <= |bssids|
  {
    forall j :: 0 <= j < n && !Auto(bssids, j) ==> Shr(Num(bssids[j]), b) == Shr(Num(radio), b)
  }

  lemma {:induction false} MaskStep(m: nat, radio: Mac, bssids: seq<Mac>, n: nat)
    requires n < |bssids| && MaskOk(m, radio, bssids, n) && !Auto(bssids, n)
    ensures MaskOk(BitOr(m, BitXor(Num(bssids[n]), Num(radio))), radio, bssids, n + 1)
  {
    hide Num;
    var x, r := Num(bssids[n]), Num(radio);
    forall b: nat ensures Shr(BitOr(m, BitXor(x, r)), b) == 0 <==> Agree(radio, bssids, n + 1, b) {
      OrShift(m, BitXor(x, r), b);
      XorShift(x, r, b);
      OrZero(Shr(m, b), BitXor(Shr(x, b), Shr(r, b)));
      XorZero(Shr(x, b), Shr(r, b));
      assert Agree(radio, bssids, n + 1, b) <==> Agree(radio, bssids, n, b) && Shr(x, b) == Shr(r, b);
    }
  }

  /** mac_in_conf */
  method MacInConf(bssids: seq<Mac>, a: seq<byte>) returns (found: bool)
    ensures found <==> a in bssids
  {
    for i := 0 to |bssids|
      invariant a !in bssids[..i]
    {
      if bssids[i] == a {
        return true;
      }
    }
    return false;
  }

  /** The BSSIDs' part of the mask, and whether some BSS but the first has none. */
  method CollectMask(radio: Mac, bssids: seq<Mac>, mask: array<byte>) returns (autoAddr: bool)
    requires mask.Length == 6 && mask[..] == EMPTY
    modifies mask
    ensures autoAddr <==> HasAuto(bssids)
    ensures MaskOk(Num(mask[..]), radio, bssids, |bssids|)
  {
    autoAddr := false;
    EmptyIsZero(EMPTY);
    forall b: nat ensures Shr(0, b) == 0 { BitLenBound(0, b); }
    for j := 0 to |bssids|
      invariant autoAddr <==> exists i :: 1 <= i < j && Auto(bssids, i)
      invariant MaskOk(Num(mask[..]), radio, bssids, j)
    {
      if bssids[j] == EMPTY {
        if j != 0 { autoAddr := true; }
        assert Auto(bssids, j);
        continue;
      }
      ghost var was := mask[..];
      MaskStep(Num(was), radio, bssids, j);
      OrXorNum(was, bssids[j], radio);
      OrOctets(mask, bssids[j], radio);
    }
  }

  /** The inner loop that folds one BSSID into the mask. */
  method OrOctets(mask: array<byte>, a: Mac, b: Mac)
    requires mask.Length == 6
    modifies mask
    ensures mask[..] == OrXor(old(mask[..]), a, b)
  {
    hide BitOr, BitXor, OrXor;
    ghost var o := mask[..];
    OrXorNone(a, b, o);
    for i := 0 to 6
      invariant mask[..i] == OrXor(o[..i], a[..i], b[..i])
      invariant forall k :: i <= k < 6 ==> mask[k] == o[k]
    {
      OctetOr(mask[i], a[i], b[i]);
      OrXorStep(o, a, b, i);
      mask[i] := BitOr(mask[i], BitXor(a[i], b[i]));
      assert mask[..i + 1] == mask[..i] + [mask[i]];
    }
    assert mask[..] == mask[..6] && o == o[..6] && a[..6] == a && b[..6] == b;
  }

  lemma {:induction false} OrXorNone(a: seq<byte>, b: seq<byte>, m: seq<byte>)
    ensures OrXor(m[..0], a[..0], b[..0]) == []
  {
  }

  lemma {:induction false} OrXorStep(m: seq<byte>, a: seq<byte>, b: seq<byte>, i: nat)
    requires i < |m| == |a| == |b|
    ensures BitOr(m[i], BitXor(a[i], b[i])) < 256
    ensures OrXor(m[..i + 1], a[..i + 1], b[..i + 1])
         == OrXor(m[..i], a[..i], b[..i]) + [BitOr(m[i], BitXor(a[i], b[i]))]
  {
    OctetOr(m[i], a[i], b[i]);
    assert m[..i + 1][..i] == m[..i] && a[..i + 1][..i] == a[..i] && b[..i + 1][..i] == b[..i];
  }

  /** Number of bits from the first non-zero octet down: the position of the highest set bit. */
  method HighestBit(mask: array<byte>) returns (j: nat)
    requires mask.Length == 6
    modifies mask
    ensures j == BitLen(old(Num(mask[..])))
  {
    ghost var was := mask[..];
    var i := 0;
    while i < 6 && mask[i] == 0
      invariant 0 <= i <= 6 && mask[..] == was
      invariant forall k :: 0 <= k < i ==> was[k] == 0
    {
      i := i + 1;
    }
    j := 0;
    if i < 6 {
      j := (5 - i) * 8;
      HighestBitAt(was, i);
      while mask[i] != 0
        invariant j + BitLen(mask[i]) == (5 - i) * 8 + BitLen(was[i])
        decreases mask[i]
      {
        mask[i] := mask[i] / 2;
        j := j + 1;
      }
    } else {
      ZeroNum(was);
    }
  }

  lemma {:induction false} HighestBitAt(s: seq<byte>, i: nat)
    requires |s| == 6 && i < 6 && s[i] != 0 && forall k :: 0 <= k < i ==> s[k] == 0
    ensures BitLen(Num(s)) == (5 - i) * 8 + BitLen(s[i])
  {
    hide BitLen, Pow2, Num;
    assert s == s[..i + 1] + s[i + 1..];
    NumConcat(s[..i + 1], s[i + 1..]);
    NumBound(s[i + 1..]);
    PrefixNum(s, i);
    BitLenConcat(s[i], Num(s[i + 1..]), 8 * (5 - i));
  }

  lemma {:induction false} PrefixNum(s: seq<byte>, i: nat)
    requires i < |s| && forall k :: 0 <= k < i ==> s[k] == 0
    ensures Num(s[..i + 1]) == s[i]
  {
    ZeroNum(s[..i]);
    assert s[..i + 1][..i] == s[..i];
  }

  /** The octets of the mask that clears the low bits. */
  function MaskOctet(bits: nat, i: nat): (m: nat)
    requires bits <= 40 && i < 6
    ensures m < 256
  {
    if i > 5 - bits / 8 then 0
    else if i == 5 - bits / 8 then MaskOctetBound(bits % 8); 256 - Pow2(bits % 8)
    else 255
  }

  lemma {:induction false} MaskOctetBound(l: nat)
    requires l < 8
    ensures 1 <= Pow2(l) <= 128 && (l > 0 ==> Pow2(l) == 2 * Pow2(l - 1))
  {
    assert Pow2(7) == 128;
    Pow2Mono(l, 7);
  }

  /** Fill in the mask with all but the low bits. */
  method BuildMask(mask: array<byte>, bits: nat)
    requires mask.Length == 6 && bits <= 40
    modifies mask
    ensures forall i :: 0 <= i < 6 ==> mask[i] == MaskOctet(bits, i)
  {
    for k := 0 to 6
      invariant forall i :: 0 <= i < k ==> mask[i] == 0xff
    {
      mask[k] := 0xff;
    }
    var j := bits / 8;
    var i := 5;
    while i > 5 - j
      invariant 5 - j <= i <= 5
      invariant forall k :: 0 <= k < 6 ==> mask[k] == if k > i then 0 else 0xff
    {
      mask[i] := 0;
      i := i - 1;
    }
    j := bits % 8;
    MaskOctetBound(j);
    ghost var s := 0;
    while j > 0
      invariant 0 <= j && s + j == bits % 8
      invariant forall k :: 0 <= k < 6 && k != i ==> mask[k] == if k > i then 0 else 0xff
      invariant mask[i] == 256 - Pow2(s) && Pow2(s) <= 128
    {
      MaskOctetBound(s + 1);
      var octet: int := mask[i];
      mask[i] := octet * 2 % 256;
      j, s := j - 1, s + 1;
    }
  }

  lemma {:induction false} LowOfOctet(a: nat, x: nat, k: nat, l: nat)
    requires l <= k
    ensures Low(a * Pow2(k) + x, l) == Low(x, l)
    decreases k
  {
    if l > 0 {
      Halve(a, x, k);
      LowOfOctet(a, x / 2, k - 1, l - 1);
    }
  }

  /** The low bits of an address are zero exactly when the octets below are and the partial one has zeros there. */
  lemma {:induction false} AlignedSplit(a: Mac, j: nat, l: nat)
    requires j <= 5 && l < 8
    ensures Low(Num(a), 8 * j + l) == 0 <==> Low(a[5 - j], l) == 0 && forall k :: 5 - j < k < 6 ==> a[k] == 0
  {
    hide Low, Num, Pow2;
    var i := 5 - j;
    var h, t := a[..i], a[i + 1..];
    assert a == a[..i + 1] + t && a[..i + 1] == h + [a[i]];
    NumConcat(a[..i + 1], t);
    NumConcat(h, [a[i]]);
    NumBound(t);
    LowConcat(Num(a[..i + 1]), Num(t), 8 * j, l);
    LowOfOctet(Num(h), a[i], 8, l);
    OneOctet(a[i]);
    ZeroNum(t);
    var p := Pow2(8 * j);
    assert Low(a[i], l) * p == 0 <==> Low(a[i], l) == 0;
    assert (forall k :: 0 <= k < |t| ==> t[k] == 0) <==> (forall k :: i < k < 6 ==> a[k] == 0) by {
      assert forall k :: 0 <= k < |t| ==> t[k] == a[k + i + 1];
      assert forall k :: i < k < 6 ==> a[k] == t[k - i - 1];
    }
  }

  lemma {:induction false} OneOctet(x: byte)
    ensures Num([x]) == x
  {
  }

  lemma {:induction false} MaskedOctet(x: byte, bits: nat, i: nat)
    requires bits <= 40 && i < 6
    ensures BitAnd(x, MaskOctet(bits, i)) == x <==>
      (i < 5 - bits / 8 || (i == 5 - bits / 8 && Low(x, bits % 8) == 0) || (i > 5 - bits / 8 && x == 0))
  {
    Pow2Octet();
    AndHighMask(x, 8, bits % 8);
    AndAllOnes(x, 8);
  }

  /** Clearing the low bits octet by octet changes nothing exactly when they are all zero. */
  lemma {:induction false} AlignedOctets(a: Mac, bits: nat)
    requires bits <= 40
    ensures Low(Num(a), bits) == 0 <==> forall i :: 0 <= i < 6 ==> BitAnd(a[i], MaskOctet(bits, i)) == a[i]
  {
    hide Low, Num, BitAnd, MaskOctet;
    AlignedSplit(a, bits / 8, bits % 8);
    forall i | 0 <= i < 6
      ensures BitAnd(a[i], MaskOctet(bits, i)) == a[i] <==>
        (i < 5 - bits / 8 || (i == 5 - bits / 8 && Low(a[i], bits % 8) == 0) || (i > 5 - bits / 8 && a[i] == 0))
    {
      MaskedOctet(a[i], bits, i);
    }
  }

  /** Shift out n bit by bit. */
  method CountBits(n: nat) returns (bits: nat)
    ensures bits == BitLen(n)
  {
    bits := 0;
    var i := n;
    while i != 0
      invariant bits + BitLen(i) == BitLen(n)
    {
      i := i / 2;
      bits := bits + 1;
    }
  }

  /** Does clearing the masked-out bits leave every octet of the address as it is? */
  method StartsBlock(radio: Mac, mask: array<byte>) returns (ok: bool)
    requires mask.Length == 6
    ensures ok <==> forall i :: 0 <= i < 6 ==> BitAnd(radio[i], mask[i]) == radio[i]
  {
    for i := 0 to 6
      invariant forall l :: 0 <= l < i ==> BitAnd(radio[l], mask[l]) == radio[l]
    {
      if BitAnd(radio[i], mask[i]) != radio[i] {
        return false;
      }
    }
    return true;
  }

  /** hostapd_validate_bssid_configuration, and the width of the BSSID block it settles on. */
  method ValidateBssidConfiguration(driverNone: bool, radio: Mac, bssids: seq<Mac>) returns (ok: bool, bits: nat)
    requires 1 <= |bssids| < Pow2(32)
    ensures driverNone || !HasAuto(bssids) ==> ok
    ensures !driverNone && HasAuto(bssids) ==>
      Covers(radio, bssids, bits) && forall b: nat :: b < bits ==> !Covers(radio, bssids, b)
    ensures !driverNone && HasAuto(bssids) ==> (ok <==> Validated(radio, bssids, bits))
    ensures !driverNone && HasAuto(bssids) ==> (ok <==> bits <= 40 && Num(radio) % Pow2(bits) == 0)
  {
    hide Num, Low, BitAnd, MaskOctet, MaskOk, HasAuto, Covers, BitLen;
    if driverNone {
      return true, 0;
    }
    var mask := new byte[6](_ => 0);
    assert mask[..] == EMPTY;
    bits := CountBits(|bssids| - 1);
    var autoAddr := CollectMask(radio, bssids, mask);
    if !autoAddr {
      return true, bits;
    }
    ghost var m := Num(mask[..]);
    var j := HighestBit(mask);
    if bits < j {
      bits := j;
    }
    LeastCover(radio, bssids, m);
    ShrLow(Num(radio), bits);
    if bits > 40 {
      return false, bits;
    }
    BuildMask(mask, bits);
    AlignedOctets(radio, bits);
    ok := StartsBlock(radio, mask);
  }

  /** The larger of the two bit counts is the least number of bits that covers all BSSs. */
  lemma {:induction false} LeastCover(radio: Mac, bssids: seq<Mac>, m: nat)
    requires bssids != [] && MaskOk(m, radio, bssids, |bssids|)
    ensures forall b: nat :: Covers(radio, bssids, b) <==> BitLen(|bssids| - 1) <= b && BitLen(m) <= b
  {
    forall b: nat ensures Covers(radio, bssids, b) <==> BitLen(|bssids| - 1) <= b && BitLen(m) <= b {
      BitLenBound(|bssids| - 1, b);
      BitLenBound(m, b);
      assert Shr(m, b) == 0 <==> Agree(radio, bssids, |bssids|, b);
    }
  }

  /** The do-while loop of hostapd_setup_bss: step to the next address that is not configured. */
  method AllocateNext(own: array<byte>, bssids: seq<Mac>) returns (ghost t: nat)
    requires own.Length == 6 && |bssids| < Pow2(32)
    modifies own
    ensures NextFree(Num(old(own[..])), Taken(bssids), t, Num(own[..]))
  {
    hide Num, Pow2;
    ghost var base, T := Num(own[..]), Taken(bssids);
    TakenSize(bssids);
    IncByteArray(own);
    MacBound(old(own[..]));
    Stepped(own[..], old(own[..]), base, 0, bssids);
    t := 1;
    var again := MacInConf(bssids, own[..]);
    while again
      invariant t >= 1 && Num(own[..]) == Addr(base, t)
      invariant again <==> !Free(base, T, t)
      invariant forall s :: 1 <= s < t ==> !Free(base, T, s)
      decreases |T| + 1 - t
    {
      AllTaken(base, T, t, bssids);
      ghost var prev := own[..];
      IncByteArray(own);
      Stepped(own[..], prev, base, t, bssids);
      t := t + 1;
      again := MacInConf(bssids, own[..]);
    }
  }

  /** One increment is one step, and a configured address is a taken one. */
  lemma {:induction false} Stepped(a: Mac, prev: Mac, base: nat, t: nat, bssids: seq<Mac>)
    requires a == Inc(prev) && Num(prev) == Addr(base, t)
    ensures Num(a) == Addr(base, t + 1)
    ensures a in bssids <==> Num(a) in Taken(bssids)
  {
    hide Num, Inc, Pow2;
    IncNum(prev);
    MacBound(prev);
    AddrAdd(base, t, 1);
    if Num(a) in Taken(bssids) {
      var j :| 0 <= j < |bssids| && Num(bssids[j]) == Num(a);
      NumInjective(bssids[j], a);
    }
  }

  /** The taken addresses cannot fill a longer run than there are of them. */
  lemma {:induction false} AllTaken(base: nat, T: set<nat>, t: nat, bssids: seq<Mac>)
    requires |T| <= |bssids| < Pow2(32)
    requires forall s :: 1 <= s <= t ==> !Free(base, T, s)
    ensures t <= |T|
  {
    hide Pow2, Num;
    var x := if t <= |T| then t else |T| + 1;
    ManyAddresses();
    RunTaken(base, T, x);
    TakenAtMost(base, T, x);
  }

  lemma {:induction false} RunTaken(base: nat, T: set<nat>, x: nat)
    requires forall s :: 1 <= s <= x ==> !Free(base, T, s)
    ensures TakenCount(base, T, x) == x
    decreases x
  {
    if x > 0 { RunTaken(base, T, x - 1); }
  }

  /** The BSS loop of hostapd_setup_interface_complete; bssOk[j] is the outcome of the rest of BSS j's setup. */
  method SetupBssAddresses(radio: Mac, bssids: seq<Mac>, bssOk: seq<bool>) returns (ok: bool, addrs: seq<Mac>)
    requires 1 <= |bssids| == |bssOk| < Pow2(32)
    ensures ok ==> Assigned(radio, bssids, addrs)
    ensures ok <==> forall j :: 0 <= j < |bssids| ==> bssOk[j] && (1 <= j && !Auto(bssids, j) ==> bssids[j] != radio)
  {
    hide Num, Pow2, NextFree, Taken, AddressOk;
    addrs := [];
    var prev := radio;
    for j := 0 to |bssids|
      invariant |addrs| == j && (j >= 1 ==> addrs[0] == radio)
      invariant prev == if j == 0 then radio else addrs[Previous(bssids, j)]
      invariant forall i :: 1 <= i < j ==> AddressOk(radio, bssids, addrs, i)
      invariant forall i :: 0 <= i < j ==> bssOk[i] && (1 <= i && !Auto(bssids, i) ==> bssids[i] != radio)
    {
      var own := new byte[6](i requires 0 <= i < 6 => prev[i]);
      assert own[..] == prev;
      if j != 0 {
        if bssids[j] == EMPTY {
          ghost var t := AllocateNext(own, bssids);
          AutoAddressOk(radio, bssids, addrs, own[..], t);
        } else {
          if bssids[j] == radio {
            return false, addrs;
          }
          forall i | 0 <= i < 6 { own[i] := bssids[j][i]; }
          assert own[..] == bssids[j];
          GivenAddressOk(radio, bssids, addrs);
        }
      }
      if !bssOk[j] {
        return false, addrs;
      }
      AddressesKept(radio, bssids, addrs, own[..]);
      addrs := addrs + [own[..]];
      if bssids[j] == EMPTY {
        prev := own[..];
      }
    }
    return true, addrs;
  }

  lemma {:induction false} AutoAddressOk(radio: Mac, bssids: seq<Mac>, addrs: seq<Mac>, own: Mac, t: nat)
    requires 1 <= |addrs| < |bssids| && Auto(bssids, |addrs|)
    requires NextFree(Num(addrs[Previous(bssids, |addrs|)]), Taken(bssids), t, Num(own))
    ensures AddressOk(radio, bssids, addrs + [own], |addrs|)
  {
    hide NextFree, Taken, Num, Previous;
    var all, j, p := addrs + [own], |addrs|, Previous(bssids, |addrs|);
    assert all[p] == addrs[p] && all[j] == own;
    assert NextFree(Num(all[p]), Taken(bssids), t, Num(all[j]));
  }

  lemma {:induction false} GivenAddressOk(radio: Mac, bssids: seq<Mac>, addrs: seq<Mac>)
    requires 1 <= |addrs| < |bssids| && !Auto(bssids, |addrs|) && bssids[|addrs|] != radio
    ensures AddressOk(radio, bssids, addrs + [bssids[|addrs|]], |addrs|)
  {
  }

  lemma {:induction false} AddressesKept(radio: Mac, bssids: seq<Mac>, addrs: seq<Mac>, own: Mac)
    requires |addrs| < |bssids|
    ensures forall i :: 1 <= i < |addrs| && AddressOk(radio, bssids, addrs, i) ==>
      AddressOk(radio, bssids, addrs + [own], i)
  {
    hide NextFree, Taken, Num, Previous;
    var all := addrs + [own];
    forall i: nat | 1 <= i < |addrs| && AddressOk(radio, bssids, addrs, i)
      ensures AddressOk(radio, bssids, all, i)
    {
      assert all[i] == addrs[i];
      if Auto(bssids, i) {
        var p := Previous(bssids, i);
        assert all[p] == addrs[p];
        var t: nat :| NextFree(Num(addrs[p]), Taken(bssids), t, Num(addrs[i]));
        assert NextFree(Num(all[p]), Taken(bssids), t, Num(all[i]));
      }
    }
  }

  /** The duplicate check of hostapd_config_check_bss over all BSSs. */
  method CheckDuplicates(bssids: seq<Mac>) returns (ok: bool)
    ensures ok <==> DistinctConfigured(bssids)
  {
    for k := 0 to |bssids|
      invariant forall i, j :: 0 <= i < |bssids| && 0 <= j < k && i != j && !Auto(bssids, j) ==> bssids[i] != bssids[j]
    {
      if bssids[k] != EMPTY {
        for i := 0 to |bssids|
          invariant forall l :: 0 <= l < i && l != k ==> bssids[l] != bssids[k]
        {
          if i != k && bssids[i] == bssids[k] {
            assert !Auto(bssids, k) && !Auto(bssids, i);
            return false;
          }
        }
      }
    }
    return true;
  }

  /** Duplicate check, validation and setup one after the other: what a started radio looks like. */
  method StartInterface(driverNone: bool, radio: Mac, bssids: seq<Mac>, bssOk: seq<bool>)
    returns (ok: bool, addrs: seq<Mac>, bits: nat)
    requires 1 <= |bssids| == |bssOk| < Pow2(32)
    ensures ok ==> |addrs| == |bssids| && addrs[0] == radio && Distinct(addrs)
    ensures ok ==> forall j :: 1 <= j < |bssids| && !Auto(bssids, j) ==> addrs[j] == bssids[j]
    ensures ok && !driverNone && HasAuto(bssids) ==>
      ((forall j :: 0 <= j < |addrs| ==> InBlock(radio, bits, addrs[j])) <==>
       (!FirstSpare(radio, bssids) || |bssids| < Pow2(bits)))
  {
    hide Num, Pow2, Validated, InBlock, HasAuto, DistinctConfigured, NextFree, Taken;
    addrs, bits := [], 0;
    ok := CheckDuplicates(bssids);
    if !ok { return; }
    ok, bits := ValidateBssidConfiguration(driverNone, radio, bssids);
    if !ok { return; }
    ok, addrs := SetupBssAddresses(radio, bssids, bssOk);
    if !ok { return; }
    DistinctAddresses(radio, bssids, addrs);
    assert forall j :: 1 <= j < |bssids| && !Auto(bssids, j) ==> AddressOk(radio, bssids, addrs, j);
    if !driverNone && HasAuto(bssids) {
      AllInBlock(radio, bssids, addrs, bits);
    }
  }

  function Neighbour(x: byte): Mac { [2, 0, 0, 0, 0, x] }

  lemma {:induction false} NeighbourNum(x: byte)
    ensures Num(Neighbour(x)) == Num([2, 0, 0, 0, 0]) * 256 + x
    ensures Num(Neighbour(x)) < M
  {
    assert Neighbour(x)[..5] == [2, 0, 0, 0, 0];
    MacBound(Neighbour(x));
  }

  /** A first BSSID next to the radio's own address pushes an automatic one out of the block. */
  lemma {:induction false} SpareLeavesBlock() returns (radio: Mac, bssids: seq<Mac>, addrs: seq<Mac>)
    ensures Assigned(radio, bssids, addrs) && Validated(radio, bssids, 1) && HasAuto(bssids)
    ensures DistinctConfigured(bssids) && |addrs| == 2 && !InBlock(radio, 1, addrs[1])
  {
    hide Num, Shr, Low;
    radio, bssids, addrs := Neighbour(0), [Neighbour(1), EMPTY], [Neighbour(0), Neighbour(2)];
    var r, p := Num(radio), Num([2, 0, 0, 0, 0]);
    NeighbourNum(0); NeighbourNum(1); NeighbourNum(2);
    EmptyIsZero(EMPTY);
    assert Auto(bssids, 1) && !Auto(bssids, 0);
    assert Taken(bssids) == {r + 1, 0} by {
      assert Num(bssids[0]) in Taken(bssids) && Num(bssids[1]) in Taken(bssids);
    }
    assert Addr(r, 1) == r + 1 && Addr(r, 2) == r + 2;
    assert NextFree(Num(addrs[Previous(bssids, 1)]), Taken(bssids), 2, Num(addrs[1]));
    assert AddressOk(radio, bssids, addrs, 1);
    assert Pow2(1) == 2;
    OneBit(r); OneBit(r + 1);
    assert r / 2 == p * 128 && (r + 1) / 2 == p * 128 && r % 2 == 0;
  }

  lemma {:induction false} OneBit(x: nat)
    ensures Shr(x, 1) == x / 2 && Low(x, 1) == x % 2
  {
    assert Shr(x / 2, 0) == x / 2 && Low(x / 2, 0) == 0;
  }
}
