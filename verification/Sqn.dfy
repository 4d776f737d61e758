/** Sequence numbers of hlr_auc_gw.c: SQN = SEQ | IND in 48 bits (3GPP TS 33.102, Annex C.3.2). */
module Sqn {
  import opened Bits
  import opened MacAddress

  type IndLen = k: nat | k <= 30

  /** Number of different SQN values. */
  function Limit(): (r: nat)
    ensures r > 0
  {
    Pow2(48)
  }

  /** Number of different IND values. */
  function IndCount(k: IndLen): (r: nat)
    ensures r > 0
  {
    Pow2(k)
  }

  /** Number of different SEQ values. */
  function SeqCount(k: IndLen): (r: nat)
    ensures r > 0
  {
    Pow2(48 - k)
  }

  function Quotient(v: nat, p: nat): nat
    requires p > 0
  {
    v / p
  }

  /** SEQ, the high 48 - k bits. */
  function Seq(v: nat, k: IndLen): nat {
    Quotient(v, IndCount(k))
  }

  /** IND, the low k bits. */
  function Ind(v: nat, k: IndLen): nat {
    v % IndCount(k)
  }

  lemma {:induction false} Counts(k: IndLen)
    ensures SeqCount(k) * IndCount(k) == Limit() && SeqCount(k) >= 2
  {
    Pow2Add(48 - k, k);
    Pow2Mono(1, 48 - k);
  }

  /** The new value as inc_sqn computes it, before it is cut to six octets. */
  function Raised(v: nat, k: IndLen): nat {
    BitOr((Shr(v, k) + 1) * Pow2(k), BitAnd(v + 1, Pow2(k) - 1))
  }

  function Next(v: nat, k: IndLen): (r: nat)
    ensures r < Limit()
  {
    Raised(v, k) % Limit()
  }

  lemma {:induction false} RaisedParts(v: nat, k: IndLen)
    ensures Raised(v, k) == (Seq(v, k) + 1) * IndCount(k) + (v + 1) % IndCount(k)
  {
    ShrLow(v, k);
    ShrLow(v + 1, k);
    AndLowMask(v + 1, k);
    OrDisjoint(Shr(v, k) + 1, Low(v + 1, k), k);
  }

  lemma HighBound(v: nat, p: nat, s: nat)
    requires p > 0 && v < s * p
    ensures v / p < s
  {
    var q := v / p;
    assert (q - s) * p == q * p - s * p < 0;
  }

  /** The arithmetic of one step, with p values of IND and s of SEQ. */
  lemma StepArithmetic(v: nat, p: nat, s: nat, r: nat)
    requires p > 0 && v < s * p && r == ((v / p + 1) * p + (v + 1) % p) % (s * p)
    ensures var e := if v / p + 1 == s then 0 else v / p + 1;
      r / p == e && r % p == (v + 1) % p && r == e * p + (v + 1) % p
  {
    HighBound(v, p, s);
    var q, i := v / p, (v + 1) % p;
    var e := if q + 1 == s then 0 else q + 1;
    assert e + 1 <= s;
    DigitBound(e, i, p, s);
    DivUnique((q + 1) * p + i, s * p, if e == 0 then 1 else 0, e * p + i);
    DivUnique(r, p, e, i);
  }

  lemma ExceedsArithmetic(v: nat, p: nat, s: nat, r: nat)
    requires p > 0 && s >= 2 && v < s * p
    requires r == (if v / p + 1 == s then 0 else v / p + 1) * p + (v + 1) % p
    ensures r > v <==> v / p + 1 < s
  {
    HighBound(v, p, s);
    var q := v / p;
    assert v == q * p + v % p;
    assert (q + 1) * p == q * p + p;
    if q + 1 == s { assert q * p >= 1 * p; }
  }

  /** SEQ goes up by one, returning to 0 when exhausted, and IND cycles. */
  lemma {:induction false} NextParts(v: nat, k: IndLen)
    requires v < Limit()
    ensures Seq(v, k) < SeqCount(k)
    ensures Seq(Next(v, k), k) == (Seq(v, k) + 1) % SeqCount(k)
    ensures Ind(Next(v, k), k) == (Ind(v, k) + 1) % IndCount(k)
  {
    hide Pow2, SeqCount, IndCount, Limit, Raised;
    RaisedParts(v, k);
    Counts(k);
    HighBound(v, IndCount(k), SeqCount(k));
    RollOver(Seq(v, k), SeqCount(k));
    AddMod(v, 1, IndCount(k));
    StepArithmetic(v, IndCount(k), SeqCount(k), Next(v, k));
  }

  /** The next SQN exceeds the present one exactly when SEQ is not exhausted. */
  lemma {:induction false} NextExceeds(v: nat, k: IndLen)
    requires v < Limit()
    ensures Next(v, k) > v <==> Seq(v, k) + 1 < SeqCount(k)
  {
    hide Pow2, SeqCount, IndCount, Limit, Raised;
    RaisedParts(v, k);
    Counts(k);
    StepArithmetic(v, IndCount(k), SeqCount(k), Next(v, k));
    ExceedsArithmetic(v, IndCount(k), SeqCount(k), Next(v, k));
  }

  /** n generations in a row. */
  function After(v: nat, k: IndLen, n: nat): nat {
    if n == 0 then v else Next(After(v, k, n - 1), k)
  }

  /** n generations raise SEQ by n and move IND n places round its cycle. */
  lemma {:induction false} AfterParts(v: nat, k: IndLen, n: nat)
    requires v < Limit()
    ensures After(v, k, n) < Limit() && Seq(v, k) < SeqCount(k)
    ensures Seq(After(v, k, n), k) == (Seq(v, k) + n) % SeqCount(k)
    ensures Ind(After(v, k, n), k) == (Ind(v, k) + n) % IndCount(k)
  {
    hide Pow2, SeqCount, IndCount, Limit, Next, Seq, Ind;
    NextParts(v, k);
    if n == 0 {
      Unreduced(v, k);
    } else {
      AfterParts(v, k, n - 1);
      NextParts(After(v, k, n - 1), k);
      AddMod(Seq(v, k) + n - 1, 1, SeqCount(k));
      AddMod(Ind(v, k) + n - 1, 1, IndCount(k));
    }
  }

  lemma {:induction false} Unreduced(v: nat, k: IndLen)
    requires Seq(v, k) < SeqCount(k)
    ensures Seq(v, k) % SeqCount(k) == Seq(v, k) && Ind(v, k) % IndCount(k) == Ind(v, k)
  {
    hide Pow2, SeqCount, IndCount, Limit, Seq;
    Small(Seq(v, k), SeqCount(k));
    Small(Ind(v, k), IndCount(k));
  }

  lemma {:induction false} Increasing(v: nat, k: IndLen, i: nat, j: nat)
    requires v < Limit() && i < j && Seq(v, k) + j < SeqCount(k)
    ensures After(v, k, i) < After(v, k, j)
    decreases j
  {
    hide Pow2, SeqCount, IndCount, Limit, Next, Seq, Ind;
    AfterParts(v, k, j - 1);
    NextExceeds(After(v, k, j - 1), k);
    Small(Seq(v, k) + j - 1, SeqCount(k));
    if i < j - 1 { Increasing(v, k, i, j - 1); }
  }

  /** The values of n generations are strictly increasing exactly when SEQ does not run out within them. */
  lemma {:induction false} StrictlyIncreasing(v: nat, k: IndLen, n: nat)
    requires v < Limit()
    ensures (forall i: nat, j: nat :: i < j <= n ==> After(v, k, i) < After(v, k, j))
       <==> Seq(v, k) + n < SeqCount(k)
  {
    hide Pow2, SeqCount, IndCount, Limit, Next, Seq, Ind;
    NextParts(v, k);
    if Seq(v, k) + n < SeqCount(k) {
      forall i: nat, j: nat | i < j <= n ensures After(v, k, i) < After(v, k, j) {
        Increasing(v, k, i, j);
      }
    } else {
      var i: nat := SeqCount(k) - 1 - Seq(v, k);
      AfterParts(v, k, i);
      Small(Seq(v, k) + i, SeqCount(k));
      NextExceeds(After(v, k, i), k);
      assert After(v, k, i + 1) == Next(After(v, k, i), k);
      assert !(After(v, k, i) < After(v, k, i + 1));
    }
  }

  /** The last SQN of all, SEQ exhausted: whatever the IND length, the next one is 0. */
  lemma {:induction false} ExhaustedReturnsToZero(k: IndLen)
    ensures Seq(Limit() - 1, k) + 1 == SeqCount(k)
    ensures Next(Limit() - 1, k) == 0 < Limit() - 1
  {
    hide Pow2, SeqCount, IndCount, Raised, Limit;
    Counts(k);
    LastArithmetic(IndCount(k), SeqCount(k), Limit());
    RaisedParts(Limit() - 1, k);
    StepArithmetic(Limit() - 1, IndCount(k), SeqCount(k), Next(Limit() - 1, k));
  }

  lemma LastArithmetic(p: nat, s: nat, l: nat)
    requires p > 0 && s >= 2 && l == s * p
    ensures l >= 2 && (l - 1) / p == s - 1 && l % p == 0
  {
    assert l == s * p + 0 && l - 1 == (s - 1) * p + (p - 1);
    DivUnique(l, p, s, 0);
    DivUnique(l - 1, p, s - 1, p - 1);
    assert s * p >= 2 * p;
  }

  /** Two of the generated numbers share IND exactly when a whole number of cycles lies between them. */
  lemma {:induction false} IndRepeats(v: nat, k: IndLen, i: nat, j: nat)
    requires v < Limit() && i <= j
    ensures Ind(After(v, k, i), k) == Ind(After(v, k, j), k) <==> (j - i) % IndCount(k) == 0
  {
    hide Pow2, SeqCount, IndCount, Limit, Next, Seq, Ind, After;
    AfterParts(v, k, i);
    AfterParts(v, k, j);
    SameRemainder(Ind(v, k) + i, Ind(v, k) + j, IndCount(k));
  }

  /* The six octets. */

  /** WPA_GET_BE32 and WPA_GET_BE16. */
  function Be32(a: int, b: int, c: int, d: int): int {
    a * 0x100_0000 + b * 0x1_0000 + c * 0x100 + d
  }

  function Be16(a: int, b: int): int {
    a * 0x100 + b
  }

  lemma {:induction false} NumSix(s: seq<byte>)
    requires |s| == 6
    ensures Num(s) == Be32(s[0], s[1], s[2], s[3]) * 0x1_0000 + Be16(s[4], s[5])
    ensures Num(s) < Limit()
  {
    NumBound(s);
    assert s[..5][..4] == s[..4] && s[..4][..3] == s[..3] && s[..3][..2] == s[..2] && s[..2][..1] == s[..1];
    var n1, n2, n3, n4, n5: int := Num(s[..1]), Num(s[..2]), Num(s[..3]), Num(s[..4]), Num(s[..5]);
    assert s[..1] == [s[0]] && Num([]) == 0;
    assert n1 == s[0] && n2 == n1 * 256 + s[1] && n3 == n2 * 256 + s[2];
    assert n4 == n3 * 256 + s[3] && n5 == n4 * 256 + s[4];
  }

  lemma {:induction false} LimitValue()
    ensures Pow2(16) == 0x1_0000 && Limit() == 0x1_0000_0000_0000
  {
    Pow2Octet();
    hide Pow2;
    Pow2Add(8, 8);
    Pow2Add(16, 16);
    Pow2Add(32, 16);
  }

  /** What WPA_PUT_BE32 and WPA_PUT_BE16 store. */
  function Stored(v: nat): (s: seq<byte>)
    ensures |s| == 6
  {
    var top, low := v / 0x1_0000, v % 0x1_0000;
    [top / 0x100_0000 % 256, top / 0x1_0000 % 256, top / 0x100 % 256, top % 256, low / 0x100, low % 0x100]
  }

  /** Storing keeps the value modulo 2^48. */
  lemma {:induction false} StoredNum(v: nat)
    ensures Num(Stored(v)) == v % Limit()
  {
    hide Num, Limit, Pow2;
    var s, top, low := Stored(v), v / 0x1_0000, v % 0x1_0000;
    NumSix(s);
    LimitValue();
    ModProduct(top, 0x100, 256);
    ModProduct(top, 0x1_0000, 256);
    ModProduct(top, 0x100_0000, 256);
    assert Be32(s[0], s[1], s[2], s[3]) == top % 0x1_0000_0000;
    assert Be16(s[4], s[5]) == low;
    DivUnique(v, 0x1_0000_0000_0000, top / 0x1_0000_0000, top % 0x1_0000_0000 * 0x1_0000 + low);
  }

  /** inc_sqn on the six-octet array. */
  method IncSqn(sqn: array<byte>, k: IndLen)
    requires sqn.Length == 6
    modifies sqn
    ensures Num(sqn[..]) == Next(Num(old(sqn[..])), k)
  {
    hide Num, Limit, Pow2, Shr, BitAnd, BitOr, Be32, Be16;
    NumSix(sqn[..]);
    Loaded(sqn[..]);
    var val := BitOr(Be32(sqn[0], sqn[1], sqn[2], sqn[3]) * 0x1_0000, Be16(sqn[4], sqn[5]));
    var newSeq := Shr(val, k) + 1;
    var ind := BitAnd(val + 1, Pow2(k) - 1);
    val := BitOr(newSeq * Pow2(k), ind);
    StoredNum(val);
    var top, low := val / 0x1_0000, val % 0x1_0000;
    sqn[0], sqn[1], sqn[2], sqn[3] := top / 0x100_0000 % 256, top / 0x1_0000 % 256, top / 0x100 % 256, top % 256;
    sqn[4], sqn[5] := low / 0x100, low % 0x100;
    assert sqn[..] == Stored(val);
  }

  /** Reading the six octets gives the number they write. */
  lemma {:induction false} Loaded(s: seq<byte>)
    requires |s| == 6
    ensures Be32(s[0], s[1], s[2], s[3]) >= 0 && Be16(s[4], s[5]) >= 0
    ensures BitOr(Be32(s[0], s[1], s[2], s[3]) * 0x1_0000, Be16(s[4], s[5])) == Num(s)
  {
    hide Num, Limit, Pow2, BitOr;
    NumSix(s);
    LimitValue();
    OrDisjoint(Be32(s[0], s[1], s[2], s[3]), Be16(s[4], s[5]), 16);
  }

  /** A Milenage subscriber; the stored SQN is what aka_req_auth and aka_auts change. */
  class Subscriber {
    const sqn: array<byte>

    constructor (initial: seq<byte>)
      requires |initial| == 6
      ensures fresh(sqn) && sqn.Length == 6 && sqn[..] == initial
    {
      var a: array<byte> := new byte[6](i requires 0 <= i < 6 => initial[i]);
      sqn := a;
      new;
      assert sqn[..] == initial;
    }

    /** The SQN part of aka_req_auth: haveRandom tells whether random octets could be had. */
    method AkaReqAuth(k: IndLen, haveRandom: bool) returns (issued: bool)
      requires sqn.Length == 6
      modifies sqn
      ensures issued == haveRandom
      ensures Num(sqn[..]) == After(Num(old(sqn[..])), k, if issued then 1 else 0)
      ensures issued && Seq(Num(old(sqn[..])), k) + 1 < SeqCount(k) ==> Num(sqn[..]) > Num(old(sqn[..]))
    {
      if !haveRandom {
        return false;
      }
      NumSix(sqn[..]);
      NextExceeds(Num(sqn[..]), k);
      hide Num, Limit, Next;
      assert After(Num(sqn[..]), k, 0) == Num(sqn[..]);
      IncSqn(sqn, k);
      return true;
    }

    /** The SQN part of aka_auts: macOk tells whether milenage_auts recovered received from AUTS. */
    method AkaAuts(macOk: bool, received: seq<byte>)
      requires sqn.Length == 6 && |received| == 6
      modifies sqn
      ensures sqn[..] == if macOk then received else old(sqn[..])
    {
      if macOk {
        forall i | 0 <= i < 6 {
          sqn[i] := received[i];
        }
        assert sqn[..] == received;
      }
    }

    /** After a resynchronisation the next SQN exceeds the one received, exactly when its SEQ is not the last. */
    method Resynchronise(received: seq<byte>, k: IndLen)
      requires sqn.Length == 6 && |received| == 6
      modifies sqn
      ensures Num(sqn[..]) > Num(received) <==> Seq(Num(received), k) + 1 < SeqCount(k)
    {
      NumSix(received);
      NextExceeds(Num(received), k);
      hide Num, Limit, Next, Seq;
      assert After(Num(received), k, 0) == Num(received);
      AkaAuts(true, received);
      var _ := AkaReqAuth(k, true);
    }
  }
}
