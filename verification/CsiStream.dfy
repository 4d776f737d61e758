/** The CSI payload as a little-endian bit stream of 10-bit two's complement samples. */
module CsiStream {
  import opened Bits

  type bit = x: int | 0 <= x < 2

  /** The n low bits of x, least significant first. */
  function ToBits(x: nat, n: nat): (bs: seq<bit>)
    ensures |bs| == n
  {
    if n == 0 then [] else [x % 2] + ToBits(x / 2, n - 1)
  }

  /** The number with these bits, least significant first. */
  function FromBits(bs: seq<bit>): nat {
    if bs == [] then 0 else bs[0] + 2 * FromBits(bs[1..])
  }

  /** All bits of the buffer, octet by octet, each least significant bit first. */
  function StreamBits(buf: seq<byte>): (bs: seq<bit>)
    ensures |bs| == 8 * |buf|
  {
    if buf == [] then [] else StreamBits(buf[..|buf| - 1]) + ToBits(buf[|buf| - 1], 8)
  }

  /** bit_convert and signbit_convert: read the maxbit low bits as a signed number. */
  function BitConvert(data: nat, maxbit: nat): int
    requires maxbit >= 1
  {
    if BitAnd(data, Pow2(maxbit - 1)) != 0 then data - Pow2(maxbit) else data
  }

  /** Sample i of the stream: bits 10i to 10i+9 as a signed number. */
  function Sample(buf: seq<byte>, i: nat): int
    requires 10 * i + 10 <= 8 * |buf|
  {
    BitConvert(FromBits(StreamBits(buf)[10 * i..10 * i + 10]), 10)
  }

  /** 16-bit words needed to deliver m samples; the first word is always read. */
  function Words(m: nat): nat {
    if m == 0 then 1 else (10 * m + 15) / 16
  }

  lemma {:induction false} FromToBits(x: nat, n: nat)
    ensures FromBits(ToBits(x, n)) == Low(x, n)
    decreases n
  {
    if n > 0 { FromToBits(x / 2, n - 1); }
  }

  lemma {:induction false} ToFromBits(bs: seq<bit>)
    ensures ToBits(FromBits(bs), |bs|) == bs
    decreases |bs|
  {
    if bs != [] { ToFromBits(bs[1..]); }
  }

  lemma {:induction false} FromBitsConcat(a: seq<bit>, b: seq<bit>)
    ensures FromBits(a + b) == FromBits(a) + Pow2(|a|) * FromBits(b)
    ensures FromBits(a) < Pow2(|a|)
    decreases |a|
  {
    if a == [] {
      assert a + b == b;
      assert Pow2(0) * FromBits(b) == FromBits(b);
    } else {
      hide Pow2;
      assert (a + b)[1..] == a[1..] + b;
      FromBitsConcat(a[1..], b);
      Pow2Succ(|a| - 1);
      assert FromBits(a + b) == a[0] + 2 * FromBits(a[1..] + b);
      DoubledLeft(Pow2(|a| - 1), FromBits(b));
    }
  }

  lemma DoubledLeft(p: nat, x: nat)
    ensures 2 * p * x == 2 * (p * x)
  {
  }

  lemma SliceLeft(h: seq<bit>, t: seq<bit>, p: nat)
    requires p + 8 <= |h|
    ensures (h + t)[p..p + 8] == h[p..p + 8]
  {
  }

  lemma SliceRight(h: seq<bit>, t: seq<bit>)
    requires |t| == 8
    ensures (h + t)[|h|..|h| + 8] == t
  {
  }

  lemma {:induction false} StreamOctet(buf: seq<byte>, q: nat)
    requires q < |buf|
    ensures StreamBits(buf)[8 * q..8 * q + 8] == ToBits(buf[q], 8)
    decreases |buf|
  {
    hide ToBits;
    var n := |buf| - 1;
    var h, t := StreamBits(buf[..n]), ToBits(buf[n], 8);
    assert StreamBits(buf) == h + t;
    if q < n {
      StreamOctet(buf[..n], q);
      SliceLeft(h, t, 8 * q);
    } else {
      SliceRight(h, t);
    }
  }

  function Word(lo: byte, hi: byte): nat {
    var l: int, h: int := lo, hi;
    l + h * 256
  }

  lemma {:induction false} WordValue(lo: byte, hi: byte)
    ensures FromBits(ToBits(lo, 8) + ToBits(hi, 8)) == Word(lo, hi)
  {
    hide FromBits, ToBits, Low, Pow2;
    FromBitsConcat(ToBits(lo, 8), ToBits(hi, 8));
    FromToBits(lo, 8); FromToBits(hi, 8);
    OctetLow(lo); OctetLow(hi);
    Pow2Octet();
  }

  /** The 16 bits of word w are its two octets, low octet first. */
  lemma {:induction false} StreamWord(buf: seq<byte>, w: nat)
    requires 2 * w + 1 < |buf|
    ensures FromBits(StreamBits(buf)[16 * w..16 * w + 16]) == Word(buf[2 * w], buf[2 * w + 1])
  {
    hide FromBits, StreamBits, Word;
    TwoOctets(buf, 2 * w);
  }

  lemma {:induction false} TwoOctets(buf: seq<byte>, q: nat)
    requires q + 1 < |buf|
    ensures FromBits(StreamBits(buf)[8 * q..8 * q + 16]) == Word(buf[q], buf[q + 1])
  {
    hide FromBits, ToBits, StreamBits, Word;
    StreamOctet(buf, q);
    StreamOctet(buf, q + 1);
    WordValue(buf[q], buf[q + 1]);
    SplitSixteen(StreamBits(buf), 8 * q);
  }

  lemma SplitSixteen(bs: seq<bit>, p: nat)
    requires p + 16 <= |bs|
    ensures bs[p..p + 16] == bs[p..p + 8] + bs[p + 8..p + 16]
  {
  }

  lemma {:induction false} OctetLow(x: byte)
    ensures Low(x, 8) == x
  {
    Pow2Octet();
    BitLenBound(x, 8);
    ShrLowSplit(x, 8);
  }

  /** Testing the top bit of an n-bit number compares it with 2^(n-1). */
  lemma {:induction false} TopBit(x: nat, k: nat)
    requires x < Pow2(k + 1)
    ensures BitAnd(x, Pow2(k)) != 0 <==> x >= Pow2(k)
    decreases k
  {
    if k > 0 {
      TopBit(x / 2, k - 1);
      AndEven(x, Pow2(k - 1));
    } else {
      assert x == 0 || x == 1;
    }
  }

  /** v is an n-bit signed number. */
  predicate Fits(v: int, n: nat)
    requires n >= 1
  {
    -(Pow2(n - 1) as int) <= v < Pow2(n - 1)
  }

  /** The n-bit two's complement code of v. */
  function Code(v: int, n: nat): nat
    requires n >= 1 && Fits(v, n)
  {
    if v < 0 then v + Pow2(n) else v
  }

  /** bit_convert undoes two's complement coding. */
  lemma {:induction false} ConvertCode(v: int, n: nat)
    requires n >= 1 && Fits(v, n)
    ensures Code(v, n) < Pow2(n) && BitConvert(Code(v, n), n) == v
  {
    hide BitAnd, Pow2;
    Pow2Succ(n - 1);
    TopBit(Code(v, n), n - 1);
  }

  /** Two's complement coding undoes bit_convert. */
  lemma {:induction false} CodeConvert(x: nat, n: nat)
    requires n >= 1 && x < Pow2(n)
    ensures Fits(BitConvert(x, n), n) && Code(BitConvert(x, n), n) == x
  {
    TopBit(x, n - 1);
  }
}
