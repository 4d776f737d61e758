/** The streaming CSI decoder of recvCSIToFile/csi_fun.c. */
module CsiFun {
  import opened Bits
  import opened CsiStream

  datatype Complex = Complex(re: int, im: int)

  const U32: nat := 0x1_0000_0000

  /** After m samples the decoder holds the unread bits of the words fetched so far, and no more words than needed. */
  ghost predicate Holds(buf: seq<byte>, m: nat, idx: nat, bitsLeft: nat, data: nat) {
    && idx == 2 * Words(m) <= |buf|
    && bitsLeft == 8 * idx - 10 * m
    && data == FromBits(StreamBits(buf)[10 * m..8 * idx])
  }

  /** Adding the next word above the unread bits. */
  lemma {:induction false} Refilled(buf: seq<byte>, a: nat, w: nat)
    requires a <= 16 * w && 2 * w + 1 < |buf|
    ensures FromBits(StreamBits(buf)[a..16 * w]) + Pow2(16 * w - a) * Word(buf[2 * w], buf[2 * w + 1]) ==
      FromBits(StreamBits(buf)[a..16 * w + 16])
  {
    hide FromBits, StreamBits, Word, Pow2;
    var s := StreamBits(buf);
    StreamWord(buf, w);
    FromBitsConcat(s[a..16 * w], s[16 * w..16 * w + 16]);
    assert s[a..16 * w] + s[16 * w..16 * w + 16] == s[a..16 * w + 16];
  }

  /** Taking ten bits off the unread bits. */
  lemma {:induction false} Extracted(buf: seq<byte>, a: nat, e: nat)
    requires a + 10 <= e <= 8 * |buf|
    ensures var x := FromBits(StreamBits(buf)[a..e]);
      && BitAnd(x, 1023) == FromBits(StreamBits(buf)[a..a + 10])
      && x / 1024 == FromBits(StreamBits(buf)[a + 10..e])
      && x < Pow2(e - a)
  {
    hide FromBits, StreamBits, Pow2, BitAnd, Low, Shr;
    var s := StreamBits(buf);
    var x := FromBits(s[a..e]);
    FromBitsConcat(s[a..a + 10], s[a + 10..e]);
    FromBitsConcat(s[a..e], []);
    assert s[a..a + 10] + s[a + 10..e] == s[a..e];
    TenBits();
    AndLowMask(x, 10);
    ShrLow(x, 10);
    DivUnique(x, 1024, FromBits(s[a + 10..e]), FromBits(s[a..a + 10]));
  }

  lemma {:induction false} TenBits()
    ensures Pow2(10) == 1024
  {
    Pow2Octet();
    Pow2Succ(8); Pow2Succ(9);
  }

  lemma {:induction false} NoOverflow(bitsLeft: nat)
    requires bitsLeft <= 25
    ensures Pow2(bitsLeft) <= U32
  {
    hide Pow2;
    Pow2Mono(bitsLeft, 32);
    Pow2Octet();
    Pow2Add(8, 8); Pow2Add(16, 16);
  }

  lemma {:induction false} WordsStep(m: nat)
    ensures 10 * m <= 16 * Words(m) <= 10 * m + 16
    ensures Words(m + 1) == Words(m) + if 16 * Words(m) - 10 * m < 10 then 1 else 0
    ensures 16 * Words(m + 1) <= 10 * (m + 1) + 14
  {
    var q, r := m / 8, m % 8;
    assert m == 8 * q + r;
    assert Words(m) == if m == 0 then 1 else 5 * q + Ceil(r);
    assert Words(m + 1) == 5 * q + Ceil(r + 1);
  }

  function Ceil(r: nat): nat {
    (10 * r + 15) / 16
  }

  lemma SmallMod(x: nat)
    requires x < U32
    ensures x % U32 == x
  {
  }

  /** One sample: refill with 16 bits when fewer than ten are left, then take ten. */
  method TakeSample(buf: seq<byte>, idx: nat, bitsLeft: nat, data: nat, ghost m: nat)
    returns (value: int, idx': nat, bitsLeft': nat, data': nat)
    requires Holds(buf, m, idx, bitsLeft, data) && 2 * Words(m + 1) <= |buf|
    ensures Holds(buf, m + 1, idx', bitsLeft', data') && bitsLeft' <= 14
    ensures 10 * m + 10 <= 8 * |buf| && value == Sample(buf, m)
    ensures data' < Pow2(bitsLeft')
  {
    hide FromBits, StreamBits, Pow2, BitAnd, BitConvert, Words, Word;
    WordsStep(m);
    idx', bitsLeft', data' := idx, bitsLeft, data;
    if bitsLeft' - 10 < 0 {
      var h := Word(buf[idx'], buf[idx' + 1]);
      Refilled(buf, 10 * m, Words(m));
      UnreadBound(buf, 10 * m, 16 * Words(m) + 16);
      NoOverflow(bitsLeft' + 16);
      SmallMod(data' + Pow2(bitsLeft') * h);
      data' := (data' + Pow2(bitsLeft') * h) % U32;
      idx', bitsLeft' := idx' + 2, bitsLeft' + 16;
    }
    assert data' == FromBits(StreamBits(buf)[10 * m..8 * idx']);
    Extracted(buf, 10 * m, 8 * idx');
    value := BitConvert(BitAnd(data', 1023), 10);
    bitsLeft' := bitsLeft' - 10;
    data' := data' / 1024;
    UnreadBound(buf, 10 * m + 10, 8 * idx');
  }

  lemma {:induction false} UnreadBound(buf: seq<byte>, a: nat, e: nat)
    requires a <= e <= 8 * |buf|
    ensures FromBits(StreamBits(buf)[a..e]) < Pow2(e - a)
  {
    FromBitsConcat(StreamBits(buf)[a..e], []);
  }

  /** Number of complex values before receive antenna r, transmit antenna c, subcarrier k. */
  function Flat(nr: nat, nc: nat, r: nat, c: nat, k: nat): nat {
    (k * nc + c) * nr + r
  }

  function Cells(nr: nat, nc: nat, tones: nat): nat {
    Flat(nr, nc, 0, 0, tones)
  }

  lemma {:induction false} FlatSteps(nr: nat, nc: nat, r: nat, c: nat, k: nat)
    ensures Flat(nr, nc, 0, 0, 0) == 0
    ensures Flat(nr, nc, r + 1, c, k) == Flat(nr, nc, r, c, k) + 1
    ensures Flat(nr, nc, nr, c, k) == Flat(nr, nc, 0, c + 1, k)
    ensures Flat(nr, nc, 0, nc, k) == Flat(nr, nc, 0, 0, k + 1)
  {
    assert (k * nc + c) * nr + nr == (k * nc + (c + 1)) * nr;
    assert k * nc + nc == (k + 1) * nc;
  }

  lemma {:induction false} FlatBound(nr: nat, nc: nat, tones: nat, r: nat, c: nat, k: nat)
    requires r < nr && c < nc && k < tones
    ensures Flat(nr, nc, r, c, k) < Cells(nr, nc, tones)
  {
    assert (k + 1) * nc <= tones * nc;
    assert k * nc + c + 1 <= tones * nc;
    assert (k * nc + c + 1) * nr <= tones * nc * nr;
    assert (k * nc + c) * nr + nr == (k * nc + c + 1) * nr;
  }

  /** x holds the n-th pair of samples of the stream, imaginary part first. */
  ghost predicate CellOk(x: Complex, buf: seq<byte>, n: nat) {
    20 * n + 20 <= 8 * |buf| && x.im == Sample(buf, 2 * n) && x.re == Sample(buf, 2 * n + 1)
  }

  lemma {:induction false} EnoughWords(m: nat, total: nat)
    requires m <= total
    ensures 1 <= Words(m) <= Words(total)
  {
  }

  /** Cell (r', c', k') has been written when cell (r, c, k) is reached. */
  predicate Earlier(r': nat, c': nat, k': nat, r: nat, c: nat, k: nat) {
    k' < k || (k' == k && (c' < c || (c' == c && r' < r)))
  }

  /** The first word is fetched before the loops. */
  method FirstWord(buf: seq<byte>) returns (idx: nat, bitsLeft: nat, data: nat)
    requires |buf| >= 2
    ensures Holds(buf, 0, idx, bitsLeft, data)
  {
    hide FromBits, StreamBits, Pow2, BitAnd, Word, Low;
    bitsLeft := 16;
    var h := Word(buf[0], buf[1]);
    data := BitAnd(h, 0xffff);
    idx := 2;
    StreamWord(buf, 0);
    UnreadBound(buf, 0, 16);
    Pow2Octet();
    Pow2Add(8, 8);
    AndAllOnes(h, 16);
  }

  /** One complex value: imaginary part first. */
  method TakeCell(buf: seq<byte>, idx: nat, bitsLeft: nat, data: nat, ghost n: nat, ghost total: nat)
    returns (x: Complex, idx': nat, bitsLeft': nat, data': nat)
    requires Holds(buf, 2 * n, idx, bitsLeft, data) && n < total && 2 * Words(2 * total) <= |buf|
    ensures Holds(buf, 2 * (n + 1), idx', bitsLeft', data') && CellOk(x, buf, n)
  {
    hide FromBits, StreamBits, Pow2, Words;
    EnoughWords(2 * n + 2, 2 * total);
    EnoughWords(2 * n + 1, 2 * n + 2);
    var im, re;
    im, idx', bitsLeft', data' := TakeSample(buf, idx, bitsLeft, data, 2 * n);
    re, idx', bitsLeft', data' := TakeSample(buf, idx', bitsLeft', data', 2 * n + 1);
    x := Complex(re, im);
  }

  /** fill_csi_matrix; the result is the number of octets read. */
  method FillCsiMatrix(buf: seq<byte>, nr: nat, nc: nat, tones: nat, a: array3<Complex>) returns (idx: nat)
    requires nr <= a.Length0 && nc <= a.Length1 && tones <= a.Length2
    requires 2 * Words(2 * Cells(nr, nc, tones)) <= |buf|
    modifies a
    ensures idx == 2 * Words(2 * Cells(nr, nc, tones))
    ensures forall r, c, k :: 0 <= r < a.Length0 && 0 <= c < a.Length1 && 0 <= k < a.Length2 ==>
      if r < nr && c < nc && k < tones
      then CellOk(a[r, c, k], buf, Flat(nr, nc, r, c, k))
      else a[r, c, k] == old(a[r, c, k])
  {
    hide FromBits, StreamBits, Words, Flat, CellOk, Cells;
    ghost var total := Cells(nr, nc, tones);
    EnoughWords(0, 2 * total);
    FlatSteps(nr, nc, 0, 0, 0);
    var bitsLeft, data;
    idx, bitsLeft, data := FirstWord(buf);
    for k := 0 to tones
      invariant Holds(buf, 2 * Flat(nr, nc, 0, 0, k), idx, bitsLeft, data)
      invariant forall i, j, l :: 0 <= i < a.Length0 && 0 <= j < a.Length1 && 0 <= l < a.Length2 ==>
        if i < nr && j < nc && Earlier(i, j, l, 0, 0, k)
        then CellOk(a[i, j, l], buf, Flat(nr, nc, i, j, l)) else a[i, j, l] == old(a[i, j, l])
    {
      for c := 0 to nc
        invariant Holds(buf, 2 * Flat(nr, nc, 0, c, k), idx, bitsLeft, data)
        invariant forall i, j, l :: 0 <= i < a.Length0 && 0 <= j < a.Length1 && 0 <= l < a.Length2 ==>
          if i < nr && j < nc && Earlier(i, j, l, 0, c, k)
          then CellOk(a[i, j, l], buf, Flat(nr, nc, i, j, l)) else a[i, j, l] == old(a[i, j, l])
      {
        for r := 0 to nr
          invariant Holds(buf, 2 * Flat(nr, nc, r, c, k), idx, bitsLeft, data)
          invariant forall i, j, l :: 0 <= i < a.Length0 && 0 <= j < a.Length1 && 0 <= l < a.Length2 ==>
            if i < nr && j < nc && Earlier(i, j, l, r, c, k)
            then CellOk(a[i, j, l], buf, Flat(nr, nc, i, j, l)) else a[i, j, l] == old(a[i, j, l])
        {
          FlatBound(nr, nc, tones, r, c, k);
          FlatSteps(nr, nc, r, c, k);
          var x;
          x, idx, bitsLeft, data := TakeCell(buf, idx, bitsLeft, data, Flat(nr, nc, r, c, k), total);
          a[r, c, k] := x;
        }
        FlatSteps(nr, nc, 0, c, k);
      }
      FlatSteps(nr, nc, 0, 0, k);
    }
    CellsIsFlat(nr, nc, tones);
  }

  lemma {:induction false} CellsIsFlat(nr: nat, nc: nat, tones: nat)
    ensures Cells(nr, nc, tones) == Flat(nr, nc, 0, 0, tones)
  {
  }
}
