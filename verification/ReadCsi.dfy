/** The decode loop of the MATLAB gateway matlab/read_csi.c, and its agreement with csi_fun.c. */
module ReadCsi {
  import opened Bits
  import opened CsiStream
  import CF = CsiFun

  const BITS_PER_SYMBOL := 10

  /** One symbol off the stream, with signed counters as in the gateway. */
  method NextSymbol(h: seq<byte>, idx: nat, bitsLeft: int, data: nat, ghost m: nat)
    returns (symbol: int, idx': nat, bitsLeft': int, data': nat)
    requires bitsLeft >= 0 && CF.Holds(h, m, idx, bitsLeft, data) && 2 * Words(m + 1) <= |h|
    ensures bitsLeft' >= 0 && CF.Holds(h, m + 1, idx', bitsLeft', data')
    ensures 10 * m + 10 <= 8 * |h| && symbol == Sample(h, m)
  {
    hide FromBits, StreamBits, Pow2, BitAnd, BitConvert, Words, Word;
    CF.WordsStep(m);
    var bitmask := 1023;
    idx', bitsLeft', data' := idx, bitsLeft, data;
    if bitsLeft' - BITS_PER_SYMBOL < 0 {
      var word := Word(h[idx'], h[idx' + 1]);
      CF.Refilled(h, 10 * m, Words(m));
      CF.UnreadBound(h, 10 * m, 16 * Words(m) + 16);
      CF.NoOverflow(bitsLeft' + 16);
      CF.SmallMod(data' + Pow2(bitsLeft') * word);
      data' := (data' + Pow2(bitsLeft') * word) % CF.U32;
      bitsLeft' := bitsLeft' + 16;
      idx' := idx' + 2;
    }
    assert data' == FromBits(StreamBits(h)[10 * m..8 * idx']);
    CF.Extracted(h, 10 * m, 8 * idx');
    symbol := BitConvert(BitAnd(data', bitmask), BITS_PER_SYMBOL);
    bitsLeft' := bitsLeft' - BITS_PER_SYMBOL;
    data' := data' / 1024;
  }

  /** Position p of the two output arrays holds the p-th pair of samples. */
  ghost predicate OutOk(re: real, im: real, h: seq<byte>, p: nat) {
    20 * p + 20 <= 8 * |h| && im == Sample(h, 2 * p) as real && re == Sample(h, 2 * p + 1) as real
  }

  /** The loops of mexFunction, writing through two pointers that only ever advance. */
  method MexDecode(h: seq<byte>, nr: nat, nc: nat, tones: nat) returns (outR: array<real>, outI: array<real>)
    requires 2 * Words(2 * CF.Cells(nr, nc, tones)) <= |h|
    ensures fresh(outR) && fresh(outI) && outR.Length == outI.Length == CF.Cells(nr, nc, tones)
    ensures forall p :: 0 <= p < outR.Length ==> OutOk(outR[p], outI[p], h, p)
  {
    hide FromBits, StreamBits, Words, BitConvert, CF.Flat, CF.Cells, OutOk;
    var total := CF.Cells(nr, nc, tones);
    CF.CellsIsFlat(nr, nc, tones);
    CF.EnoughWords(0, 2 * total);
    CF.FlatSteps(nr, nc, 0, 0, 0);
    outR, outI := new real[total], new real[total];
    var ptr := 0;
    var idx, bitsLeft, data := CF.FirstWord(h);
    for k := 0 to tones
      invariant ptr == CF.Flat(nr, nc, 0, 0, k) && bitsLeft >= 0 && CF.Holds(h, 2 * ptr, idx, bitsLeft, data)
      invariant ptr <= total && forall p :: 0 <= p < ptr ==> OutOk(outR[p], outI[p], h, p)
    {
      for c := 0 to nc
        invariant ptr == CF.Flat(nr, nc, 0, c, k) && bitsLeft >= 0 && CF.Holds(h, 2 * ptr, idx, bitsLeft, data)
        invariant ptr <= total && forall p :: 0 <= p < ptr ==> OutOk(outR[p], outI[p], h, p)
      {
        for r := 0 to nr
          invariant ptr == CF.Flat(nr, nc, r, c, k) && bitsLeft >= 0 && CF.Holds(h, 2 * ptr, idx, bitsLeft, data)
          invariant ptr <= total && forall p :: 0 <= p < ptr ==> OutOk(outR[p], outI[p], h, p)
        {
          CF.FlatBound(nr, nc, tones, r, c, k);
          CF.FlatSteps(nr, nc, r, c, k);
          CF.EnoughWords(2 * ptr + 2, 2 * total);
          CF.EnoughWords(2 * ptr + 1, 2 * ptr + 2);
          var imag, re;
          imag, idx, bitsLeft, data := NextSymbol(h, idx, bitsLeft, data, 2 * ptr);
          outI[ptr] := imag as real;
          re, idx, bitsLeft, data := NextSymbol(h, idx, bitsLeft, data, 2 * ptr + 1);
          outR[ptr] := re as real;
          IsOut(re, imag, h, ptr);
          ptr := ptr + 1;
        }
        CF.FlatSteps(nr, nc, 0, c, k);
      }
      CF.FlatSteps(nr, nc, 0, 0, k);
    }
  }

  lemma {:induction false} IsOut(re: int, im: int, h: seq<byte>, p: nat)
    requires 20 * p + 20 <= 8 * |h| && im == Sample(h, 2 * p) && re == Sample(h, 2 * p + 1)
    ensures OutOk(re as real, im as real, h, p)
  {
  }

  /** Column-major position of cell (r, c, k) of an nr by nc by tones array. */
  function ColumnMajor(nr: nat, nc: nat, r: nat, c: nat, k: nat): nat {
    r + nr * (c + nc * k)
  }

  lemma {:induction false} ColumnMajorIsFlat(nr: nat, nc: nat, r: nat, c: nat, k: nat)
    ensures ColumnMajor(nr, nc, r, c, k) == CF.Flat(nr, nc, r, c, k)
  {
    assert nc * k == k * nc;
    assert nr * (c + nc * k) == (k * nc + c) * nr;
  }

  /** Both decoders fill in the same matrix. */
  method DecodeBoth(buf: seq<byte>, nr: nat, nc: nat, tones: nat, a: array3<CF.Complex>)
    returns (outR: array<real>, outI: array<real>)
    requires nr <= a.Length0 && nc <= a.Length1 && tones <= a.Length2
    requires 2 * Words(2 * CF.Cells(nr, nc, tones)) <= |buf|
    modifies a
    ensures outR.Length == outI.Length == CF.Cells(nr, nc, tones)
    ensures forall r, c, k :: 0 <= r < nr && 0 <= c < nc && 0 <= k < tones ==>
      var p := ColumnMajor(nr, nc, r, c, k);
      p < outR.Length && outR[p] == a[r, c, k].re as real && outI[p] == a[r, c, k].im as real
  {
    hide FromBits, StreamBits, Words, BitConvert, CF.Flat, ColumnMajor, CF.Cells;
    var n := CF.FillCsiMatrix(buf, nr, nc, tones, a);
    outR, outI := MexDecode(buf, nr, nc, tones);
    forall r, c, k | 0 <= r < nr && 0 <= c < nc && 0 <= k < tones
      ensures var p := ColumnMajor(nr, nc, r, c, k);
        p < outR.Length && outR[p] == a[r, c, k].re as real && outI[p] == a[r, c, k].im as real
    {
      CF.FlatBound(nr, nc, tones, r, c, k);
      ColumnMajorIsFlat(nr, nc, r, c, k);
      assert CF.CellOk(a[r, c, k], buf, CF.Flat(nr, nc, r, c, k));
    }
  }
}
