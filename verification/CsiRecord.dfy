/** Round trip: packing samples and framing them, against record_status and record_csi_payload of csi_fun.c. */
module CsiRecord {
  import opened Bits
  import opened CsiStream
  import CF = CsiFun

  predicate AllFit(samples: seq<int>) {
    forall i :: 0 <= i < |samples| ==> Fits(samples[i], 10)
  }

  /** The samples' codes one after the other, each least significant bit first. */
  function CodeBits(samples: seq<int>): (bs: seq<bit>)
    requires AllFit(samples)
    ensures |bs| == 10 * |samples|
    decreases |samples|
  {
    if samples == [] then []
    else CodeBits(samples[..|samples| - 1]) + ToBits(Code(samples[|samples| - 1], 10), 10)
  }

  function Zeros(n: nat): (z: seq<bit>)
    ensures |z| == n
  {
    seq(n, _ => 0)
  }

  /** Octets made of eight bits each. */
  function Octets(bs: seq<bit>): (o: seq<byte>)
    requires |bs| % 8 == 0
    ensures 8 * |o| == |bs|
    decreases |bs|
  {
    if bs == [] then []
    else
      var n := |bs| - 8;
      OctetValue(bs[n..]);
      Octets(bs[..n]) + [FromBits(bs[n..])]
  }

  lemma {:induction false} OctetValue(bs: seq<bit>)
    requires |bs| == 8
    ensures FromBits(bs) < 256
  {
    FromBitsConcat(bs, []);
    Pow2Octet();
  }

  /** The obvious packer: all codes, zero-padded to whole 16-bit words. */
  function Pack(samples: seq<int>): (buf: seq<byte>)
    requires AllFit(samples)
    ensures |buf| == 2 * Words(|samples|)
  {
    PackSize(|samples|);
    Octets(CodeBits(samples) + Zeros(16 * Words(|samples|) - 10 * |samples|))
  }

  lemma PackSize(m: nat)
    ensures 16 * Words(m) >= 10 * m
    ensures (10 * m + (16 * Words(m) - 10 * m)) % 8 == 0
  {
    assert 16 * Words(m) == 8 * (2 * Words(m));
  }

  lemma {:induction false} StreamOfOctets(bs: seq<bit>)
    requires |bs| % 8 == 0
    ensures StreamBits(Octets(bs)) == bs
    decreases |bs|
  {
    hide ToBits, FromBits, StreamBits;
    if bs == [] {
      assert Octets(bs) == [];
      StreamOfNothing();
    } else {
      var n := |bs| - 8;
      StreamOfOctets(bs[..n]);
      ToFromBits(bs[n..]);
      OctetValue(bs[n..]);
      StreamSnoc(Octets(bs[..n]), FromBits(bs[n..]));
      assert bs == bs[..n] + bs[n..];
    }
  }

  lemma {:induction false} StreamOfNothing()
    ensures StreamBits([]) == []
  {
  }

  lemma {:induction false} StreamSnoc(buf: seq<byte>, x: byte)
    ensures StreamBits(buf + [x]) == StreamBits(buf) + ToBits(x, 8)
  {
    assert (buf + [x])[..|buf|] == buf;
  }

  lemma {:induction false} CodeBitsAt(samples: seq<int>, i: nat)
    requires AllFit(samples) && i < |samples|
    ensures CodeBits(samples)[10 * i..10 * i + 10] == ToBits(Code(samples[i], 10), 10)
    decreases |samples|
  {
    hide ToBits, Code;
    var n := |samples| - 1;
    var h := CodeBits(samples[..n]);
    if i < n {
      CodeBitsAt(samples[..n], i);
      assert CodeBits(samples)[10 * i..10 * i + 10] == h[10 * i..10 * i + 10];
    }
  }

  /** Every sample comes back from the packed stream, also when more octets follow. */
  lemma {:induction false} PackedSample(samples: seq<int>, rest: seq<byte>, i: nat)
    requires AllFit(samples) && i < |samples|
    ensures 10 * i + 10 <= 8 * |Pack(samples)|
    ensures Sample(Pack(samples) + rest, i) == samples[i]
  {
    hide ToBits, FromBits, StreamBits, Code, BitConvert, Octets, CodeBits, Low, Pow2;
    var bs := CodeBits(samples) + Zeros(16 * Words(|samples|) - 10 * |samples|);
    StreamOfOctets(bs);
    StreamPrefix(Pack(samples), rest);
    CodeBitsAt(samples, i);
    assert StreamBits(Pack(samples) + rest)[10 * i..10 * i + 10] == ToBits(Code(samples[i], 10), 10);
    FromToBits(Code(samples[i], 10), 10);
    ConvertCode(samples[i], 10);
    LowOfSmall(Code(samples[i], 10), 10);
  }

  lemma {:induction false} LowOfSmall(x: nat, k: nat)
    requires x < Pow2(k)
    ensures Low(x, k) == x
  {
    BitLenBound(x, k);
    ShrLowSplit(x, k);
  }

  lemma {:induction false} StreamPrefix(buf: seq<byte>, rest: seq<byte>)
    ensures StreamBits(buf) <= StreamBits(buf + rest)
    decreases |rest|
  {
    if rest == [] {
      assert buf + rest == buf;
    } else {
      var n := |rest| - 1;
      StreamPrefix(buf, rest[..n]);
      assert (buf + rest)[..|buf + rest| - 1] == buf + rest[..n];
    }
  }

  const ST_LEN := 23

  datatype Status = Status(csiLen: nat, channel: nat, payloadLen: nat, tones: byte, nr: byte, nc: byte)

  /** The fields of record_status that locate and size the CSI, for either byte order of the host. */
  function RecordStatus(buf: seq<byte>, bigEndian: bool): Status
    requires |buf| >= ST_LEN + 2
  {
    if bigEndian then
      Status(Word(buf[9], buf[8]), Word(buf[11], buf[10]), Word(buf[ST_LEN + 1], buf[ST_LEN]),
             buf[16], buf[17], buf[18])
    else
      Status(Word(buf[8], buf[9]), Word(buf[10], buf[11]), Word(buf[ST_LEN], buf[ST_LEN + 1]),
             buf[16], buf[17], buf[18])
  }

  /** A record whose 16-bit fields are written high octet first is read on a big-endian host as its mirror elsewhere. */
  lemma {:induction false} EndianMirror(a: seq<byte>, b: seq<byte>)
    requires |a| >= 25 && |b| >= 25 && (forall i :: 16 <= i < 19 ==> a[i] == b[i])
    requires forall i :: i in {8, 10, 23} ==> a[i] == b[i + 1] && a[i + 1] == b[i]
    ensures RecordStatus(a, true) == RecordStatus(b, false)
  {
    assert 8 in {8, 10, 23} && 10 in {8, 10, 23} && 23 in {8, 10, 23};
  }

  /** record_csi_payload: copy the payload that follows the CSI, decode the CSI that follows the header. */
  method RecordCsiPayload(buf: seq<byte>, st: Status, data: array<byte>, a: array3<CF.Complex>)
    requires ST_LEN + 2 + st.csiLen + st.payloadLen <= |buf| && st.payloadLen <= data.Length
    requires st.nr <= a.Length0 && st.nc <= a.Length1 && st.tones <= a.Length2
    requires ST_LEN + 2 + 2 * Words(2 * CF.Cells(st.nr, st.nc, st.tones)) <= |buf|
    modifies data, a
    ensures data[..st.payloadLen] == buf[25 + st.csiLen..][..st.payloadLen]
    ensures data[st.payloadLen..] == old(data[st.payloadLen..])
    ensures forall r, c, k :: 0 <= r < a.Length0 && 0 <= c < a.Length1 && 0 <= k < a.Length2 ==>
      if r < st.nr && c < st.nc && k < st.tones
      then CF.CellOk(a[r, c, k], buf[25..], CF.Flat(st.nr, st.nc, r, c, k))
      else a[r, c, k] == old(a[r, c, k])
  {
    hide Words, CF.Cells, CF.Flat, CF.CellOk;
    for i := 1 to st.payloadLen + 1
      invariant forall j :: 0 <= j < i - 1 ==> data[j] == buf[ST_LEN + st.csiLen + j + 2]
      invariant data[st.payloadLen..] == old(data[st.payloadLen..])
      modifies data
    {
      data[i - 1] := buf[ST_LEN + st.csiLen + i + 1];
    }
    assert data[..st.payloadLen] == buf[ST_LEN + 2 + st.csiLen..][..st.payloadLen];
    var n := CF.FillCsiMatrix(buf[ST_LEN + 2..], st.nr, st.nc, st.tones, a);
  }

  /** The header announces the CSI's length and dimensions, low octet first. */
  predicate HeaderOk(header: seq<byte>, samples: seq<int>)
    requires AllFit(samples)
  {
    && |header| == 23
    && |samples| == 2 * CF.Cells(header[17], header[18], header[16])
    && Word(header[8], header[9]) == |Pack(samples)|
  }

  /** A record as the kernel writes it on a little-endian host, with whatever follows it. */
  function Record(header: seq<byte>, samples: seq<int>, payload: seq<byte>, tail: seq<byte>): seq<byte>
    requires AllFit(samples) && |payload| < 0x1_0000
  {
    header + [|payload| % 256, |payload| / 256] + Pack(samples) + payload + tail
  }

  /** Parsing a record gives back its payload and every sample, each at its own place of the matrix. */
  method ParseRecord(buf: seq<byte>, ghost header: seq<byte>, ghost samples: seq<int>, ghost payload: seq<byte>,
                     ghost tail: seq<byte>, data: array<byte>, a: array3<CF.Complex>) returns (st: Status)
    requires AllFit(samples) && HeaderOk(header, samples) && |payload| < 0x1_0000
    requires buf == Record(header, samples, payload, tail) && |payload| <= data.Length
    requires header[17] <= a.Length0 && header[18] <= a.Length1 && header[16] <= a.Length2
    modifies data, a
    ensures st.payloadLen == |payload| && data[..|payload|] == payload
    ensures st.csiLen == |Pack(samples)| && st.channel == Word(header[10], header[11])
    ensures (st.nr, st.nc, st.tones) == (header[17], header[18], header[16])
    ensures forall r, c, k :: 0 <= r < header[17] && 0 <= c < header[18] && 0 <= k < header[16] ==>
      var n := CF.Flat(header[17], header[18], r, c, k);
      2 * n + 1 < |samples| && a[r, c, k] == CF.Complex(samples[2 * n + 1], samples[2 * n])
  {
    hide Words, CF.Cells, CF.Flat, Word, Sample;
    ghost var csi := Pack(samples);
    Layout(header, samples, payload, tail);
    hide Pack, Record, RecordStatus, CF.CellOk;
    st := RecordStatus(buf, false);
    RecordCsiPayload(buf, st, data, a);
    forall r, c, k | 0 <= r < header[17] && 0 <= c < header[18] && 0 <= k < header[16]
      ensures var n := CF.Flat(header[17], header[18], r, c, k);
        2 * n + 1 < |samples| && a[r, c, k] == CF.Complex(samples[2 * n + 1], samples[2 * n])
    {
      CellHolds(samples, payload + tail, a[r, c, k], header[17], header[18], header[16], r, c, k);
    }
  }

  /** Where the parts of a record lie. */
  lemma {:induction false} Layout(header: seq<byte>, samples: seq<int>, payload: seq<byte>, tail: seq<byte>)
    requires AllFit(samples) && HeaderOk(header, samples) && |payload| < 0x1_0000
    ensures var buf := Record(header, samples, payload, tail);
      && |buf| == ST_LEN + 2 + |Pack(samples)| + |payload| + |tail|
      && RecordStatus(buf, false)
        == Status(|Pack(samples)|, Word(header[10], header[11]), |payload|, header[16], header[17], header[18])
      && buf[ST_LEN + 2..] == Pack(samples) + (payload + tail)
      && buf[ST_LEN + 2 + |Pack(samples)|..][..|payload|] == payload
  {
    hide Pack, Word, Words, CF.Cells;
    var csi, lo, hi := Pack(samples), |payload| % 256, |payload| / 256;
    var buf := Record(header, samples, payload, tail);
    assert Word(lo, hi) == |payload| by { LowFirst(|payload|); }
    var body := [lo, hi] + csi + payload + tail;
    assert buf == header + body;
    assert buf[ST_LEN + 2..] == csi + (payload + tail);
    assert buf[ST_LEN + 2 + |csi|..] == payload + tail;
  }

  lemma {:induction false} LowFirst(n: nat)
    requires n < 0x1_0000
    ensures Word(n % 256, n / 256) == n
  {
  }

  lemma {:induction false} CellHolds(samples: seq<int>, rest: seq<byte>, x: CF.Complex, nr: nat, nc: nat, tones: nat,
                  r: nat, c: nat, k: nat)
    requires AllFit(samples) && |samples| == 2 * CF.Cells(nr, nc, tones)
    requires r < nr && c < nc && k < tones && CF.CellOk(x, Pack(samples) + rest, CF.Flat(nr, nc, r, c, k))
    ensures var n := CF.Flat(nr, nc, r, c, k);
      2 * n + 1 < |samples| && x == CF.Complex(samples[2 * n + 1], samples[2 * n])
  {
    hide Pack, CF.Cells, CF.Flat, Sample;
    var n := CF.Flat(nr, nc, r, c, k);
    CF.FlatBound(nr, nc, tones, r, c, k);
    PackedSample(samples, rest, 2 * n);
    PackedSample(samples, rest, 2 * n + 1);
  }
}
