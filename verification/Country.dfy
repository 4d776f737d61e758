/** The Country element of beacon.c: run-length groups of enabled channels. */
module Country {
  import opened Options
  import opened Bits

  /** A channel of the mode's table; the number is a C short, the power an octet. */
  datatype Channel = Channel(number: int, power: byte, disabled: bool)

  datatype Entry = Entry(number: int, power: byte)

  /** A run of count channels at one power, the numbers a spacing apart. */
  datatype Group = Group(first: int, count: nat, power: byte)

  const WLAN_EID_COUNTRY: byte := 7

  function Spacing(modeA: bool): nat {
    if modeA then 4 else 1
  }

  /** The enabled channels in table order. */
  function Enabled(channels: seq<Channel>): seq<Entry> {
    if channels == [] then []
    else
      var n := |channels| - 1;
      Enabled(channels[..n])
        + if channels[n].disabled then [] else [Entry(channels[n].number, channels[n].power)]
  }

  /** The number that would continue the group. */
  function Next(g: Group, d: nat): int {
    g.first + g.count * d
  }

  function Longer(g: Group): Group {
    g.(count := g.count + 1)
  }

  lemma {:induction false} NextStep(g: Group, d: nat)
    ensures Next(Longer(g), d) == Next(g, d) + d
  {
    assert (g.count + 1) * d == g.count * d + d;
  }

  /** The channels a group stands for. */
  function Expand(g: Group, d: nat): seq<Entry>
    decreases g.count
  {
    if g.count == 0 then []
    else
      var shorter := g.(count := g.count - 1);
      Expand(shorter, d) + [Entry(Next(shorter, d), g.power)]
  }

  function ExpandAll(gs: seq<Group>, d: nat): seq<Entry> {
    if gs == [] then [] else ExpandAll(gs[..|gs| - 1], d) + Expand(gs[|gs| - 1], d)
  }

  predicate Joins(gs: seq<Group>, e: Entry, d: nat) {
    && gs != []
    && var g := gs[|gs| - 1];
      Next(g, d) == e.number && g.power == e.power
  }

  function Extend(gs: seq<Group>, e: Entry, d: nat): (r: seq<Group>)
    ensures r != []
  {
    if Joins(gs, e, d) then
      var n := |gs| - 1;
      gs[..n] + [Longer(gs[n])]
    else gs + [Group(e.number, 1, e.power)]
  }

  /** The groups that the encoder forms. */
  function Groups(en: seq<Entry>, d: nat): (gs: seq<Group>)
    ensures forall i :: 0 <= i < |gs| ==> gs[i].count > 0
    ensures gs == [] <==> en == []
  {
    if en == [] then [] else Extend(Groups(en[..|en| - 1], d), en[|en| - 1], d)
  }

  lemma {:induction false} NextGroups(en: seq<Entry>, e: Entry, d: nat)
    ensures Groups(en + [e], d) == Extend(Groups(en, d), e, d)
  {
    assert (en + [e])[..|en|] == en;
  }

  lemma {:induction false} ExpandAllSnoc(gs: seq<Group>, g: Group, d: nat)
    ensures ExpandAll(gs + [g], d) == ExpandAll(gs, d) + Expand(g, d)
  {
    assert (gs + [g])[..|gs|] == gs;
  }

  lemma {:induction false} ExpandLonger(g: Group, d: nat)
    ensures Expand(Longer(g), d) == Expand(g, d) + [Entry(Next(g, d), g.power)]
  {
    hide Next;
    assert Longer(g).(count := g.count) == g;
  }

  lemma {:induction false} ExpandOne(e: Entry, d: nat)
    ensures Expand(Group(e.number, 1, e.power), d) == [e]
  {
    var none := Group(e.number, 0, e.power);
    ExpandLonger(none, d);
    assert Expand(none, d) == [] && [] + [e] == [e];
  }

  lemma {:induction false} ExtendExpands(gs: seq<Group>, e: Entry, d: nat)
    ensures ExpandAll(Extend(gs, e, d), d) == ExpandAll(gs, d) + [e]
  {
    hide Expand, ExpandAll, Next;
    if Joins(gs, e, d) {
      var n := |gs| - 1;
      var a, g := gs[..n], gs[n];
      assert gs == a + [g] && Extend(gs, e, d) == a + [Longer(g)];
      ExpandAllSnoc(a, g, d);
      ExpandAllSnoc(a, Longer(g), d);
      ExpandLonger(g, d);
      assert ExpandAll(a, d) + (Expand(g, d) + [e]) == (ExpandAll(a, d) + Expand(g, d)) + [e];
    } else {
      ExpandAllSnoc(gs, Group(e.number, 1, e.power), d);
      ExpandOne(e, d);
    }
  }

  /** No channel is lost, added or reordered. */
  lemma {:induction false} GroupsExpand(en: seq<Entry>, d: nat)
    ensures ExpandAll(Groups(en, d), d) == en
    decreases |en|
  {
    hide Expand, Extend;
    if en != [] {
      var n := |en| - 1;
      GroupsExpand(en[..n], d);
      assert en == en[..n] + [en[n]];
      NextGroups(en[..n], en[n], d);
      ExtendExpands(Groups(en[..n], d), en[n], d);
    }
  }

  /** Number of places where a new run has to begin. */
  function Breaks(en: seq<Entry>, d: nat): nat {
    if |en| < 2 then 0
    else
      var n := |en| - 1;
      Breaks(en[..n], d) + if en[n] == Entry(en[n - 1].number + d, en[n - 1].power) then 0 else 1
  }

  lemma {:induction false} GroupsCountBreaks(en: seq<Entry>, d: nat)
    requires en != []
    ensures |Groups(en, d)| == Breaks(en, d) + 1
    ensures var g := Groups(en, d)[|Groups(en, d)| - 1];
      en[|en| - 1] == Entry(Next(g, d) - d, g.power)
    decreases |en|
  {
    hide Next;
    var n := |en| - 1;
    var gs := Groups(en[..n], d);
    if n > 0 {
      GroupsCountBreaks(en[..n], d);
      NextStep(gs[|gs| - 1], d);
    }
    NextStep(Group(en[n].number, 0, en[n].power), d);
    NextOfEmpty(en[n].number, en[n].power, d);
  }

  lemma {:induction false} NextOfEmpty(first: int, power: byte, d: nat)
    ensures Next(Group(first, 0, power), d) == first
  {
  }

  lemma {:induction false} BreaksConcat(a: seq<Entry>, b: seq<Entry>, d: nat)
    ensures Breaks(a + b, d) <= Breaks(a, d) + Breaks(b, d) + 1
    ensures a == [] || b == [] ==> Breaks(a + b, d) <= Breaks(a, d) + Breaks(b, d)
    decreases |b|
  {
    if b == [] {
      assert a + b == a;
    } else if a == [] {
      assert a + b == b;
    } else {
      var n := |b| - 1;
      BreaksConcat(a, b[..n], d);
      assert (a + b)[..|a + b| - 1] == a + b[..n];
      if n > 0 {
        assert (a + b)[|a + b| - 1] == b[n] && (a + b)[|a + b| - 2] == b[n - 1];
      }
    }
  }

  lemma {:induction false} ExpandShape(g: Group, d: nat)
    ensures |Expand(g, d)| == g.count && Breaks(Expand(g, d), d) == 0
    ensures g.count > 0 ==> Expand(g, d)[g.count - 1] == Entry(Next(g, d) - d, g.power)
    decreases g.count
  {
    hide Next;
    if g.count > 0 {
      var s := g.(count := g.count - 1);
      ExpandShape(s, d);
      NextStep(s, d);
      assert Expand(g, d)[..g.count - 1] == Expand(s, d);
      if g.count > 1 {
        assert Expand(g, d)[g.count - 2] == Expand(s, d)[s.count - 1];
      }
    }
  }

  lemma {:induction false} BreaksBound(gs: seq<Group>, d: nat)
    requires gs != []
    ensures Breaks(ExpandAll(gs, d), d) <= |gs| - 1
    decreases |gs|
  {
    var n := |gs| - 1;
    ExpandShape(gs[n], d);
    BreaksConcat(ExpandAll(gs[..n], d), Expand(gs[n], d), d);
    if n > 0 { BreaksBound(gs[..n], d); }
  }

  /** No other list of triplets that stands for the same channels is shorter. */
  lemma {:induction false} GroupsShortest(gs: seq<Group>, d: nat)
    ensures |Groups(ExpandAll(gs, d), d)| <= |gs|
  {
    if gs != [] && ExpandAll(gs, d) != [] {
      GroupsCountBreaks(ExpandAll(gs, d), d);
      BreaksBound(gs, d);
    }
  }

  /* The octets. */

  /** A triplet as written: the values are cut to an octet. */
  function Octets(g: Group): seq<byte> {
    [g.first % 256, g.count % 256, g.power]
  }

  function Wire(gs: seq<Group>): (r: seq<byte>)
    ensures |r| == 3 * |gs|
  {
    if gs == [] then [] else Wire(gs[..|gs| - 1]) + Octets(gs[|gs| - 1])
  }

  /** How many triplets fit. */
  function Fit(total: nat, maxLen: nat): nat
    requires maxLen >= 5
  {
    if 5 + 3 * total <= maxLen then total else (maxLen - 5) / 3
  }

  /** The octets of the groups that fit. */
  function Written(gs: seq<Group>, maxLen: nat): (r: seq<byte>)
    requires maxLen >= 5
    ensures |r| == 3 * Fit(|gs|, maxLen)
  {
    Wire(gs[..Fit(|gs|, maxLen)])
  }

  /** Header, triplets and, for an even size, a pad octet; nothing where no room is left for the pad. */
  function Assemble(country: seq<byte>, body: seq<byte>, maxLen: nat): seq<byte> {
    if |body| % 2 == 1 then [WLAN_EID_COUNTRY, (|body| + 3) % 256] + country + body
    else if 5 + |body| == maxLen then []
    else [WLAN_EID_COUNTRY, (|body| + 4) % 256] + country + body + [0]
  }

  /** The element for the groups. */
  function Element(country: seq<byte>, gs: seq<Group>, maxLen: nat): seq<byte>
    requires |country| == 3 && maxLen >= 6
  {
    Assemble(country, Written(gs, maxLen), maxLen)
  }

  /** A reader of the triplets; fewer than three octets left over are padding. */
  function Triplets(b: seq<byte>): seq<Group> {
    if |b| < 3 then [] else [Group(b[0], b[1], b[2])] + Triplets(b[3..])
  }

  datatype Parsed = Parsed(country: seq<byte>, groups: seq<Group>)

  /** A reader of the element that trusts the length octet. */
  function Decode(e: seq<byte>): Option<Parsed> {
    if |e| >= 5 && e[0] == WLAN_EID_COUNTRY && e[1] == |e| - 2
    then Some(Parsed(e[2..5], Triplets(e[5..])))
    else None
  }

  /** The values that are left of a group in a triplet. */
  function CutOne(g: Group): Group {
    Group(g.first % 256, g.count % 256, g.power)
  }

  function Cut(gs: seq<Group>): (r: seq<Group>)
    ensures |r| == |gs|
  {
    if gs == [] then []
    else
      var g := gs[|gs| - 1];
      Cut(gs[..|gs| - 1]) + [CutOne(g)]
  }

  lemma {:induction false} TripletsConcat(a: seq<byte>, b: seq<byte>)
    requires |a| % 3 == 0
    ensures Triplets(a + b) == Triplets(a) + Triplets(b)
    decreases |a|
  {
    if a == [] {
      assert a + b == b;
    } else {
      var s, t := a + b, a[3..];
      TripletsConcat(t, b);
      assert s[3..] == t + b && s[0] == a[0] && s[1] == a[1] && s[2] == a[2];
      var g := [Group(a[0], a[1], a[2])];
      assert Triplets(s) == g + Triplets(t + b);
      assert g + (Triplets(t) + Triplets(b)) == (g + Triplets(t)) + Triplets(b);
    }
  }

  lemma {:induction false} NoTriplets(b: seq<byte>)
    requires |b| < 3
    ensures Triplets(b) == []
  {
  }

  lemma {:induction false} OneTriplet(g: Group)
    ensures Triplets(Octets(g)) == [CutOne(g)]
  {
    NoTriplets(Octets(g)[3..]);
  }

  lemma {:induction false} TripletsOfWire(gs: seq<Group>)
    ensures Triplets(Wire(gs)) == Cut(gs)
    decreases |gs|
  {
    hide Triplets;
    if gs == [] {
      NoTriplets([]);
    } else {
      var n := |gs| - 1;
      TripletsOfWire(gs[..n]);
      TripletsConcat(Wire(gs[..n]), Octets(gs[n]));
      OneTriplet(gs[n]);
    }
  }

  predicate FitsOctets(gs: seq<Group>) {
    forall i :: 0 <= i < |gs| ==> 0 <= gs[i].first < 256 && gs[i].count < 256
  }

  lemma {:induction false} CutSnoc(gs: seq<Group>, g: Group)
    ensures Cut(gs + [g]) == Cut(gs) + [CutOne(g)]
  {
    assert (gs + [g])[..|gs|] == gs;
  }

  /** How a list and its cut form expand, group by group. */
  lemma {:induction false} CutSplit(gs: seq<Group>, d: nat)
    requires gs != []
    ensures var n := |gs| - 1;
      && ExpandAll(gs, d) == ExpandAll(gs[..n], d) + Expand(gs[n], d)
      && ExpandAll(Cut(gs), d) == ExpandAll(Cut(gs[..n]), d) + Expand(CutOne(gs[n]), d)
  {
    hide Expand, ExpandAll, Cut;
    var n := |gs| - 1;
    assert gs == gs[..n] + [gs[n]];
    CutSnoc(gs[..n], gs[n]);
    ExpandAllSnoc(gs[..n], gs[n], d);
    ExpandAllSnoc(Cut(gs[..n]), CutOne(gs[n]), d);
  }

  lemma {:induction false} CutLength(gs: seq<Group>, d: nat)
    ensures |ExpandAll(Cut(gs), d)| <= |ExpandAll(gs, d)|
    ensures |ExpandAll(Cut(gs), d)| == |ExpandAll(gs, d)| ==> forall i :: 0 <= i < |gs| ==> gs[i].count < 256
    decreases |gs|
  {
    hide Expand, Breaks, Next, ExpandAll;
    if gs == [] {
      assert Cut(gs) == gs;
    } else {
      var n := |gs| - 1;
      CutLength(gs[..n], d);
      CutSplit(gs, d);
      ExpandShape(gs[n], d);
      ExpandShape(CutOne(gs[n]), d);
      assert forall i :: 0 <= i < n ==> gs[i] == gs[..n][i];
    }
  }

  lemma {:induction false} ExpandFirst(g: Group, d: nat)
    requires g.count > 0
    ensures |Expand(g, d)| == g.count && Expand(g, d)[0] == Entry(g.first, g.power)
    decreases g.count
  {
    if g.count > 1 { ExpandFirst(g.(count := g.count - 1), d); }
  }

  lemma {:induction false} CutFaithfulGivenCounts(gs: seq<Group>, d: nat)
    requires forall i :: 0 <= i < |gs| ==> 0 < gs[i].count < 256
    ensures ExpandAll(Cut(gs), d) == ExpandAll(gs, d) <==> FitsOctets(gs)
    decreases |gs|
  {
    hide Expand, Next, FitsOctets, ExpandAll;
    if gs == [] {
      FitsNone();
      assert Cut(gs) == gs;
    } else {
      var n := |gs| - 1;
      var g := gs[n];
      CutFaithfulGivenCounts(gs[..n], d);
      CutSplit(gs, d);
      ExpandFirst(g, d);
      ExpandFirst(CutOne(g), d);
      SplitTail(ExpandAll(Cut(gs[..n]), d), Expand(CutOne(g), d), ExpandAll(gs[..n], d), Expand(g, d));
      FitsSplit(gs);
      if 0 <= g.first < 256 { assert CutOne(g) == g; }
    }
  }

  lemma {:induction false} FitsNone()
    ensures FitsOctets([])
  {
  }

  lemma {:induction false} FitsSplit(gs: seq<Group>)
    requires gs != []
    ensures var n := |gs| - 1;
      FitsOctets(gs) <==> (FitsOctets(gs[..n]) && 0 <= gs[n].first < 256 && gs[n].count < 256)
  {
    var h := gs[..|gs| - 1];
    assert forall i :: 0 <= i < |h| ==> h[i] == gs[i];
  }

  lemma SplitTail(a: seq<Entry>, b: seq<Entry>, x: seq<Entry>, y: seq<Entry>)
    requires |b| == |y|
    ensures a + b == x + y <==> a == x && b == y
  {
    if a + b == x + y {
      assert |a| == |x|;
      assert a == (a + b)[..|a|] == (x + y)[..|x|] == x;
      assert b == (a + b)[|a|..] == (x + y)[|x|..] == y;
    }
  }

  /** The cut to octets is harmless exactly when every first number and every count is an octet. */
  lemma {:induction false} CutFaithful(gs: seq<Group>, d: nat)
    requires forall i :: 0 <= i < |gs| ==> gs[i].count > 0
    ensures ExpandAll(Cut(gs), d) == ExpandAll(gs, d) <==> FitsOctets(gs)
  {
    CutLength(gs, d);
    if forall i :: 0 <= i < |gs| ==> gs[i].count < 256 {
      CutFaithfulGivenCounts(gs, d);
    }
  }

  lemma {:induction false} ExpandAllConcat(a: seq<Group>, b: seq<Group>, d: nat)
    ensures ExpandAll(a + b, d) == ExpandAll(a, d) + ExpandAll(b, d)
    decreases |b|
  {
    hide Expand;
    if b == [] {
      assert a + b == a;
    } else {
      var n := |b| - 1;
      ExpandAllConcat(a, b[..n], d);
      assert (a + b)[..|a + b| - 1] == a + b[..n] && (a + b)[|a + b| - 1] == b[n];
      assert ExpandAll(a, d) + (ExpandAll(b[..n], d) + Expand(b[n], d))
          == (ExpandAll(a, d) + ExpandAll(b[..n], d)) + Expand(b[n], d);
    }
  }

  lemma LengthOctet(w: nat)
    ensures 3 * w % 2 == w % 2
    ensures (3 * w + 3) % 256 == 3 * w + 3 <==> w < 85
    ensures (3 * w + 4) % 256 == 3 * w + 4 <==> w < 84
  {
  }

  /** The element's size is even, and its length octet is right exactly up to 83 triplets. */
  lemma {:induction false} ElementShape(country: seq<byte>, gs: seq<Group>, maxLen: nat)
    requires |country| == 3 && maxLen >= 6
    ensures |Element(country, gs, maxLen)| <= maxLen && |Element(country, gs, maxLen)| % 2 == 0
    ensures var e := Element(country, gs, maxLen);
      e == [] || (Decode(e).Some? <==> Fit(|gs|, maxLen) <= 83)
    ensures Element(country, gs, maxLen) == [] <==>
      (maxLen == 5 + 3 * Fit(|gs|, maxLen) && Fit(|gs|, maxLen) % 2 == 0)
  {
    hide Wire, Triplets, Written, Decode, Assemble;
    var w, body := Fit(|gs|, maxLen), Written(gs, maxLen);
    assert |body| == 3 * w && 5 + 3 * w <= maxLen;
    LengthOctet(w);
    AssembleShape(country, body, maxLen);
    var e := Element(country, gs, maxLen);
    if e != [] { DecodesIff(e); }
  }

  lemma {:induction false} AssembleShape(country: seq<byte>, body: seq<byte>, maxLen: nat)
    requires |country| == 3
    ensures var e := Assemble(country, body, maxLen);
      if |body| % 2 == 1 then |e| == 5 + |body| && e[0] == WLAN_EID_COUNTRY && e[1] == (|body| + 3) % 256
      else if 5 + |body| == maxLen then e == []
      else |e| == 6 + |body| && e[0] == WLAN_EID_COUNTRY && e[1] == (|body| + 4) % 256
  {
  }

  lemma {:induction false} DecodesIff(e: seq<byte>)
    requires |e| >= 5 && e[0] == WLAN_EID_COUNTRY
    ensures Decode(e).Some? <==> e[1] == |e| - 2
  {
  }

  /** The pad octet is zero. */
  lemma {:induction false} PadIsZero(country: seq<byte>, gs: seq<Group>, maxLen: nat)
    requires |country| == 3 && maxLen >= 6 && Fit(|gs|, maxLen) % 2 == 0 && Element(country, gs, maxLen) != []
    ensures var e := Element(country, gs, maxLen);
      |e| > 0 && e[|e| - 1] == 0
  {
    hide Written, Wire;
    LengthOctet(Fit(|gs|, maxLen));
  }

  /** What a reader gets back: the groups that fit, cut to octets. */
  lemma {:induction false} DecodeElement(country: seq<byte>, gs: seq<Group>, maxLen: nat)
    requires |country| == 3 && maxLen >= 6 && Decode(Element(country, gs, maxLen)).Some?
    ensures Decode(Element(country, gs, maxLen)).value
         == Parsed(country, Cut(gs[..Fit(|gs|, maxLen)]))
  {
    var e := Element(country, gs, maxLen);
    var body := Wire(gs[..Fit(|gs|, maxLen)]);
    assert e[2..5] == country;
    TripletsOfWire(gs[..Fit(|gs|, maxLen)]);
    if |body| % 2 == 1 {
      assert e[5..] == body;
    } else {
      assert e[5..] == body + [0];
      TripletsConcat(body, [0]);
    }
  }

  /**
   * Reading the element gives the enabled channels with their powers, all of them when every group fits and the
   * expansion of the first groups otherwise, exactly when the triplets sent are made of octets.
   */
  lemma {:induction false} CountryRoundTrip(country: seq<byte>, channels: seq<Channel>, modeA: bool, maxLen: nat)
    requires |country| == 3 && maxLen >= 6
    requires Decode(Element(country, Groups(Enabled(channels), Spacing(modeA)), maxLen)).Some?
    ensures var d := Spacing(modeA);
      var gs := Groups(Enabled(channels), d);
      var sent := gs[..Fit(|gs|, maxLen)];
      var p := Decode(Element(country, gs, maxLen)).value;
      && p.country == country
      && (FitsOctets(sent) <==> ExpandAll(p.groups, d) == ExpandAll(sent, d))
      && ExpandAll(sent, d) <= Enabled(channels)
      && (5 + 3 * |gs| <= maxLen ==> ExpandAll(sent, d) == Enabled(channels))
  {
    hide ExpandAll, Element, Cut, Groups, Enabled, Decode, FitsOctets;
    var d := Spacing(modeA);
    var gs := Groups(Enabled(channels), d);
    var w := Fit(|gs|, maxLen);
    DecodeElement(country, gs, maxLen);
    CutFaithful(gs[..w], d);
    GroupsExpand(Enabled(channels), d);
    PrefixExpands(gs, w, d);
  }

  lemma {:induction false} PrefixExpands(gs: seq<Group>, w: nat, d: nat)
    requires w <= |gs|
    ensures ExpandAll(gs[..w], d) <= ExpandAll(gs, d) && gs[..|gs|] == gs
  {
    ExpandAllConcat(gs[..w], gs[w..], d);
    assert gs[..w] + gs[w..] == gs;
  }

  /** Channel numbers from 1 to 255 always give triplets made of octets. */
  lemma {:induction false} OctetsSuffice(en: seq<Entry>, d: nat)
    requires d > 0 && forall i :: 0 <= i < |en| ==> 1 <= en[i].number < 256
    ensures FitsOctets(Groups(en, d))
    decreases |en|
  {
    hide Next, Breaks, Extend;
    if en != [] {
      var n := |en| - 1;
      OctetsSuffice(en[..n], d);
      GroupsCountBreaks(en, d);
      FirstIsChannel(en, d);
      EarlierGroups(Groups(en[..n], d), en[n], d);
      var gs := Groups(en, d);
      ShortGroup(gs[|gs| - 1], d);
    }
  }

  /** A channel changes no group but the last. */
  lemma {:induction false} EarlierGroups(gs: seq<Group>, e: Entry, d: nat)
    ensures var r := Extend(gs, e, d);
      |r| - 1 <= |gs| && forall i :: 0 <= i < |r| - 1 ==> r[i] == gs[i]
  {
    hide Next;
  }

  lemma AtLeast(c: nat, d: nat)
    requires d > 0
    ensures c * d >= c
  {
  }

  lemma {:induction false} ShortGroup(g: Group, d: nat)
    requires d > 0 && g.first >= 1 && Next(g, d) - d < 256
    ensures g.count < 256
  {
    if g.count > 0 {
      var c := g.count - 1;
      AtLeast(c, d);
      assert (c + 1) * d == c * d + d;
    }
  }

  lemma {:induction false} FirstIsChannel(en: seq<Entry>, d: nat)
    requires en != []
    ensures exists j :: 0 <= j < |en| && en[j].number == Groups(en, d)[|Groups(en, d)| - 1].first
    decreases |en|
  {
    hide Next, Extend, Joins;
    var n := |en| - 1;
    var before := Groups(en[..n], d);
    LastFirst(before, en[n], d);
    if Joins(before, en[n], d) {
      assert n > 0 by { JoinsSome(before, en[n], d); }
      FirstIsChannel(en[..n], d);
      var j :| 0 <= j < n && en[..n][j].number == before[|before| - 1].first;
      assert en[j] == en[..n][j];
    }
  }

  lemma {:induction false} JoinsSome(gs: seq<Group>, e: Entry, d: nat)
    requires Joins(gs, e, d)
    ensures gs != []
  {
  }

  /** The open group keeps its first channel; a new one begins with the channel itself. */
  lemma {:induction false} LastFirst(gs: seq<Group>, e: Entry, d: nat)
    ensures var r := Extend(gs, e, d);
      r[|r| - 1].first == if Joins(gs, e, d) then gs[|gs| - 1].first else e.number
  {
    hide Next;
  }

  /** n enabled channels with odd numbers, no two of which share a group at spacing 1. */
  function OddChannels(n: nat): seq<Channel> {
    if n == 0 then [] else OddChannels(n - 1) + [Channel(2 * n - 1, 20, false)]
  }

  lemma {:induction false} OddGroups(n: nat)
    ensures |OddChannels(n)| == n && |Enabled(OddChannels(n))| == n
    ensures n > 0 ==> Enabled(OddChannels(n))[n - 1] == Entry(2 * n - 1, 20)
    ensures |Groups(Enabled(OddChannels(n)), 1)| == n
  {
    hide Extend, Next;
    if n == 0 {
      assert Groups([], 1) == [];
    } else {
      OddGroups(n - 1);
      hide Groups;
      var before, en := Enabled(OddChannels(n - 1)), Enabled(OddChannels(n));
      assert OddChannels(n)[..n - 1] == OddChannels(n - 1);
      assert en == before + [Entry(2 * n - 1, 20)] && en[..n - 1] == before;
      GroupsCountBreaks(en, 1);
      if n > 1 { GroupsCountBreaks(before, 1); }
    }
  }

  /** 84 groups and room for them: the length octet wraps to 0 and a reader finds no element. */
  lemma {:induction false} LengthOctetWraps(country: seq<byte>)
    requires |country| == 3
    ensures var e := Element(country, Groups(Enabled(OddChannels(84)), Spacing(false)), 258);
      |e| == 258 && e[1] == 0 && Decode(e) == None
  {
    OddGroups(84);
    hide Groups, Wire, Written, Triplets, OddChannels, Enabled;
    var gs := Groups(Enabled(OddChannels(84)), 1);
    assert |Written(gs, 258)| == 252;
  }

  /** A channel number above an octet: channel 257 is read back as channel 1. */
  lemma {:induction false} WideNumberMisread(country: seq<byte>)
    requires |country| == 3
    ensures var channels := [Channel(257, 20, false)];
      var p := Decode(Element(country, Groups(Enabled(channels), Spacing(false)), 8));
      && p.Some? && ExpandAll(p.value.groups, 1) == [Entry(1, 20)] && Enabled(channels) == [Entry(257, 20)]
  {
    hide Groups, Enabled, Wire, Expand, Element, Decode;
    WideGroups();
    var gs := [Group(257, 1, 20)];
    assert Groups(Enabled([Channel(257, 20, false)]), 1) == gs && gs[..1] == gs;
    ElementShape(country, gs, 8);
    DecodeElement(country, gs, 8);
    NarrowExpand();
  }

  lemma {:induction false} WideGroups()
    ensures Enabled([Channel(257, 20, false)]) == [Entry(257, 20)]
    ensures Groups([Entry(257, 20)], 1) == [Group(257, 1, 20)]
  {
    assert [Channel(257, 20, false)][..0] == [] && [Entry(257, 20)][..0] == [];
    assert Enabled([]) == [] && Groups([], 1) == [];
  }

  lemma {:induction false} NarrowExpand()
    ensures ExpandAll(Cut([Group(257, 1, 20)]), 1) == [Entry(1, 20)]
  {
    hide Expand;
    var wide := [Group(257, 1, 20)];
    CutSplit(wide, 1);
    assert wide[..0] == [] && Cut([]) == [] && ExpandAll([], 1) == [];
    assert CutOne(wide[0]) == Group(1, 1, 20);
    ExpandOne(Entry(1, 20), 1);
  }

  /** The lower 5 GHz band at one power is one triplet: identifier 7, first channel 36, four channels. */
  lemma {:induction false} BandElement(country: seq<byte>, p: byte)
    requires |country| == 3
    ensures
      var channels := [Channel(36, p, false), Channel(40, p, false), Channel(44, p, false), Channel(48, p, false)];
      Element(country, Groups(Enabled(channels), Spacing(true)), 8) == [7, 6] + country + [36, 4, p]
  {
    hide Groups, Enabled, Next;
    var en := [Entry(36, p), Entry(40, p), Entry(44, p), Entry(48, p)];
    BandEnabled(p);
    BandGroups(p);
    var gs := [Group(36, 4, p)];
    assert Groups(en, 4) == gs && gs[..1] == gs && gs[..0] == [];
    assert Wire([]) == [] && Wire(gs) == [] + Octets(gs[0]) == [36, 4, p];
    assert Written(gs, 8) == [36, 4, p];
  }

  lemma {:induction false} BandEnabled(p: byte)
    ensures Enabled([Channel(36, p, false), Channel(40, p, false), Channel(44, p, false), Channel(48, p, false)])
         == [Entry(36, p), Entry(40, p), Entry(44, p), Entry(48, p)]
  {
    var a, b, c, d := Channel(36, p, false), Channel(40, p, false), Channel(44, p, false), Channel(48, p, false);
    assert [a, b, c, d][..3] == [a, b, c] && [a, b, c][..2] == [a, b] && [a, b][..1] == [a] && [a][..0] == [];
    assert Enabled([a]) == [Entry(36, p)];
    assert Enabled([a, b]) == [Entry(36, p), Entry(40, p)];
    assert Enabled([a, b, c]) == [Entry(36, p), Entry(40, p), Entry(44, p)];
  }

  lemma {:induction false} BandGroups(p: byte)
    ensures Groups([Entry(36, p), Entry(40, p), Entry(44, p), Entry(48, p)], 4) == [Group(36, 4, p)]
  {
    hide Groups, Extend;
    var a, b, c, d := Entry(36, p), Entry(40, p), Entry(44, p), Entry(48, p);
    NextGroups([], a, 4);
    NextGroups([a], b, 4);
    NextGroups([a, b], c, 4);
    NextGroups([a, b, c], d, 4);
    assert [] + [a] == [a] && [a] + [b] == [a, b] && [a, b] + [c] == [a, b, c] && [a, b, c] + [d] == [a, b, c, d];
    OpenOne(a, 4);
    JoinOne(Group(36, 1, p), b, 4);
    JoinOne(Group(36, 2, p), c, 4);
    JoinOne(Group(36, 3, p), d, 4);
  }

  lemma {:induction false} OpenOne(e: Entry, d: nat)
    ensures Extend(Groups([], d), e, d) == [Group(e.number, 1, e.power)]
  {
    assert Groups([], d) == [];
  }

  lemma {:induction false} JoinOne(g: Group, e: Entry, d: nat)
    requires Next(g, d) == e.number && g.power == e.power
    ensures Extend([g], e, d) == [Group(g.first, g.count + 1, g.power)]
  {
    assert [g][..0] == [];
  }

  /** hostapd_eid_country_add */
  method EidCountryAdd(eid: array<byte>, pos: nat, spacing: nat, start: Channel, prev: Channel, ghost gs: seq<Group>)
    returns (next: nat)
    requires pos <= eid.Length && spacing in {1, 4}
    requires gs != [] && Current(gs, Some(start), Some(prev), spacing)
    modifies eid
    ensures next == pos + (if eid.Length - pos < 3 then 0 else 3)
    ensures eid[..next] == old(eid[..pos]) + if eid.Length - pos < 3 then [] else Octets(gs[|gs| - 1])
  {
    if eid.Length - pos < 3 {
      return pos;
    }
    eid[pos] := start.number % 256;
    assert (prev.number - start.number) / spacing == gs[|gs| - 1].count - 1;
    eid[pos + 1] := ((prev.number - start.number) / spacing + 1) % 256;
    eid[pos + 2] := start.power;
    return pos + 3;
  }

  /** Completing the open group writes it if it fits. */
  method Flush(eid: array<byte>, pos: nat, spacing: nat, start: Channel, prev: Channel, ghost gs: seq<Group>,
               ghost head: seq<byte>) returns (next: nat)
    requires pos <= eid.Length && eid.Length >= 6 && spacing in {1, 4} && |head| == 5
    requires gs != [] && Current(gs, Some(start), Some(prev), spacing)
    requires eid[..pos] == head + Written(Done(gs), eid.Length)
    modifies eid
    ensures next <= eid.Length && eid[..next] == head + Written(gs, eid.Length)
  {
    hide Written, Done, Current, Octets;
    FlushedFits(gs, eid.Length);
    assert pos == 5 + |Written(Done(gs), eid.Length)|;
    next := EidCountryAdd(eid, pos, spacing, start, prev, gs);
  }

  /** The channel loop of hostapd_eid_country. */
  method WriteGroups(eid: array<byte>, head: nat, spacing: nat, channels: seq<Channel>) returns (pos: nat)
    requires head == 5 && eid.Length >= 6 && spacing in {1, 4}
    modifies eid
    ensures var gs := Groups(Enabled(channels), spacing);
      && pos <= eid.Length
      && eid[..pos] == old(eid[..head]) + Written(gs, eid.Length)
  {
    hide Wire, Groups, Octets, Extend, Done, Current, Written, Enabled, Fit;
    ghost var was := eid[..head];
    pos := head;
    var start, prev := None, None;
    ghost var gs := Groups([], spacing);
    NoGroups(spacing, eid.Length);
    for i := 0 to |channels|
      invariant gs == Groups(Enabled(channels[..i]), spacing) && was == old(eid[..head])
      invariant (start.Some? <==> gs != []) && (prev.Some? <==> gs != [])
      invariant Current(gs, start, prev, spacing)
      invariant pos <= eid.Length && eid[..pos] == was + Written(Done(gs), eid.Length)
    {
      var chan := channels[i];
      EnabledStep(channels, i);
      if chan.disabled {
        continue;
      }
      ghost var e := Entry(chan.number, chan.power);
      NextGroups(Enabled(channels[..i]), e, spacing);
      if start.Some? && prev.Some? && prev.value.number + spacing == chan.number
         && start.value.power == chan.power {
        Joined(gs, e, start, prev, chan, spacing);
        prev := Some(chan);
        gs := Extend(gs, e, spacing);
        continue;
      }
      Opened(gs, e, start, prev, chan, spacing);
      if start.Some? && prev.Some? {
        pos := Flush(eid, pos, spacing, start.value, prev.value, gs, was);
        start := None;
      }
      gs := Extend(gs, e, spacing);
      start, prev := Some(chan), Some(chan);
    }
    assert channels[..|channels|] == channels;
    if start.Some? {
      pos := Flush(eid, pos, spacing, start.value, prev.value, gs, was);
    }
  }

  /** hostapd_eid_country; eid.Length is max_len. */
  method EidCountry(eid: array<byte>, ieee80211d: bool, country: seq<byte>, haveMode: bool, modeA: bool,
                    channels: seq<Channel>) returns (pos: nat)
    requires |country| == 3
    modifies eid
    ensures pos <= eid.Length
    ensures eid[..pos] == if !ieee80211d || eid.Length < 6 || !haveMode then []
                          else Element(country, Groups(Enabled(channels), Spacing(modeA)), eid.Length)
  {
    hide Wire, Groups, Enabled, Written, Assemble, Fit;
    if !ieee80211d || eid.Length < 6 || !haveMode {
      return 0;
    }
    eid[0] := WLAN_EID_COUNTRY;
    eid[2], eid[3], eid[4] := country[0], country[1], country[2];
    ghost var was := eid[..5];
    assert was == [WLAN_EID_COUNTRY, was[1]] + country;
    var spacing := 1;
    if modeA {
      spacing := 4;
    }
    pos := WriteGroups(eid, 5, spacing, channels);
    ghost var gs := Groups(Enabled(channels), spacing);
    pos := Finish(eid, pos, country, Written(gs, eid.Length));
  }

  /** The end of hostapd_eid_country: pad to an even size, then set the length octet. */
  method Finish(eid: array<byte>, size: nat, ghost country: seq<byte>, ghost body: seq<byte>) returns (pos: nat)
    requires |country| == 3 && 5 + |body| == size <= eid.Length
    requires eid[..size] == [WLAN_EID_COUNTRY, eid[1]] + country + body
    modifies eid
    ensures pos <= eid.Length
    ensures eid[..pos] == Assemble(country, body, eid.Length)
  {
    hide Assemble;
    ghost var text := eid[..size];
    Completed(country, eid[1], body, eid.Length);
    pos := size;
    if pos % 2 == 1 {
      if eid.Length - pos < 1 {
        return 0;
      }
      eid[pos] := 0;
      pos := pos + 1;
      assert eid[..pos] == text + [0];
    }
    ghost var unfinished := eid[..pos];
    var len: byte := (pos - 2) % 256;
    eid[1] := len;
    assert eid[..pos] == unfinished[1 := len];
  }

  /** Padding to an even size and setting the length octet completes the element. */
  lemma {:induction false} Completed(country: seq<byte>, x: byte, body: seq<byte>, maxLen: nat)
    requires |country| == 3
    ensures var text := [WLAN_EID_COUNTRY, x] + country + body;
      var size := 5 + |body|;
      && |text| == size
      && (size % 2 == 0 ==> Assemble(country, body, maxLen) == text[1 := (size - 2) % 256])
      && (size % 2 == 1 && size == maxLen ==> Assemble(country, body, maxLen) == [])
      && (size % 2 == 1 && size != maxLen ==> Assemble(country, body, maxLen) == (text + [0])[1 := (size - 1) % 256])
  {
    var size := 5 + |body|;
    if size % 2 == 0 {
      SetLength(country, x, (size - 2) % 256, body);
    } else {
      SetLength(country, x, (size - 1) % 256, body + [0]);
      assert [WLAN_EID_COUNTRY, x] + country + body + [0] == [WLAN_EID_COUNTRY, x] + country + (body + [0]);
    }
  }

  lemma SetLength(country: seq<byte>, x: byte, len: byte, body: seq<byte>)
    ensures ([WLAN_EID_COUNTRY, x] + country + body)[1 := len] == [WLAN_EID_COUNTRY, len] + country + body
  {
  }

  lemma {:induction false} NoGroups(d: nat, maxLen: nat)
    requires maxLen >= 6
    ensures Groups([], d) == [] && Done([]) == [] && Written([], maxLen) == []
    ensures Current([], None, None, d) && Enabled([]) == []
  {
  }

  lemma {:induction false} EnabledStep(channels: seq<Channel>, i: nat)
    requires i < |channels|
    ensures Enabled(channels[..i + 1]) == if channels[i].disabled then Enabled(channels[..i])
                                          else Enabled(channels[..i]) + [Entry(channels[i].number, channels[i].power)]
  {
    assert channels[..i + 1][..i] == channels[..i];
  }

  /** The current channel extends the open group. */
  lemma {:induction false} Joined(gs: seq<Group>, e: Entry, start: Option<Channel>, prev: Option<Channel>,
                                  chan: Channel, d: nat)
    requires gs != [] && start.Some? && prev.Some? && Current(gs, start, prev, d)
    requires e == Entry(chan.number, chan.power)
    requires prev.value.number + d == chan.number && start.value.power == chan.power
    ensures Current(Extend(gs, e, d), start, Some(chan), d) && Done(Extend(gs, e, d)) == Done(gs)
  {
    NextStep(gs[|gs| - 1], d);
  }

  /** The current channel opens a group, which completes the open one. */
  lemma {:induction false} Opened(gs: seq<Group>, e: Entry, start: Option<Channel>, prev: Option<Channel>,
                                  chan: Channel, d: nat)
    requires Current(gs, start, prev, d) && (gs != [] ==> start.Some? && prev.Some?)
    requires e == Entry(chan.number, chan.power)
    requires gs == [] || prev.value.number + d != chan.number || start.value.power != chan.power
    ensures Current(Extend(gs, e, d), Some(chan), Some(chan), d) && Done(Extend(gs, e, d)) == gs
    ensures gs == [] ==> Done(gs) == []
  {
  }

  /** All groups but the one still open. */
  ghost function Done(gs: seq<Group>): seq<Group> {
    if gs == [] then [] else gs[..|gs| - 1]
  }

  ghost predicate Current(gs: seq<Group>, start: Option<Channel>, prev: Option<Channel>, d: nat) {
    gs != [] && start.Some? && prev.Some? ==>
      var g := gs[|gs| - 1];
      g.count > 0 && start.value.number == g.first && start.value.power == g.power
      && prev.value.number == Next(g, d) - d
  }

  /** Writing the open group, if three octets are left, gives what fits of all groups. */
  lemma {:induction false} FlushedFits(gs: seq<Group>, maxLen: nat)
    requires gs != [] && maxLen >= 6
    ensures Written(gs, maxLen) == Written(Done(gs), maxLen)
      + if maxLen - (5 + |Written(Done(gs), maxLen)|) < 3 then [] else Octets(gs[|gs| - 1])
  {
    var n := |gs| - 1;
    var fit := Fit(n, maxLen);
    if maxLen - 5 - 3 * fit < 3 {
      assert Done(gs)[..fit] == gs[..Fit(|gs|, maxLen)];
    } else {
      assert fit == n && gs[..n + 1] == gs && Done(gs)[..n] == gs[..n];
    }
  }
}
