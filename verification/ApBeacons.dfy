/** The AP table's entries and flags read off the beacons themselves, over whole runs. */
module ApBeacons {
  import opened Options
  import opened Bits
  import opened MacAddress
  import opened ApSpec
  import opened ApRuns

  /** The last beacon heard from the address. */
  function LastBeacon(es: seq<Event>, addr: Mac): Option<Beacon> {
    if es == [] then None
    else if Last(es).Heard? && Last(es).b.bssid == addr then Some(Last(es).b)
    else LastBeacon(Init(es), addr)
  }

  /** The channel a beacon tells: DS Parameter Set before HT Operation before the receiver's own knowledge. */
  function Announced(b: Beacon): (r: Option<int>)
    ensures b.dsChannel.Some? ==> r == Some(b.dsChannel.value)
    ensures r.None? <==> b.dsChannel.None? && b.htOperChannel.None? && b.frameChannel.None?
  {
    match (b.dsChannel, b.htOperChannel)
    case (Some(ds), _) => Some(ds)
    case (None, Some(ht)) => Some(ht)
    case (None, None) => b.frameChannel
  }

  /** In the table, by history alone. */
  predicate Held(c: Conf, es: seq<Event>, addr: Mac) {
    addr in Recency(es) && |OthersSince(es, addr)| < c.maxSize && !ExpiredSince(c, es, addr)
  }

  /** The channel last told while the address was in the table, 0 if none was. */
  function KnownChannel(c: Conf, es: seq<Event>, addr: Mac): int {
    if es == [] then 0
    else if Last(es).Heard? && Last(es).b.bssid == addr then
      if Announced(Last(es).b).Some? then Announced(Last(es).b).value
      else if Held(c, Init(es), addr) then KnownChannel(c, Init(es), addr)
      else 0
    else KnownChannel(c, Init(es), addr)
  }

  /** Octet i of the two rate elements, one after the other. */
  function RateOctet(b: Beacon, i: nat): Option<byte> {
    var n := if b.suppRates.Some? then |b.suppRates.value| else 0;
    if i < n then Some(b.suppRates.value[i])
    else if b.extRates.Some? && i - n < |b.extRates.value| then Some(b.extRates.value[i - n])
    else None
  }

  /** None of the first 32 rates is 6 or 9 Mb/s or above 11 Mb/s. */
  predicate OnlySlowRates(b: Beacon) {
    forall i: nat :: i < 32 && RateOctet(b, i).Some? ==> SlowRate(RateOctet(b, i).value)
  }

  predicate SlowRate(r: byte) {
    r % 128 != 12 && r % 128 != 18 && r % 128 <= 22
  }

  /** A legacy BSS on our channel, by the elements of its beacon. */
  predicate LegacyBeacon(c: Conf, b: Beacon, channel: int) {
    && c.modeG && channel == c.channel
    && ((b.erpInfo.Some? && b.erpInfo.value % 2 == 1) || OnlySlowRates(b))
  }

  /** A BSS without HT on one of our channels, or on none we know. */
  predicate NonHtBeacon(c: Conf, b: Beacon, channel: int) {
    !b.htCapab && (channel == 0 || channel == c.channel || channel == c.channel + 4 * c.secondary)
  }

  predicate LegacyHeard(c: Conf, es: seq<Event>, addr: Mac) {
    LastBeacon(es, addr).Some? && LegacyBeacon(c, LastBeacon(es, addr).value, KnownChannel(c, es, addr))
  }

  predicate NonHtHeard(es: seq<Event>, addr: Mac) {
    LastBeacon(es, addr).Some? && !LastBeacon(es, addr).value.htCapab
  }

  /** The entry shows what the beacon said. */
  predicate Shown(ap: Ap, b: Beacon, channel: int) {
    && ap.addr == b.bssid && ap.channel == channel && ap.ht == b.htCapab
    && (ap.erp == if b.erpInfo.Some? then b.erpInfo.value else -1)
    && |ap.rates| == 32
    && forall i :: 0 <= i < 32 ==> ap.rates[i] == if RateOctet(b, i).Some? then RateOctet(b, i).value else 0
  }

  /** The copying of the elements puts into the entry what the beacon said. */
  lemma {:induction false} RefreshShows(prior: int, b: Beacon, now: int)
    ensures Shown(Refresh(prior, b, now), b, if Announced(b).Some? then Announced(b).value else prior)
  {
    var all := Octets(b.suppRates) + Octets(b.extRates);
    forall i: nat | i < 32 ensures MergedRates(b)[i] == if RateOctet(b, i).Some? then RateOctet(b, i).value else 0 {
      assert RateOctet(b, i).Some? <==> i < |all|;
    }
  }

  /** The legacy tests on a shown entry are the tests on the beacon. */
  lemma {:induction false} ShownLegacy(c: Conf, ap: Ap, b: Beacon, channel: int)
    requires Shown(ap, b, channel)
    ensures Legacy(c, ap) <==> LegacyBeacon(c, b, channel)
    ensures LegacyHt(c, ap) <==> NonHtBeacon(c, b, channel)
  {
    LegacyMeans(c, ap);
    hide Legacy, RateOctet;
    assert SlowRate(0);
    if OnlySlowRates(b) {
      assert forall i: nat :: i < 32 ==> SlowRate(ap.rates[i]);
    } else {
      var i: nat :| i < 32 && RateOctet(b, i).Some? && !SlowRate(RateOctet(b, i).value);
      assert !SlowRate(ap.rates[i]);
    }
  }

  /** Every entry shows the last beacon of its sender, with the channel last told while it was in the table. */
  lemma {:induction false} EntryByHistory(c: Conf, es: seq<Event>, k: nat)
    requires ClockOk(es) && k < |Run(c, es).aps|
    ensures var ap := Run(c, es).aps[k];
      LastBeacon(es, ap.addr).Some? && Shown(ap, LastBeacon(es, ap.addr).value, KnownChannel(c, es, ap.addr))
    decreases |es|
  {
    hide Shown, Legacy, LegacyHt, SomeLegacy, SomeNonHt, Refresh, Held, DropExpiredTail, Find, Announced;
    var before, t := Init(es), Run(c, Init(es));
    var ap := Run(c, es).aps[k];
    match Last(es)
    case Heard(b, now) =>
      if c.maxSize < 1 {
        RunInv(c, es);
        assert false;
      } else if k == 0 {
        SenderShown(c, es);
        ShownChannel(ap, b, KnownChannel(c, es, b.bssid));
      } else {
        RunInv(c, before);
        RestKeeps(c, t, b.bssid, Clock(before));
        hide Rest;
        var rest := Rest(c, t.aps, b.bssid);
        assert ap == rest[k - 1] && ap in t.aps;
        var j: nat :| j < |t.aps| && t.aps[j] == ap;
        EntryByHistory(c, before, j);
      }
    case Tick(now) =>
      RunInv(c, before);
      TailExpiryIsFullScan(c, t.aps, now, Clock(before));
      assert ap == t.aps[k];
      EntryByHistory(c, before, k);
  }

  lemma {:induction false} SenderShown(c: Conf, es: seq<Event>)
    requires ClockOk(es) && es != [] && Last(es).Heard? && c.maxSize >= 1
    ensures Run(c, es).aps != []
    ensures Shown(Run(c, es).aps[0], Last(es).b, KnownChannel(c, es, Last(es).b.bssid))
    decreases |es|, 0
  {
    hide Shown, Legacy, LegacyHt, Refresh, Held, Rest, Announced;
    var b, before, t := Last(es).b, Init(es), Run(c, Init(es));
    var k := Find(t.aps, b.bssid);
    var prior := if k < |t.aps| then t.aps[k].channel else 0;
    RefreshShows(prior, b, Last(es).now);
    TableByHistory(c, before, b.bssid);
    HeldIs(c, before, b.bssid);
    if k < |t.aps| {
      assert t.aps[k] in t.aps;
      EntryByHistory(c, before, k);
      ShownChannel(t.aps[k], LastBeacon(before, b.bssid).value, KnownChannel(c, before, b.bssid));
    } else {
      assert !Present(c, before, b.bssid);
    }
  }

  lemma {:induction false} HeldIs(c: Conf, es: seq<Event>, addr: Mac)
    ensures Held(c, es, addr) <==>
      addr in Recency(es) && |OthersSince(es, addr)| < c.maxSize && !ExpiredSince(c, es, addr)
  {
  }

  lemma {:induction false} ShownChannel(ap: Ap, b: Beacon, channel: int)
    requires Shown(ap, b, channel)
    ensures ap.addr == b.bssid && ap.channel == channel && ap.ht == b.htCapab
  {
  }

  /** The flags after a beacon, by what the beacon said. */
  lemma {:induction false} FlagsRaised(c: Conf, es: seq<Event>)
    requires ClockOk(es) && es != [] && Last(es).Heard? && c.maxSize >= 1
    ensures var t, t', b := Run(c, Init(es)), Run(c, es), Last(es).b;
      var channel := KnownChannel(c, es, b.bssid);
      && (t'.olbc <==> t.olbc || LegacyBeacon(c, b, channel))
      && (t'.olbcHt <==> t.olbcHt || NonHtBeacon(c, b, channel))
  {
    hide Shown, Legacy, LegacyHt, HeardEntry, Rest, LegacyBeacon, NonHtBeacon, KnownChannel;
    SenderShown(c, es);
    ShownLegacy(c, Run(c, es).aps[0], Last(es).b, KnownChannel(c, es, Last(es).b.bssid));
  }

  /**
   * After a timer call olbc holds if and only if the last beacon of some AP still in the table shows a legacy BSS on
   * our channel; olbc_ht only while the last beacon of some AP in the table lacks HT capabilities.
   */
  lemma {:induction false} OlbcByHistory(c: Conf, es: seq<Event>, now: int)
    requires ClockOk(es + [Tick(now)])
    ensures var all := es + [Tick(now)];
      && (Run(c, all).olbc <==> exists a :: Present(c, all, a) && LegacyHeard(c, all, a))
      && (Run(c, all).olbcHt <==> Run(c, es).olbcHt && exists a :: Present(c, all, a) && NonHtHeard(all, a))
  {
    hide Shown, Legacy, LegacyBeacon, KnownChannel, LastBeacon;
    var all := es + [Tick(now)];
    TimerExact(c, es, now);
    var t := Run(c, all);
    hide Run;
    forall k: nat | k < |t.aps|
      ensures var a := t.aps[k].addr;
        && Present(c, all, a)
        && (Legacy(c, t.aps[k]) <==> LegacyHeard(c, all, a))
        && (!t.aps[k].ht <==> NonHtHeard(all, a))
    {
      EntryByHistory(c, all, k);
      var ap := t.aps[k];
      assert ap in t.aps;
      ShownLegacy(c, ap, LastBeacon(all, ap.addr).value, KnownChannel(c, all, ap.addr));
      ShownChannel(ap, LastBeacon(all, ap.addr).value, KnownChannel(c, all, ap.addr));
    }
    forall a | Present(c, all, a) ensures exists k: nat :: k < |t.aps| && t.aps[k].addr == a {
      var ap :| ap in t.aps && ap.addr == a;
      var k: nat :| k < |t.aps| && t.aps[k] == ap;
      assert t.aps[k].addr == a;
    }
  }
}
