/** What the AP table of ap_list.c means: a recency list of neighbouring APs and two derived flags. */
module ApSpec {
  import opened Options
  import opened Bits
  import opened MacAddress
  import opened Reltime

  const RATES_MAX := 32

  datatype Conf = Conf(maxSize: int, expirationSecs: int, modeG: bool, channel: int, secondary: int)

  datatype Ap = Ap(addr: Mac, rates: seq<byte>, erp: int, channel: int, ht: bool, lastBeacon: int)

  /** The elements of one received Beacon frame that the table looks at. */
  datatype Beacon = Beacon(bssid: Mac, suppRates: Option<seq<byte>>, extRates: Option<seq<byte>>,
                           erpInfo: Option<byte>, dsChannel: Option<byte>, htOperChannel: Option<byte>,
                           frameChannel: Option<int>, htCapab: bool)

  datatype Table = Table(aps: seq<Ap>, olbc: bool, olbcHt: bool)

  /** Times are in microseconds; an entry expires strictly after the given number of seconds. */
  predicate Expired(now: int, at: int, secs: int) {
    Elapsed(now, at, secs)
  }

  predicate FastRate(rate: byte) {
    var r := BitAnd(rate, 0x7f) * 5;
    r == 60 || r == 90 || r > 110
  }

  /** Does this AP show an overlapping legacy BSS on our channel? */
  predicate Legacy(c: Conf, ap: Ap) {
    && c.modeG
    && c.channel == ap.channel
    && ((ap.erp >= 0 && BitAnd(ap.erp, 1) == 1) || forall r :: r in ap.rates ==> !FastRate(r))
  }

  /**
   * The test in plain numbers: 802.11g, the same channel, and either an odd ERP octet (its lowest bit tells of
   * non-ERP stations) or no rate, counted in units of 500 kb/s, of 12 or 18 or above 22.
   */
  lemma {:induction false} LegacyMeans(c: Conf, ap: Ap)
    ensures Legacy(c, ap) <==>
      && c.modeG && c.channel == ap.channel
      && ((ap.erp >= 0 && ap.erp % 2 == 1)
          || forall i :: 0 <= i < |ap.rates| ==>
               ap.rates[i] % 128 != 12 && ap.rates[i] % 128 != 18 && ap.rates[i] % 128 <= 22)
  {
    if ap.erp >= 0 { LowBits(ap.erp, 1); assert Pow2(1) == 2; }
    forall i | 0 <= i < |ap.rates|
      ensures !FastRate(ap.rates[i]) <==>
        ap.rates[i] % 128 != 12 && ap.rates[i] % 128 != 18 && ap.rates[i] % 128 <= 22
    {
      LowBits(ap.rates[i], 7);
      assert Pow2(7) == 128;
    }
    hide FastRate, BitAnd;
    assert forall i :: 0 <= i < |ap.rates| ==> ap.rates[i] in ap.rates;
  }

  lemma {:induction false} LowBits(x: nat, k: nat)
    ensures BitAnd(x, Pow2(k) - 1) == x % Pow2(k)
  {
    AndLowMask(x, k);
    ShrLow(x, k);
  }

  predicate LegacyHt(c: Conf, ap: Ap) {
    && !ap.ht
    && (ap.channel == 0 || ap.channel == c.channel || ap.channel == c.channel + c.secondary * 4)
  }

  function Octets(o: Option<seq<byte>>): seq<byte> {
    if o.Some? then o.value else []
  }

  /** The rate table: both rate elements one after the other, cut or zero-padded to 32 octets. */
  function MergedRates(b: Beacon): seq<byte> {
    var all := Octets(b.suppRates) + Octets(b.extRates);
    seq(RATES_MAX, i requires 0 <= i => if i < |all| then all[i] else 0)
  }

  function Channel(b: Beacon, prior: int): int {
    if b.dsChannel.Some? then b.dsChannel.value
    else if b.htOperChannel.Some? then b.htOperChannel.value
    else if b.frameChannel.Some? then b.frameChannel.value
    else prior
  }

  function Refresh(priorChannel: int, b: Beacon, now: int): Ap {
    Ap(b.bssid, MergedRates(b), if b.erpInfo.Some? then b.erpInfo.value else -1,
       Channel(b, priorChannel), b.htCapab, now)
  }

  /** A new entry, all but its address zero. */
  function Zeroed(addr: Mac): Ap {
    Ap(addr, [], 0, 0, false, 0)
  }

  /** Position of addr in the table, or the table's length. */
  function Find(aps: seq<Ap>, addr: Mac): (k: nat)
    ensures k <= |aps|
    ensures k < |aps| ==> aps[k].addr == addr
    ensures forall i :: 0 <= i < k ==> aps[i].addr != addr
  {
    if aps == [] || aps[0].addr == addr then 0 else 1 + Find(aps[1..], addr)
  }

  function RemoveAt<T>(s: seq<T>, k: nat): seq<T>
    requires k < |s|
  {
    s[..k] + s[k + 1..]
  }

  /** What is left of the table when an entry for addr goes to the front. */
  function Rest(c: Conf, aps: seq<Ap>, addr: Mac): seq<Ap> {
    var k := Find(aps, addr);
    if k < |aps| then RemoveAt(aps, k)
    else if aps != [] && |aps| + 1 > c.maxSize then aps[..|aps| - 1]
    else aps
  }

  function HeardEntry(aps: seq<Ap>, b: Beacon, now: int): Ap {
    var k := Find(aps, b.bssid);
    Refresh(if k < |aps| then aps[k].channel else 0, b, now)
  }

  function ProcessBeacon(c: Conf, t: Table, b: Beacon, now: int): Table {
    if c.maxSize < 1 then t
    else
      var ap := HeardEntry(t.aps, b, now);
      Table([ap] + Rest(c, t.aps, b.bssid), t.olbc || Legacy(c, ap), t.olbcHt || LegacyHt(c, ap))
  }

  /** The timer's expiry: drop expired entries from the tail, stop at the first fresh one. */
  function DropExpiredTail(c: Conf, aps: seq<Ap>, now: int): seq<Ap> {
    if aps != [] && Expired(now, aps[|aps| - 1].lastBeacon, c.expirationSecs)
    then DropExpiredTail(c, aps[..|aps| - 1], now)
    else aps
  }

  predicate SomeLegacy(c: Conf, aps: seq<Ap>) {
    exists i :: 0 <= i < |aps| && Legacy(c, aps[i])
  }

  predicate SomeLegacyHt(c: Conf, aps: seq<Ap>) {
    exists i :: 0 <= i < |aps| && LegacyHt(c, aps[i])
  }

  predicate SomeNonHt(aps: seq<Ap>) {
    exists i :: 0 <= i < |aps| && !aps[i].ht
  }

  function Timer(c: Conf, t: Table, now: int): Table {
    if t.aps == [] then t
    else
      var aps := DropExpiredTail(c, t.aps, now);
      Table(aps, t.olbc && SomeLegacy(c, aps), t.olbcHt && SomeNonHt(aps))
  }
}
