/** Whole runs of beacon and timer events over the AP table, under one configuration. */
module ApRuns {
  import opened MacAddress
  import opened ApSpec

  datatype Event = Heard(b: Beacon, now: int) | Tick(now: int)

  function Step(c: Conf, t: Table, e: Event): Table {
    match e
    case Heard(b, now) => ProcessBeacon(c, t, b, now)
    case Tick(now) => Timer(c, t, now)
  }

  function Init<T>(s: seq<T>): seq<T>
    requires s != []
  {
    s[..|s| - 1]
  }

  function Last<T>(s: seq<T>): T
    requires s != []
  {
    s[|s| - 1]
  }

  function Run(c: Conf, es: seq<Event>): Table {
    if es == [] then Table([], false, false) else Step(c, Run(c, Init(es)), Last(es))
  }

  function Clock(es: seq<Event>): int {
    if es == [] then 0 else Last(es).now
  }

  ghost predicate ClockOk(es: seq<Event>) {
    forall i, j :: 0 <= i <= j < |es| ==> es[i].now <= es[j].now
  }

  predicate DistinctAddrs(aps: seq<Ap>) {
    forall i, j :: 0 <= i < j < |aps| ==> aps[i].addr != aps[j].addr
  }

  predicate NewestFirst(aps: seq<Ap>, now: int) {
    && (forall i, j :: 0 <= i < j < |aps| ==> aps[i].lastBeacon >= aps[j].lastBeacon)
    && (forall i :: 0 <= i < |aps| ==> aps[i].lastBeacon <= now)
  }

  /** What holds of the table at every moment of every run. */
  ghost predicate Inv(c: Conf, t: Table, now: int) {
    && DistinctAddrs(t.aps)
    && NewestFirst(t.aps, now)
    && |t.aps| <= (if c.maxSize < 1 then 0 else c.maxSize)
    && (SomeLegacy(c, t.aps) ==> t.olbc)
    && (SomeLegacyHt(c, t.aps) ==> t.olbcHt)
    && (t.aps == [] ==> !t.olbc && !t.olbcHt)
  }

  lemma {:induction false} HeardNow(aps: seq<Ap>, b: Beacon, now: int)
    ensures HeardEntry(aps, b, now).addr == b.bssid && HeardEntry(aps, b, now).lastBeacon == now
  {
  }

  /** The entries behind the head are old entries, in their old order, and none is the sender's. */
  lemma {:induction false} RestKeeps(c: Conf, t: Table, addr: Mac, now: int)
    requires DistinctAddrs(t.aps) && NewestFirst(t.aps, now)
    ensures var rest := Rest(c, t.aps, addr);
      && DistinctAddrs(rest) && NewestFirst(rest, now)
      && (forall i :: 0 <= i < |rest| ==> rest[i] in t.aps && rest[i].addr != addr)
      && |rest| <= |t.aps| && (t.aps != [] && c.maxSize >= 1 && |t.aps| <= c.maxSize ==> |rest| < c.maxSize)
  {
    RestAt(c, t.aps, addr);
    hide Rest, Find;
    var k := Find(t.aps, addr);
    if k < |t.aps| { assert t.aps[k].addr == addr; }
  }

  /** Where each entry behind the head comes from. */
  lemma {:induction false} RestAt(c: Conf, aps: seq<Ap>, addr: Mac)
    ensures var rest, k := Rest(c, aps, addr), Find(aps, addr);
      && |rest| <= |aps|
      && (forall i :: 0 <= i < |rest| ==> 0 <= Shifted(i, k) < |aps| && rest[i] == aps[Shifted(i, k)])
      && (aps != [] && c.maxSize >= 1 && |aps| <= c.maxSize ==> |rest| < c.maxSize)
  {
    hide Find;
  }

  function Shifted(i: int, k: nat): int {
    if i < k then i else i + 1
  }

  /** Legacy entries of a part are legacy entries of the whole. */
  lemma {:induction false} LegacyAmong(c: Conf, part: seq<Ap>, aps: seq<Ap>)
    requires forall i :: 0 <= i < |part| ==> part[i] in aps
    ensures SomeLegacy(c, part) ==> SomeLegacy(c, aps)
    ensures SomeLegacyHt(c, part) ==> SomeLegacyHt(c, aps)
  {
    hide Legacy, LegacyHt;
    if SomeLegacy(c, part) {
      var i :| 0 <= i < |part| && Legacy(c, part[i]);
      var j :| 0 <= j < |aps| && aps[j] == part[i];
    }
    if SomeLegacyHt(c, part) {
      var i :| 0 <= i < |part| && LegacyHt(c, part[i]);
      var j :| 0 <= j < |aps| && aps[j] == part[i];
    }
  }

  lemma {:induction false} InvBeacon(c: Conf, t: Table, b: Beacon, was: int, now: int)
    requires Inv(c, t, was) && was <= now
    ensures Inv(c, ProcessBeacon(c, t, b, now), now)
  {
    if c.maxSize >= 1 {
      RestKeeps(c, t, b.bssid, was);
      HeardNow(t.aps, b, now);
      hide Legacy, LegacyHt, HeardEntry, Rest;
      var rest := Rest(c, t.aps, b.bssid);
      LegacyAmong(c, rest, t.aps);
    }
  }

  /** What a full scan for expired entries would keep. */
  function Unexpired(c: Conf, aps: seq<Ap>, now: int): seq<Ap> {
    if aps == [] then []
    else if Expired(now, Last(aps).lastBeacon, c.expirationSecs) then Unexpired(c, Init(aps), now)
    else Unexpired(c, Init(aps), now) + [Last(aps)]
  }

  /** Newest first, stopping at the first fresh tail entry loses nothing against the full scan. */
  lemma {:induction false} TailExpiryIsFullScan(c: Conf, aps: seq<Ap>, now: int, clock: int)
    requires NewestFirst(aps, clock)
    ensures DropExpiredTail(c, aps, now) == Unexpired(c, aps, now)
    ensures DropExpiredTail(c, aps, now) <= aps
    decreases |aps|
  {
    if aps != [] {
      if Expired(now, Last(aps).lastBeacon, c.expirationSecs) {
        TailExpiryIsFullScan(c, Init(aps), now, clock);
      } else {
        AllFresh(c, aps, now);
      }
    }
  }

  lemma {:induction false} AllFresh(c: Conf, aps: seq<Ap>, now: int)
    requires forall i :: 0 <= i < |aps| ==> !Expired(now, aps[i].lastBeacon, c.expirationSecs)
    ensures Unexpired(c, aps, now) == aps
    decreases |aps|
  {
    hide Expired, Unexpired;
    UnexpiredLast(c, aps, now);
    if aps != [] {
      var h, l := Init(aps), Last(aps);
      assert aps == h + [l] && l == aps[|aps| - 1];
      assert forall i :: 0 <= i < |h| ==> h[i] == aps[i];
      AllFresh(c, h, now);
    }
  }

  lemma {:induction false} UnexpiredLast(c: Conf, aps: seq<Ap>, now: int)
    ensures Unexpired(c, aps, now) ==
      if aps == [] then []
      else if Expired(now, Last(aps).lastBeacon, c.expirationSecs) then Unexpired(c, Init(aps), now)
      else Unexpired(c, Init(aps), now) + [Last(aps)]
  {
  }

  lemma {:induction false} InvTick(c: Conf, t: Table, was: int, now: int)
    requires Inv(c, t, was) && was <= now
    ensures Inv(c, Timer(c, t, now), now)
  {
    hide DistinctAddrs, NewestFirst, SomeLegacy, SomeLegacyHt, SomeNonHt, DropExpiredTail, Unexpired;
    TailExpiryIsFullScan(c, t.aps, now, was);
    var kept := DropExpiredTail(c, t.aps, now);
    KeptInOrder(t.aps, kept, was, now);
    LegacyAmong(c, kept, t.aps);
    LegacyIsNonHt(c, kept);
  }

  /** A prefix inherits order and distinctness. */
  lemma {:induction false} KeptInOrder(aps: seq<Ap>, kept: seq<Ap>, was: int, now: int)
    requires kept <= aps && DistinctAddrs(aps) && NewestFirst(aps, was) && was <= now
    ensures DistinctAddrs(kept) && NewestFirst(kept, now)
    ensures forall i :: 0 <= i < |kept| ==> kept[i] in aps
  {
    assert forall i :: 0 <= i < |kept| ==> kept[i] == aps[i];
  }

  lemma {:induction false} LegacyIsNonHt(c: Conf, aps: seq<Ap>)
    ensures SomeLegacyHt(c, aps) ==> SomeNonHt(aps)
    ensures aps == [] ==> !SomeLegacy(c, aps) && !SomeNonHt(aps)
  {
  }

  /** Every run keeps the invariant. */
  lemma {:induction false} RunInv(c: Conf, es: seq<Event>)
    requires ClockOk(es)
    ensures Inv(c, Run(c, es), Clock(es))
    decreases |es|
  {
    if es != [] {
      var t, e := Run(c, Init(es)), Last(es);
      RunInv(c, Init(es));
      var was := if Init(es) == [] then e.now else Last(Init(es)).now;
      assert was <= e.now;
      match e {
        case Heard(b, now) => InvBeacon(c, t, b, was, now);
        case Tick(now) => InvTick(c, t, was, now);
      }
    }
  }

  /**
   * After a timer call, olbc holds exactly when some remaining entry is legacy, olbc_ht only
   * while some remaining entry lacks HT, and nothing that a full scan calls expired remains.
   */
  lemma {:induction false} TimerExact(c: Conf, es: seq<Event>, now: int)
    requires ClockOk(es + [Tick(now)])
    ensures var t, t' := Run(c, es), Run(c, es + [Tick(now)]);
      && t'.aps == Unexpired(c, t.aps, now)
      && (t'.olbc <==> SomeLegacy(c, t'.aps))
      && (t'.olbcHt <==> t.olbcHt && SomeNonHt(t'.aps))
  {
    hide Legacy;
    assert forall i :: 0 <= i < |es| ==> es[i] == (es + [Tick(now)])[i];
    RunInv(c, es);
    assert Init(es + [Tick(now)]) == es;
    var t := Run(c, es);
    TailExpiryIsFullScan(c, t.aps, now, Clock(es));
    LegacyAmong(c, DropExpiredTail(c, t.aps, now), t.aps);
  }

  // ---- which APs are in the table: an exact account over whole runs ----

  function IndexOf(s: seq<Mac>, x: Mac): (k: nat)
    ensures k <= |s|
    ensures k < |s| ==> s[k] == x
    ensures forall i :: 0 <= i < k ==> s[i] != x
  {
    if s == [] || s[0] == x then 0 else 1 + IndexOf(s[1..], x)
  }

  lemma {:induction false} IndexOfIs(s: seq<Mac>, x: Mac, k: nat)
    requires k <= |s| && (k < |s| ==> s[k] == x) && forall i :: 0 <= i < k ==> s[i] != x
    ensures IndexOf(s, x) == k
  {
    var j := IndexOf(s, x);
    assert !(j < k) && !(k < j);
  }

  function MoveFront(s: seq<Mac>, x: Mac): seq<Mac> {
    var k := IndexOf(s, x);
    [x] + if k < |s| then RemoveAt(s, k) else s
  }

  /** Every address ever heard, the most recently heard first. */
  function Recency(es: seq<Event>): seq<Mac> {
    if es == [] then []
    else if Last(es).Heard? then MoveFront(Recency(Init(es)), Last(es).b.bssid)
    else Recency(Init(es))
  }

  /** When addr was last heard; 0 if never. */
  function LastHeard(es: seq<Event>, addr: Mac): int {
    if es == [] then 0
    else if Last(es).Heard? && Last(es).b.bssid == addr then Last(es).now
    else LastHeard(Init(es), addr)
  }

  /** Has a timer call found addr expired since it was last heard? */
  predicate ExpiredSince(c: Conf, es: seq<Event>, addr: Mac) {
    if es == [] then false
    else match Last(es)
      case Heard(b, _) => b.bssid != addr && ExpiredSince(c, Init(es), addr)
      case Tick(now) => ExpiredSince(c, Init(es), addr) ||
                        Expired(now, LastHeard(Init(es), addr), c.expirationSecs)
  }

  function Addrs(aps: seq<Ap>): seq<Mac> {
    seq(|aps|, i requires 0 <= i < |aps| => aps[i].addr)
  }

  lemma {:induction false} FindIsIndexOf(aps: seq<Ap>, addr: Mac)
    ensures Find(aps, addr) == IndexOf(Addrs(aps), addr)
  {
    var k := Find(aps, addr);
    IndexOfIs(Addrs(aps), addr, k);
  }

  lemma {:induction false} IndexOfPrefix(p: seq<Mac>, s: seq<Mac>, x: Mac)
    requires p <= s
    ensures IndexOf(p, x) == if IndexOf(s, x) < |p| then IndexOf(s, x) else |p|
  {
    var k := IndexOf(s, x);
    IndexOfIs(p, x, if k < |p| then k else |p|);
  }

  /** Where another address ends up when x moves to the front. */
  lemma {:induction false} MoveFrontIndex(s: seq<Mac>, x: Mac, y: Mac)
    requires y != x
    ensures IndexOf(MoveFront(s, x), y) == IndexOf(s, y) + if IndexOf(s, x) < IndexOf(s, y) then 0 else 1
    ensures |MoveFront(s, x)| == |s| + if IndexOf(s, x) < |s| then 0 else 1
  {
    var k, j := IndexOf(s, x), IndexOf(s, y);
    var m := MoveFront(s, x);
    MovedAt(s, x);
    hide IndexOf, MoveFront;
    var j' := j + if k < j then 0 else 1;
    assert forall i :: 0 <= i < j' ==> m[i] != y;
    IndexOfIs(m, y, j');
  }

  lemma {:induction false} MovedAt(s: seq<Mac>, x: Mac)
    ensures var k, m := IndexOf(s, x), MoveFront(s, x);
      && |m| == |s| + (if k < |s| then 0 else 1) && m[0] == x
      && forall i :: 0 < i < |m| ==> m[i] == s[if i <= k then i - 1 else i]
  {
    hide IndexOf;
  }

  lemma {:induction false} PrefixMoveKnown(p: seq<Mac>, r: seq<Mac>, x: Mac)
    requires p <= r && IndexOf(p, x) < |p|
    ensures [x] + RemoveAt(p, IndexOf(p, x)) <= MoveFront(r, x)
  {
    IndexOfPrefix(p, r, x);
    hide IndexOf;
    RemovePrefix(p, r, IndexOf(p, x));
    hide RemoveAt;
    var k := IndexOf(p, x);
    assert [x] + RemoveAt(p, k) <= [x] + RemoveAt(r, k);
  }

  lemma {:induction false} RemovePrefix(p: seq<Mac>, r: seq<Mac>, k: nat)
    requires p <= r && k < |p|
    ensures RemoveAt(p, k) <= RemoveAt(r, k)
  {
    var tail := r[|p|..];
    assert r == p + tail;
    assert r[..k] == p[..k] && r[k + 1..] == p[k + 1..] + tail;
    assert RemoveAt(r, k) == RemoveAt(p, k) + tail;
  }

  lemma {:induction false} PrefixMoveNew(p: seq<Mac>, r: seq<Mac>, x: Mac, n: nat)
    requires p <= r && IndexOf(p, x) == |p| && n <= |p|
    ensures [x] + p[..n] <= MoveFront(r, x)
  {
    IndexOfPrefix(p, r, x);
    hide IndexOf;
    if IndexOf(r, x) < |r| {
      assert p[..n] == RemoveAt(r, IndexOf(r, x))[..n];
    }
  }

  /** One beacon keeps the table a prefix of the recency list. */
  lemma {:induction false} PrefixBeacon(c: Conf, t: Table, b: Beacon, now: int, r: seq<Mac>)
    requires Addrs(t.aps) <= r && c.maxSize >= 1
    ensures Addrs(ProcessBeacon(c, t, b, now).aps) <= MoveFront(r, b.bssid)
  {
    FindIsIndexOf(t.aps, b.bssid);
    HeardNow(t.aps, b, now);
    hide HeardEntry, IndexOf, Find, MoveFront;
    var p, rest, k := Addrs(t.aps), Rest(c, t.aps, b.bssid), Find(t.aps, b.bssid);
    if k < |p| { PrefixMoveKnown(p, r, b.bssid); } else { PrefixMoveNew(p, r, b.bssid, |rest|); }
    assert Addrs(rest) == if k < |p| then RemoveAt(p, k) else p[..|rest|];
    assert Addrs(ProcessBeacon(c, t, b, now).aps) == [b.bssid] + Addrs(rest);
  }

  /** At every moment the table is the front of the recency list, and each entry shows its last beacon's time. */
  lemma {:induction false} TableIsRecencyPrefix(c: Conf, es: seq<Event>)
    requires ClockOk(es)
    ensures Addrs(Run(c, es).aps) <= Recency(es)
    ensures forall i :: 0 <= i < |Run(c, es).aps| ==>
      Run(c, es).aps[i].lastBeacon == LastHeard(es, Run(c, es).aps[i].addr)
    decreases |es|
  {
    hide MoveFront, Rest, Find, HeardEntry, DropExpiredTail, Unexpired, IndexOf;
    hide Legacy, LegacyHt, SomeLegacy, SomeNonHt;
    if es != [] {
      var t, e := Run(c, Init(es)), Last(es);
      TableIsRecencyPrefix(c, Init(es));
      RunInv(c, Init(es));
      match e {
        case Heard(b, now) =>
          if c.maxSize >= 1 {
            PrefixBeacon(c, t, b, now, Recency(Init(es)));
            HeardNow(t.aps, b, now);
            RestKeeps(c, t, b.bssid, Clock(Init(es)));
          }
        case Tick(now) =>
          TailExpiryIsFullScan(c, t.aps, now, Clock(Init(es)));
      }
    }
  }

  lemma {:induction false} UnexpiredMember(c: Conf, aps: seq<Ap>, now: int, ap: Ap)
    ensures ap in Unexpired(c, aps, now) <==> ap in aps && !Expired(now, ap.lastBeacon, c.expirationSecs)
    decreases |aps|
  {
    if aps != [] {
      UnexpiredMember(c, Init(aps), now, ap);
      assert aps == Init(aps) + [Last(aps)];
    }
  }

  predicate Present(c: Conf, es: seq<Event>, a: Mac) {
    exists ap :: ap in Run(c, es).aps && ap.addr == a
  }

  predicate Wanted(c: Conf, es: seq<Event>, a: Mac) {
    a in Recency(es) && IndexOf(Recency(es), a) < c.maxSize && !ExpiredSince(c, es, a)
  }

  /** An AP is present exactly when its place on the recency list is inside the table. */
  lemma {:induction false} PresentIndex(c: Conf, es: seq<Event>, a: Mac)
    requires ClockOk(es)
    ensures Present(c, es, a) <==> IndexOf(Recency(es), a) < |Run(c, es).aps|
    ensures |Run(c, es).aps| <= |Recency(es)|
  {
    TableIsRecencyPrefix(c, es);
    var p := Addrs(Run(c, es).aps);
    IndexOfPrefix(p, Recency(es), a);
    hide IndexOf, Recency, Run;
    var k := IndexOf(p, a);
    if k < |p| { assert Run(c, es).aps[k].addr == a; }
    if Present(c, es, a) {
      var i :| 0 <= i < |p| && Run(c, es).aps[i].addr == a;
      assert p[i] == a;
    }
  }

  /** The size of the table after a beacon. */
  lemma {:induction false} SizeAfterBeacon(c: Conf, t: Table, b: Beacon, now: int)
    requires c.maxSize >= 1 && |t.aps| <= c.maxSize
    ensures |ProcessBeacon(c, t, b, now).aps| ==
      if Find(t.aps, b.bssid) < |t.aps| || |t.aps| == c.maxSize then |t.aps| else |t.aps| + 1
  {
  }

  lemma {:induction false} ExactBeacon(c: Conf, es: seq<Event>, a: Mac)
    requires ClockOk(es) && es != [] && Last(es).Heard?
    requires Present(c, Init(es), a) <==> Wanted(c, Init(es), a)
    ensures Present(c, es, a) <==> Wanted(c, es, a)
  {
    hide Present, Wanted, Inv;
    if c.maxSize < 1 {
      ExactNoTable(c, es, a);
    } else if a == Last(es).b.bssid {
      ExactSender(c, es);
    } else {
      ExactOther(c, es, a);
    }
  }

  lemma {:induction false} ExactNoTable(c: Conf, es: seq<Event>, a: Mac)
    requires ClockOk(es) && c.maxSize < 1
    ensures Present(c, es, a) <==> Wanted(c, es, a)
  {
    hide Recency, ExpiredSince, Run;
    RunInv(c, es);
  }

  /** The sender is present, at the front of the recency list and not expired. */
  lemma {:induction false} ExactSender(c: Conf, es: seq<Event>)
    requires ClockOk(es) && es != [] && Last(es).Heard? && c.maxSize >= 1
    ensures Present(c, es, Last(es).b.bssid) && Wanted(c, es, Last(es).b.bssid)
  {
    hide Rest, Find, HeardEntry, Legacy, LegacyHt, IndexOf, MoveFront;
    var b, t := Last(es).b, Run(c, Init(es));
    HeardNow(t.aps, b, Last(es).now);
    assert Run(c, es).aps[0] == HeardEntry(t.aps, b, Last(es).now);
    MovedAt(Recency(Init(es)), b.bssid);
    IndexOfIs(Recency(es), b.bssid, 0);
    assert Recency(es)[0] == b.bssid;
  }

  lemma {:induction false} ExactOther(c: Conf, es: seq<Event>, a: Mac)
    requires ClockOk(es) && es != [] && Last(es).Heard? && c.maxSize >= 1 && a != Last(es).b.bssid
    requires Present(c, Init(es), a) <==> Wanted(c, Init(es), a)
    ensures Present(c, es, a) <==> Wanted(c, es, a)
  {
    hide Rest, Find, HeardEntry, Legacy, LegacyHt, SomeLegacy, SomeLegacyHt, Present, IndexOf, ProcessBeacon, MoveFront;
    hide Addrs, DistinctAddrs, NewestFirst;
    PresentIndex(c, Init(es), a);
    PresentIndex(c, es, a);
    RunInv(c, Init(es));
    var b, r, t := Last(es).b.bssid, Recency(Init(es)), Run(c, Init(es));
    MoveFrontIndex(r, b, a);
    TableIsRecencyPrefix(c, Init(es));
    FindIsIndexOf(t.aps, b);
    IndexOfPrefix(Addrs(t.aps), r, b);
    SizeAfterBeacon(c, t, Last(es).b, Last(es).now);
    IndexOfMember(MoveFront(r, b), a);
    IndexOfMember(r, a);
    IndexOfDiffer(r, a, b);
    AddrsSize(t.aps);
    assert ExpiredSince(c, es, a) == ExpiredSince(c, Init(es), a);
  }

  lemma {:induction false} AddrsSize(aps: seq<Ap>)
    ensures |Addrs(aps)| == |aps|
  {
  }

  lemma {:induction false} IndexOfDiffer(s: seq<Mac>, x: Mac, y: Mac)
    requires x != y
    ensures x in s ==> IndexOf(s, x) != IndexOf(s, y)
  {
  }

  lemma {:induction false} IndexOfMember(s: seq<Mac>, x: Mac)
    ensures x in s <==> IndexOf(s, x) < |s|
  {
  }

  lemma {:induction false} ExactTick(c: Conf, es: seq<Event>, a: Mac)
    requires ClockOk(es) && es != [] && Last(es).Tick?
    requires Present(c, Init(es), a) <==> Wanted(c, Init(es), a)
    ensures Present(c, es, a) <==> Wanted(c, es, a)
  {
    var t, now := Run(c, Init(es)), Last(es).now;
    RunInv(c, Init(es));
    TableIsRecencyPrefix(c, Init(es));
    TailExpiryIsFullScan(c, t.aps, now, Clock(Init(es)));
    forall ap ensures ap in Run(c, es).aps <==>
        ap in t.aps && !Expired(now, LastHeard(Init(es), ap.addr), c.expirationSecs)
    {
      UnexpiredMember(c, t.aps, now, ap);
    }
  }

  /**
   * An AP is in the table exactly when fewer than ap_table_max_size other APs have been heard
   * since its last beacon and no timer call has found it expired since then.
   */
  lemma {:induction false} TableExact(c: Conf, es: seq<Event>, a: Mac)
    requires ClockOk(es)
    ensures Present(c, es, a) <==> Wanted(c, es, a)
    decreases |es|
  {
    if es != [] {
      TableExact(c, Init(es), a);
      if Last(es).Heard? { ExactBeacon(c, es, a); } else { ExactTick(c, es, a); }
    }
  }

  // ---- the recency list by history ----

  /** The other addresses heard since addr was last heard, or ever if it was not. */
  function OthersSince(es: seq<Event>, addr: Mac): set<Mac> {
    if es == [] then {}
    else match Last(es)
      case Heard(b, _) => if b.bssid == addr then {} else OthersSince(Init(es), addr) + {b.bssid}
      case Tick(_) => OthersSince(Init(es), addr)
  }

  predicate NoRepeats(s: seq<Mac>) {
    forall i, j :: 0 <= i < j < |s| ==> s[i] != s[j]
  }

  /** The first k addresses of a list. */
  function FirstFew(s: seq<Mac>, k: nat): set<Mac>
    requires k <= |s|
  {
    set i | 0 <= i < k :: s[i]
  }

  lemma {:induction false} FirstFewSize(s: seq<Mac>, k: nat)
    requires NoRepeats(s) && k <= |s|
    ensures |FirstFew(s, k)| == k
    decreases k
  {
    if k > 0 {
      FirstFewSize(s, k - 1);
      FirstFewStep(s, k);
    }
  }

  lemma {:induction false} FirstFewStep(s: seq<Mac>, k: nat)
    requires NoRepeats(s) && 0 < k <= |s|
    ensures FirstFew(s, k) == FirstFew(s, k - 1) + {s[k - 1]} && s[k - 1] !in FirstFew(s, k - 1)
  {
  }

  lemma {:induction false} MoveFrontNoRepeats(s: seq<Mac>, x: Mac)
    requires NoRepeats(s)
    ensures NoRepeats(MoveFront(s, x))
  {
    MovedAt(s, x);
    hide IndexOf, MoveFront;
    var k, m := IndexOf(s, x), MoveFront(s, x);
    forall i, j | 0 <= i < j < |m| ensures m[i] != m[j] {
      if i == 0 { NotElsewhere(s, x, if j <= k then j - 1 else j); }
    }
  }

  lemma {:induction false} NotElsewhere(s: seq<Mac>, x: Mac, i: nat)
    requires NoRepeats(s) && i < |s| && i != IndexOf(s, x)
    ensures s[i] != x
  {
    hide IndexOf;
  }

  /** Moving x to the front puts x, and what came before a, before a. */
  lemma {:induction false} MoveFrontFirst(s: seq<Mac>, x: Mac, a: Mac)
    requires a != x
    ensures FirstFew(MoveFront(s, x), IndexOf(MoveFront(s, x), a)) == FirstFew(s, IndexOf(s, a)) + {x}
  {
    MovedAt(s, x);
    MoveFrontIndex(s, x, a);
    hide IndexOf, MoveFront;
    var k, j, m := IndexOf(s, x), IndexOf(s, a), MoveFront(s, x);
    ShiftedFew(s, m, x, k, j, IndexOf(m, a));
  }

  lemma {:induction false} ShiftedFew(s: seq<Mac>, m: seq<Mac>, x: Mac, k: nat, j: nat, j': nat)
    requires j <= |s| && k <= |s| && (k < |s| ==> s[k] == x)
    requires j' == j + (if k < j then 0 else 1) <= |m| && 0 < |m| && m[0] == x
    requires forall i :: 0 < i < |m| ==> (if i <= k then i - 1 else i) < |s| && m[i] == s[if i <= k then i - 1 else i]
    ensures FirstFew(m, j') == FirstFew(s, j) + {x}
  {
    var left, right := FirstFew(m, j'), FirstFew(s, j) + {x};
    forall y | y in left ensures y in right {
      var i :| 0 <= i < j' && m[i] == y;
    }
    assert x in left by { assert 0 < j' && m[0] == x; }
    forall y | y in right && y != x ensures y in left {
      var i :| 0 <= i < j && s[i] == y;
      var i' := if i < k then i + 1 else i;
      assert 0 <= i' < j' && m[i'] == y;
    }
  }

  /** The recency list names each address once, and before addr exactly the others heard since. */
  lemma {:induction false} RecencyByHistory(es: seq<Event>, addr: Mac)
    ensures NoRepeats(Recency(es))
    ensures FirstFew(Recency(es), IndexOf(Recency(es), addr)) == OthersSince(es, addr)
    ensures IndexOf(Recency(es), addr) == |OthersSince(es, addr)|
    decreases |es|
  {
    hide IndexOf, MoveFront;
    var r, a := Recency(es), addr;
    if es == [] {
      assert r == [];
    } else {
      RecencyByHistory(Init(es), a);
      if Last(es).Heard? {
        var before, b := Recency(Init(es)), Last(es).b.bssid;
        MoveFrontNoRepeats(before, b);
        if a == b {
          MovedAt(before, b);
          IndexOfIs(r, a, 0);
          assert FirstFew(r, 0) == {};
        } else {
          MoveFrontFirst(before, b, a);
        }
      }
    }
    FirstFewSize(r, IndexOf(r, a));
  }

  /**
   * The table by history alone: after any run an address is in it if and only if it was heard, fewer than maxSize
   * other addresses were heard since, and no timer call since found it expired.
   */
  lemma {:induction false} TableByHistory(c: Conf, es: seq<Event>, addr: Mac)
    requires ClockOk(es)
    ensures Present(c, es, addr) <==>
      addr in Recency(es) && |OthersSince(es, addr)| < c.maxSize && !ExpiredSince(c, es, addr)
    ensures addr in Recency(es) <==> exists i :: 0 <= i < |es| && es[i].Heard? && es[i].b.bssid == addr
  {
    hide IndexOf, MoveFront, Present;
    TableExact(c, es, addr);
    RecencyByHistory(es, addr);
    EverHeard(es, addr);
  }

  lemma {:induction false} EverHeard(es: seq<Event>, addr: Mac)
    ensures addr in Recency(es) <==> exists i :: 0 <= i < |es| && es[i].Heard? && es[i].b.bssid == addr
    decreases |es|
  {
    hide IndexOf, MoveFront;
    if es != [] {
      EverHeard(Init(es), addr);
      assert es == Init(es) + [Last(es)];
      if Last(es).Heard? {
        MoveFrontMembers(Recency(Init(es)), Last(es).b.bssid, addr);
        if Last(es).b.bssid == addr { assert es[|es| - 1].Heard?; }
      }
    }
  }

  lemma {:induction false} MoveFrontMembers(s: seq<Mac>, x: Mac, y: Mac)
    ensures y in MoveFront(s, x) <==> y in s || y == x
  {
    MovedAt(s, x);
    hide IndexOf, MoveFront;
    var k, m := IndexOf(s, x), MoveFront(s, x);
    if y in s && y != x {
      var i :| 0 <= i < |s| && s[i] == y;
      assert m[if i < k then i + 1 else i] == y;
    }
    if y == x { assert m[0] == x; }
    if y in m && y != x {
      var i :| 0 <= i < |m| && m[i] == y;
      assert s[if i <= k then i - 1 else i] == y;
    }
  }
}
