/**
 * The RADIUS ACL cache and the list of pending queries of ieee802_11_auth.c, and the requests that the RADIUS client
 * they share with other modules still waits for.
 */
module RadiusAcl {
  import opened Options
  import opened Bits
  import opened MacAddress
  import opened Reltime
  import ML = MacList

  datatype Verdict = Reject | Accept | Pending | AcceptTimeout

  /** What else travels with a verdict: accounting interval, pre-shared keys, identity and chargeable identity. */
  datatype Attrs = Attrs(interim: nat, psks: seq<seq<byte>>, identity: Option<seq<byte>>, cui: Option<seq<byte>>)

  const NO_ATTRS := Attrs(0, [], None, None)

  datatype Cached = Cached(time: int, addr: Mac, accepted: Verdict, sessionTimeout: nat, vlan: int, attrs: Attrs)

  datatype Query = Query(time: int, radiusId: byte, addr: Mac, msg: seq<byte>)

  datatype Policy = AcceptUnlessDenied | DenyUnlessAccepted | UseExternalRadius | OtherPolicy

  datatype Conf = Conf(accept: seq<ML.Entry>, deny: seq<ML.Entry>, policy: Policy, hasServer: bool,
                       pskRequired: bool, vlanRequired: bool)

  /** What an authentic reply says. */
  datatype Answer = Answer(isAccept: bool, isReject: bool, sessionTimeout: Option<nat>, vlan: int, vlanKnown: bool,
                           attrs: Attrs)

  datatype RadiusResult = Processed | InvalidAuthenticator | Unknown

  const RADIUS_ACL_TIMEOUT := 30

  /** Times are in microseconds. */
  predicate Expired(now: int, at: int) {
    Elapsed(now, at, RADIUS_ACL_TIMEOUT)
  }

  predicate NewestFirst(cache: seq<Cached>, now: int) {
    && (forall i, j :: 0 <= i < j < |cache| ==> cache[i].time >= cache[j].time)
    && (forall i :: 0 <= i < |cache| ==> cache[i].time <= now)
  }

  predicate Definite(cache: seq<Cached>) {
    forall i :: 0 <= i < |cache| ==> cache[i].accepted != Pending
  }

  /** At most one pending query per address. */
  predicate OnePerAddress(queries: seq<Query>) {
    forall i, j :: 0 <= i < j < |queries| ==> queries[i].addr != queries[j].addr
  }

  predicate QueriesNewestFirst(queries: seq<Query>, now: int) {
    && (forall i, j :: 0 <= i < j < |queries| ==> queries[i].time >= queries[j].time)
    && (forall i :: 0 <= i < |queries| ==> queries[i].time <= now)
  }

  /** The newest cache entry for the address. */
  function Newest(cache: seq<Cached>, addr: Mac): (r: Option<Cached>)
    ensures r.Some? ==> r.value in cache && r.value.addr == addr
    ensures r.None? ==> forall i :: 0 <= i < |cache| ==> cache[i].addr != addr
  {
    if cache == [] then None
    else if cache[0].addr == addr then Some(cache[0])
    else Newest(cache[1..], addr)
  }

  /** What a look at the first match alone gives. */
  function Fresh(cache: seq<Cached>, addr: Mac, now: int): Option<Cached> {
    var e := Newest(cache, addr);
    if e.Some? && !Expired(now, e.value.time) then e else None
  }

  ghost predicate FreshFor(cache: seq<Cached>, addr: Mac, now: int) {
    exists i :: 0 <= i < |cache| && cache[i].addr == addr && !Expired(now, cache[i].time)
  }

  lemma {:induction false} NewestFirstTail(cache: seq<Cached>, clock: int)
    requires NewestFirst(cache, clock) && cache != []
    ensures NewestFirst(cache[1..], clock)
    ensures cache[0].time <= clock && forall x :: x in cache[1..] ==> x.time <= cache[0].time
  {
    var rest := cache[1..];
    assert forall i :: 0 <= i < |rest| ==> rest[i] == cache[i + 1];
  }

  lemma {:induction false} NewestIsLatest(cache: seq<Cached>, addr: Mac, clock: int, i: nat)
    requires NewestFirst(cache, clock) && i < |cache| && cache[i].addr == addr
    ensures Newest(cache, addr).Some? && cache[i].time <= Newest(cache, addr).value.time
    decreases |cache|
  {
    if cache[0].addr != addr {
      NewestFirstTail(cache, clock);
      assert cache[i] == cache[1..][i - 1];
      NewestIsLatest(cache[1..], addr, clock, i - 1);
    }
  }

  /** Looking at the first match alone loses nothing: if it has expired, so has every other. */
  lemma {:induction false} FirstMatchDecides(cache: seq<Cached>, addr: Mac, now: int, clock: int)
    requires NewestFirst(cache, clock)
    ensures FreshFor(cache, addr, now) <==> Fresh(cache, addr, now).Some?
  {
    if FreshFor(cache, addr, now) {
      var i: nat :| i < |cache| && cache[i].addr == addr && !Expired(now, cache[i].time);
      NewestIsLatest(cache, addr, clock, i);
    }
  }

  /** The entries that a scan for expired ones keeps, in order. */
  function KeepCached(cache: seq<Cached>, now: int): (r: seq<Cached>)
    ensures forall e :: e in r <==> e in cache && !Expired(now, e.time)
  {
    if cache == [] then []
    else if Expired(now, cache[0].time) then KeepCached(cache[1..], now)
    else [cache[0]] + KeepCached(cache[1..], now)
  }

  function KeepQueries(queries: seq<Query>, now: int): (r: seq<Query>)
    ensures forall e :: e in r <==> e in queries && !Expired(now, e.time)
  {
    if queries == [] then []
    else if Expired(now, queries[0].time) then KeepQueries(queries[1..], now)
    else [queries[0]] + KeepQueries(queries[1..], now)
  }

  /** Expiry decides entry by entry and keeps the order: on each part of the cache it does what it does alone. */
  lemma {:induction false} KeepCachedConcat(a: seq<Cached>, b: seq<Cached>, now: int)
    ensures KeepCached(a + b, now) == KeepCached(a, now) + KeepCached(b, now)
    decreases |a|
  {
    hide Expired, KeepCached;
    if a == [] {
      assert a + b == b && KeepCached(a, now) == [] by { KeepNothing(now); }
    } else {
      var h, t := [a[0]], a[1..];
      KeepCachedConcat(t, b, now);
      assert a == h + t && a + b == h + (t + b);
      KeepFirst(a[0], t, now);
      KeepFirst(a[0], t + b, now);
      var k := KeepOne(a[0], now);
      assert k + (KeepCached(t, now) + KeepCached(b, now)) == (k + KeepCached(t, now)) + KeepCached(b, now);
    }
  }

  function KeepOne(e: Cached, now: int): seq<Cached> {
    if Expired(now, e.time) then [] else [e]
  }

  lemma {:induction false} KeepNothing(now: int)
    ensures KeepCached([], now) == []
  {
  }

  lemma {:induction false} KeepFirst(e: Cached, rest: seq<Cached>, now: int)
    ensures KeepCached([e] + rest, now) == KeepOne(e, now) + KeepCached(rest, now)
  {
    assert ([e] + rest)[1..] == rest;
  }

  lemma {:induction false} KeepCachedOk(cache: seq<Cached>, now: int, clock: int)
    requires NewestFirst(cache, clock)
    ensures NewestFirst(KeepCached(cache, now), clock)
    decreases |cache|
  {
    hide Expired, NewestFirst;
    if cache != [] {
      NewestFirstTail(cache, clock);
      KeepCachedOk(cache[1..], now, clock);
      PrependNewest(cache[0], KeepCached(cache[1..], now), clock);
    }
  }

  lemma {:induction false} PrependNewest(e: Cached, rest: seq<Cached>, clock: int)
    requires NewestFirst(rest, clock) && e.time <= clock && forall x :: x in rest ==> x.time <= e.time
    ensures NewestFirst([e] + rest, clock)
  {
    var all := [e] + rest;
    assert forall i :: 1 <= i < |all| ==> all[i] == rest[i - 1] && all[i] in rest;
  }

  /** A verdict put in front decides for its own address and changes nothing for others. */
  lemma {:induction false} PrependFresh(e: Cached, cache: seq<Cached>, addr: Mac, now: int)
    ensures Fresh([e] + cache, addr, now)
      == if e.addr != addr then Fresh(cache, addr, now) else if Expired(now, e.time) then None else Some(e)
  {
    assert ([e] + cache)[1..] == cache;
  }

  /** A scan at time then changes no later look-up. */
  lemma {:induction false} KeepCachedFresh(cache: seq<Cached>, scan: int, addr: Mac, now: int, clock: int)
    requires NewestFirst(cache, clock) && scan <= now
    ensures Fresh(KeepCached(cache, scan), addr, now) == Fresh(cache, addr, now)
    decreases |cache|
  {
    if cache != [] {
      NewestFirstTail(cache, clock);
      KeepCachedFresh(cache[1..], scan, addr, now, clock);
      var kept := KeepCached(cache[1..], scan);
      if !Expired(scan, cache[0].time) {
        assert ([cache[0]] + kept)[1..] == kept;
      } else if cache[0].addr == addr {
        FirstMatchDecides(cache[1..], addr, now, clock);
        assert forall e :: e in cache[1..] ==> e.time <= cache[0].time;
      }
    }
  }

  lemma {:induction false} QueriesTail(queries: seq<Query>, clock: int)
    requires OnePerAddress(queries) && QueriesNewestFirst(queries, clock) && queries != []
    ensures OnePerAddress(queries[1..]) && QueriesNewestFirst(queries[1..], clock)
    ensures queries[0].time <= clock
    ensures forall e :: e in queries[1..] ==> e.addr != queries[0].addr && e.time <= queries[0].time
  {
    var rest := queries[1..];
    assert forall i :: 0 <= i < |rest| ==> rest[i] == queries[i + 1];
  }

  lemma {:induction false} PrependQuery(q: Query, rest: seq<Query>, clock: int)
    requires OnePerAddress(rest) && QueriesNewestFirst(rest, clock) && q.time <= clock
    requires forall e :: e in rest ==> e.addr != q.addr && e.time <= q.time
    ensures OnePerAddress([q] + rest) && QueriesNewestFirst([q] + rest, clock)
  {
    var all := [q] + rest;
    assert forall i :: 1 <= i < |all| ==> all[i] == rest[i - 1] && all[i] in rest;
  }

  lemma {:induction false} KeepQueriesOk(queries: seq<Query>, now: int, clock: int)
    requires OnePerAddress(queries) && QueriesNewestFirst(queries, clock)
    ensures OnePerAddress(KeepQueries(queries, now)) && QueriesNewestFirst(KeepQueries(queries, now), clock)
    decreases |queries|
  {
    hide Expired, OnePerAddress, QueriesNewestFirst;
    if queries != [] {
      QueriesTail(queries, clock);
      KeepQueriesOk(queries[1..], now, clock);
      PrependQuery(queries[0], KeepQueries(queries[1..], now), clock);
    }
  }

  /** The verdict cached for an answer: what it takes to be accepted, and how. */
  function CachedVerdict(c: Conf, a: Answer): (v: Verdict)
    ensures v != Pending
    ensures v != Reject <==>
      a.isAccept && (c.pskRequired ==> a.attrs.psks != []) && (c.vlanRequired ==> a.vlanKnown && a.vlan != 0)
    ensures v != Reject ==> (v == AcceptTimeout <==> a.sessionTimeout.Some?)
  {
    if !a.isAccept then Reject
    else if c.pskRequired && a.attrs.psks == [] then Reject
    else if c.vlanRequired && CachedVlan(a) == 0 then Reject
    else if a.sessionTimeout.Some? then AcceptTimeout
    else Accept
  }

  /** An unknown VLAN is dropped. */
  function CachedVlan(a: Answer): int {
    if a.isAccept && a.vlanKnown then a.vlan else 0
  }

  /** An accounting interval below a minute is dropped. */
  function CachedAttrs(a: Answer): Attrs {
    if !a.isAccept then NO_ATTRS
    else if a.attrs.interim < 60 then a.attrs.(interim := 0)
    else a.attrs
  }

  /** What an answer leaves in the cache; a rejection carries nothing else. */
  function CacheEntry(c: Conf, addr: Mac, a: Answer, now: int): (e: Cached)
    ensures e.time == now && e.addr == addr && e.accepted == CachedVerdict(c, a)
    ensures !a.isAccept ==> e.vlan == 0 && e.sessionTimeout == 0 && e.attrs == NO_ATTRS
    ensures a.isAccept && a.vlanKnown ==> e.vlan == a.vlan
    ensures a.isAccept && !a.vlanKnown ==> e.vlan == 0
    ensures a.isAccept ==> e.sessionTimeout == if a.sessionTimeout.Some? then a.sessionTimeout.value else 0
    ensures a.isAccept ==> e.attrs.interim == if a.attrs.interim >= 60 then a.attrs.interim else 0
    ensures a.isAccept ==>
      (e.attrs.psks, e.attrs.identity, e.attrs.cui) == (a.attrs.psks, a.attrs.identity, a.attrs.cui)
  {
    Cached(now, addr, CachedVerdict(c, a),
      if a.isAccept && a.sessionTimeout.Some? then a.sessionTimeout.value else 0, CachedVlan(a), CachedAttrs(a))
  }

  /** The first query from position i on with the identifier. */
  function FindId(queries: seq<Query>, id: byte, i: nat): (r: Option<nat>)
    requires i <= |queries|
    ensures r.Some? ==> i <= r.value < |queries| && queries[r.value].radiusId == id
    ensures r.Some? ==> forall k :: i <= k < r.value ==> queries[k].radiusId != id
    ensures r.None? ==> forall k :: i <= k < |queries| ==> queries[k].radiusId != id
    decreases |queries| - i
  {
    if i == |queries| then None
    else if queries[i].radiusId == id then Some(i)
    else FindId(queries, id, i + 1)
  }

  /** Position k is the first with the identifier. */
  lemma {:induction false} FirstIs(queries: seq<Query>, id: byte, k: nat)
    requires k < |queries| && queries[k].radiusId == id && forall i :: 0 <= i < k ==> queries[i].radiusId != id
    ensures FindId(queries, id, 0) == Some(k)
  {
    hide FindId;
    var r := FindId(queries, id, 0);
    assert r.Some? && !(r.value < k) && !(k < r.value);
  }

  lemma {:induction false} FindIdPrepend(q: Query, queries: seq<Query>, id: byte)
    ensures FindId([q] + queries, id, 0) == if q.radiusId == id then Some(0)
                                            else if FindId(queries, id, 0).None? then None
                                            else Some(FindId(queries, id, 0).value + 1)
  {
    hide FindId;
    var all, r := [q] + queries, FindId(queries, id, 0);
    assert forall i :: 1 <= i < |all| ==> all[i] == queries[i - 1];
    if q.radiusId == id {
      FirstIs(all, id, 0);
    } else if r.Some? {
      FirstIs(all, id, r.value + 1);
    } else {
      assert forall i :: 0 <= i < |all| ==> all[i].radiusId != id;
    }
  }

  /** Taking out a query of another identifier leaves the first one in place. */
  lemma {:induction false} FindIdDrop(queries: seq<Query>, k: nat, id: byte)
    requires k < |queries| && queries[k].radiusId != id
    ensures var r, rest := FindId(queries, id, 0), queries[..k] + queries[k + 1..];
      var f := FindId(rest, id, 0);
      f.Some? ==> r.Some? && rest[f.value] == queries[r.value]
  {
    hide FindId;
    var rest := queries[..k] + queries[k + 1..];
    var f := FindId(rest, id, 0);
    if f.Some? {
      var m := Past(f.value, k);
      assert rest[f.value] == queries[m];
      forall i | 0 <= i < m ensures queries[i].radiusId != id {
        if i < k {
          assert queries[i] == rest[i];
        } else if i > k {
          assert queries[i] == rest[i - 1];
        }
      }
      FirstIs(queries, id, m);
    }
  }

  function Past(i: nat, k: nat): nat {
    if i < k then i else i + 1
  }

  lemma {:induction false} NoneKept(queries: seq<Query>, now: int)
    requires forall e :: e in queries ==> Expired(now, e.time)
    ensures KeepQueries(queries, now) == []
    decreases |queries|
  {
    if queries != [] { NoneKept(queries[1..], now); }
  }

  lemma {:induction false} KeepQueriesFirst(q: Query, rest: seq<Query>, now: int)
    ensures KeepQueries([q] + rest, now)
      == if Expired(now, q.time) then KeepQueries(rest, now) else [q] + KeepQueries(rest, now)
  {
    assert ([q] + rest)[1..] == rest;
  }

  /** Expiry, newest first, drops the first query of an identifier only together with all older ones. */
  lemma {:induction false} FindIdKeep(queries: seq<Query>, now: int, clock: int, id: byte)
    requires OnePerAddress(queries) && QueriesNewestFirst(queries, clock)
    ensures var r, kept := FindId(queries, id, 0), KeepQueries(queries, now);
      var f := FindId(kept, id, 0);
      f.Some? ==> r.Some? && kept[f.value] == queries[r.value]
    decreases |queries|
  {
    hide FindId, OnePerAddress, QueriesNewestFirst, KeepQueries;
    if queries == [] {
      NoneKept(queries, now);
    } else {
      var q, tail, kept := queries[0], queries[1..], KeepQueries(queries[1..], now);
      assert queries == [q] + tail;
      KeepQueriesFirst(q, tail, now);
      QueriesTail(queries, clock);
      FindIdKeep(tail, now, clock, id);
      FindIdPrepend(q, tail, id);
      if !Expired(now, q.time) {
        FindIdPrepend(q, kept, id);
      } else if q.radiusId == id {
        assert forall e :: e in tail ==> Expired(now, e.time);
        NoneKept(tail, now);
      }
    }
  }

  /** The static lists and policies, as far as they decide alone. */
  ghost function Static(c: Conf, addr: Mac): Option<Verdict> {
    if exists e :: e in c.accept && e.addr == addr then Some(Accept)
    else if exists e :: e in c.deny && e.addr == addr then Some(Reject)
    else match c.policy
      case AcceptUnlessDenied => Some(Accept)
      case DenyUnlessAccepted => Some(Reject)
      case UseExternalRadius => None
      case OtherPolicy => Some(Reject)
  }

  /* The lists and the client's requests as a state machine. */

  /** Who sent a request: the ACL for an address, another user of the authentication server, or accounting. */
  datatype Requester = AclFor(addr: Mac) | OtherAuth | NotAuth

  datatype Event =
    | Ask(addr: Mac, msg: seq<byte>, sent: bool, id: byte)
    | OtherRequest(id: byte, auth: bool)
    | Forget(id: byte)
    | Reply(rid: byte, genuine: bool, answer: Answer)
    | Expire

  datatype Timed = Timed(now: int, event: Event)

  /** outstanding: the requests that the client still waits for, at most one under each identifier. */
  datatype State = State(cache: seq<Cached>, queries: seq<Query>, outstanding: map<byte, Requester>)

  predicate Asked(queries: seq<Query>, addr: Mac) {
    exists i :: 0 <= i < |queries| && queries[i].addr == addr
  }

  /** What an authentication request for the address is told. */
  ghost function VerdictFor(c: Conf, s: State, addr: Mac, sent: bool, now: int): Verdict {
    if Static(c, addr).Some? then Static(c, addr).value
    else if Fresh(s.cache, addr, now).Some? then Fresh(s.cache, addr, now).value.accepted
    else if Asked(s.queries, addr) || (c.hasServer && sent) then Pending
    else Reject
  }

  /** An Access-Request is built for the address. */
  ghost predicate Queries(c: Conf, s: State, addr: Mac, now: int) {
    Static(c, addr).None? && Fresh(s.cache, addr, now).None? && !Asked(s.queries, addr) && c.hasServer
  }

  /** The client waits for a reply from the authentication server under the identifier. */
  predicate Waiting(outstanding: map<byte, Requester>, id: byte) {
    id in outstanding && outstanding[id] != NotAuth
  }

  /** The ACL's handler takes the reply for one of its own. */
  predicate Takes(queries: seq<Query>, rid: byte, authentic: bool, answer: Answer) {
    FindId(queries, rid, 0).Some? && authentic && (answer.isAccept || answer.isReject)
  }

  function Taken(c: Conf, s: State, rid: byte, answer: Answer, now: int): State
    requires FindId(s.queries, rid, 0).Some?
  {
    var k := FindId(s.queries, rid, 0).value;
    State([CacheEntry(c, s.queries[k].addr, answer, now)] + s.cache, s.queries[..k] + s.queries[k + 1..], s.outstanding)
  }

  predicate Decides(s: State, e: Event) {
    e.Reply? && Waiting(s.outstanding, e.rid) && Takes(s.queries, e.rid, e.genuine, e.answer)
  }

  /** A new identifier drops an older request under it; a reply is genuine if it answers the request waited for. */
  ghost function Step(c: Conf, s: State, t: Timed): State {
    match t.event
    case Ask(addr, msg, sent, id) =>
      if !Queries(c, s, addr, t.now) then s
      else if !sent then s.(outstanding := s.outstanding - {id})
      else State(s.cache, [Query(t.now, id, addr, msg)] + s.queries, s.outstanding[id := AclFor(addr)])
    case OtherRequest(id, auth) => s.(outstanding := s.outstanding[id := if auth then OtherAuth else NotAuth])
    case Forget(id) => s.(outstanding := s.outstanding - {id})
    case Reply(id, genuine, answer) =>
      if !Waiting(s.outstanding, id) then s
      else
        var s' := s.(outstanding := s.outstanding - {id});
        if Takes(s.queries, id, genuine, answer) then Taken(c, s', id, answer, t.now) else s'
    case Expire => State(KeepCached(s.cache, t.now), KeepQueries(s.queries, t.now), s.outstanding)
  }

  /** If the ACL waits under the identifier, the first query listed with it is for the address it asked about. */
  predicate LinkOk(queries: seq<Query>, id: byte, r: Requester) {
    r.AclFor? && FindId(queries, id, 0).Some? ==> queries[FindId(queries, id, 0).value].addr == r.addr
  }

  ghost predicate Linked(s: State) {
    forall id :: id in s.outstanding ==> LinkOk(s.queries, id, s.outstanding[id])
  }

  ghost predicate Ok(s: State, now: int) {
    && NewestFirst(s.cache, now) && Definite(s.cache)
    && OnePerAddress(s.queries) && QueriesNewestFirst(s.queries, now)
    && Linked(s)
  }

  lemma {:induction false} AskKeepsOk(s: State, q: Query, clock: int)
    requires Ok(s, clock) && clock <= q.time && !Asked(s.queries, q.addr)
    ensures Ok(State(s.cache, [q] + s.queries, s.outstanding[q.radiusId := AclFor(q.addr)]), q.time)
  {
    hide FindId;
    assert forall e :: e in s.queries ==> e.addr != q.addr && e.time <= q.time;
    PrependQuery(q, s.queries, q.time);
    hide OnePerAddress, QueriesNewestFirst, Asked;
    var s' := State(s.cache, [q] + s.queries, s.outstanding[q.radiusId := AclFor(q.addr)]);
    forall id | id in s'.outstanding ensures LinkOk(s'.queries, id, s'.outstanding[id]) {
      FindIdPrepend(q, s.queries, id);
      if id != q.radiusId { assert LinkOk(s.queries, id, s.outstanding[id]); }
    }
  }

  lemma {:induction false} TakenKeepsOk(c: Conf, s: State, rid: byte, answer: Answer, now: int)
    requires Ok(s, now) && rid !in s.outstanding && FindId(s.queries, rid, 0).Some?
    ensures Ok(Taken(c, s, rid, answer, now), now)
  {
    var s', k := Taken(c, s, rid, answer, now), FindId(s.queries, rid, 0).value;
    hide FindId, CachedVerdict, CachedVlan, CachedAttrs;
    DropKeepsOne(s.queries, k, now);
    PrependNewest(CacheEntry(c, s.queries[k].addr, answer, now), s.cache, now);
    hide OnePerAddress, QueriesNewestFirst, NewestFirst;
    forall id | id in s'.outstanding ensures LinkOk(s'.queries, id, s'.outstanding[id]) {
      assert LinkOk(s.queries, id, s.outstanding[id]);
      FindIdDrop(s.queries, k, id);
    }
  }

  lemma {:induction false} ExpireKeepsOk(s: State, now: int, clock: int)
    requires Ok(s, clock) && clock <= now
    ensures Ok(State(KeepCached(s.cache, now), KeepQueries(s.queries, now), s.outstanding), now)
  {
    KeepCachedOk(s.cache, now, clock);
    KeepQueriesOk(s.queries, now, clock);
    var s' := State(KeepCached(s.cache, now), KeepQueries(s.queries, now), s.outstanding);
    assert Definite(s'.cache) by { assert forall i :: 0 <= i < |s'.cache| ==> s'.cache[i] in s.cache; }
    forall id | id in s'.outstanding ensures LinkOk(s'.queries, id, s'.outstanding[id]) {
      assert LinkOk(s.queries, id, s.outstanding[id]);
      FindIdKeep(s.queries, now, clock, id);
    }
  }

  lemma {:induction false} FewerOutstanding(s: State, outstanding: map<byte, Requester>, now: int, clock: int)
    requires Ok(s, clock) && clock <= now
    requires forall id :: id in outstanding ==>
      !outstanding[id].AclFor? || (id in s.outstanding && outstanding[id] == s.outstanding[id])
    ensures Ok(s.(outstanding := outstanding), now)
  {
    hide FindId;
  }

  lemma {:induction false} StepKeepsOk(c: Conf, s: State, t: Timed, clock: int)
    requires Ok(s, clock) && clock <= t.now
    ensures Ok(Step(c, s, t), t.now)
  {
    hide Ok, Queries, Takes, Taken, Waiting, KeepCached, KeepQueries;
    OkLater(s, clock, t.now);
    match t.event
    case Ask(addr, msg, sent, id) =>
      if Queries(c, s, addr, t.now) {
        if sent {
          assert !Asked(s.queries, addr) by { QueriesMeans(c, s, addr, t.now); }
          AskKeepsOk(s, Query(t.now, id, addr, msg), clock);
        } else {
          FewerOutstanding(s, s.outstanding - {id}, t.now, clock);
        }
      }
    case OtherRequest(id, auth) =>
      FewerOutstanding(s, s.outstanding[id := if auth then OtherAuth else NotAuth], t.now, clock);
    case Forget(id) =>
      FewerOutstanding(s, s.outstanding - {id}, t.now, clock);
    case Reply(id, genuine, answer) =>
      FewerOutstanding(s, s.outstanding - {id}, t.now, clock);
      if Takes(s.queries, id, genuine, answer) {
        assert FindId(s.queries, id, 0).Some? by { TakesMeans(s.queries, id, genuine, answer); }
        TakenKeepsOk(c, s.(outstanding := s.outstanding - {id}), id, answer, t.now);
      }
    case Expire =>
      ExpireKeepsOk(s, t.now, clock);
  }

  lemma {:induction false} OkLater(s: State, clock: int, now: int)
    requires Ok(s, clock) && clock <= now
    ensures Ok(s, now)
  {
    hide FindId;
  }

  lemma {:induction false} QueriesMeans(c: Conf, s: State, addr: Mac, now: int)
    requires Queries(c, s, addr, now)
    ensures !Asked(s.queries, addr)
  {
  }

  lemma {:induction false} TakesMeans(queries: seq<Query>, rid: byte, authentic: bool, answer: Answer)
    requires Takes(queries, rid, authentic, answer)
    ensures FindId(queries, rid, 0).Some?
  {
  }

  lemma {:induction false} DropKeepsOne(queries: seq<Query>, k: nat, now: int)
    requires OnePerAddress(queries) && QueriesNewestFirst(queries, now) && k < |queries|
    ensures OnePerAddress(queries[..k] + queries[k + 1..]) && QueriesNewestFirst(queries[..k] + queries[k + 1..], now)
    ensures !Asked(queries[..k] + queries[k + 1..], queries[k].addr)
  {
    var rest := queries[..k] + queries[k + 1..];
    Remaining(queries, k);
    forall i, j | 0 <= i < j < |rest| ensures rest[i].addr != rest[j].addr && rest[i].time >= rest[j].time {
      assert Past(i, k) < Past(j, k);
    }
    assert forall i :: 0 <= i < |rest| ==> rest[i].addr != queries[k].addr;
  }

  lemma {:induction false} Remaining(queries: seq<Query>, k: nat)
    requires k < |queries|
    ensures var rest := queries[..k] + queries[k + 1..];
      forall i :: 0 <= i < |rest| ==> 0 <= Past(i, k) < |queries| && Past(i, k) != k && rest[i] == queries[Past(i, k)]
  {
  }

  predicate Ordered(run: seq<Timed>) {
    forall i, j :: 0 <= i < j < |run| ==> run[i].now <= run[j].now
  }

  ghost function Run(c: Conf, run: seq<Timed>): State {
    if run == [] then State([], [], map[]) else Step(c, Run(c, run[..|run| - 1]), run[|run| - 1])
  }

  /** Every verdict ever received, newest first: nothing is forgotten. */
  ghost function Log(c: Conf, run: seq<Timed>): seq<Cached> {
    if run == [] then []
    else
      var n := |run| - 1;
      var s, t := Run(c, run[..n]), run[n];
      if Decides(s, t.event)
      then [CacheEntry(c, s.queries[FindId(s.queries, t.event.rid, 0).value].addr, t.event.answer, t.now)]
        + Log(c, run[..n])
      else Log(c, run[..n])
  }

  /** In every reachable state: at most one query per address, the cache newest first and no pending verdict. */
  lemma {:induction false} RunOk(c: Conf, run: seq<Timed>, now: int)
    requires Ordered(run) && (run != [] ==> run[|run| - 1].now <= now)
    ensures Ok(Run(c, run), now)
    decreases |run|
  {
    hide FindId, Step;
    if run != [] {
      var n := |run| - 1;
      RunOk(c, run[..n], run[n].now);
      StepKeepsOk(c, Run(c, run[..n]), run[n], run[n].now);
    }
  }

  /** Forgetting is harmless: a look-up finds what it would find had no entry ever been expired. */
  lemma {:induction false} CacheIsLog(c: Conf, run: seq<Timed>, addr: Mac, now: int)
    requires Ordered(run) && (run != [] ==> run[|run| - 1].now <= now)
    ensures Fresh(Run(c, run).cache, addr, now) == Fresh(Log(c, run), addr, now)
    decreases |run|
  {
    hide Ok, Static, CacheEntry, Expired, FindId, Fresh, Queries, KeepCached, KeepQueries;
    if run != [] {
      var n := |run| - 1;
      CacheIsLog(c, run[..n], addr, now);
      RunOk(c, run[..n], run[n].now);
      var s, t := Run(c, run[..n]), run[n];
      assert NewestFirst(s.cache, t.now) by { OkOrder(s, t.now); }
      if t.event.Expire? {
        KeepCachedFresh(s.cache, t.now, addr, now, t.now);
      } else if Decides(s, t.event) {
        var e := CacheEntry(c, s.queries[FindId(s.queries, t.event.rid, 0).value].addr, t.event.answer, t.now);
        PrependFresh(e, s.cache, addr, now);
        PrependFresh(e, Log(c, run[..n]), addr, now);
      }
    }
  }

  lemma {:induction false} OkOrder(s: State, now: int)
    requires Ok(s, now)
    ensures NewestFirst(s.cache, now)
  {
  }

  /** Right after a verdict is cached the address gets it, never Pending, and no query is left for it. */
  lemma {:induction false} DefiniteAfterReply(c: Conf, s: State, t: Timed, sent: bool, now: int)
    requires Ok(s, t.now) && Decides(s, t.event) && t.now <= now <= t.now + 30_000_000
    ensures var addr := s.queries[FindId(s.queries, t.event.rid, 0).value].addr;
      && !Asked(Step(c, s, t).queries, addr)
      && (Static(c, addr).None? ==> VerdictFor(c, Step(c, s, t), addr, sent, now) == CachedVerdict(c, t.event.answer))
  {
    hide Static, CachedVerdict, FindId, Fresh, Expired;
    var k := FindId(s.queries, t.event.rid, 0).value;
    DropKeepsOne(s.queries, k, t.now);
    PrependFresh(CacheEntry(c, s.queries[k].addr, t.event.answer, t.now), s.cache, s.queries[k].addr, now);
    Unexpired(now, t.now);
  }

  /* Whom a verdict is about. */

  /** Who sent the last request under the identifier, by the run's history. */
  ghost function LastRequest(c: Conf, run: seq<Timed>, id: byte): Option<Requester> {
    if run == [] then None
    else
      var n := |run| - 1;
      var t := run[n];
      match t.event
      case Ask(addr, _, sent, i) =>
        if i == id && sent && Queries(c, Run(c, run[..n]), addr, t.now) then Some(AclFor(addr))
        else LastRequest(c, run[..n], id)
      case OtherRequest(i, auth) =>
        if i == id then Some(if auth then OtherAuth else NotAuth) else LastRequest(c, run[..n], id)
      case _ => LastRequest(c, run[..n], id)
  }

  /** The client waits for nobody's reply but that of the last to use the identifier. */
  lemma {:induction false} WaitsForLast(c: Conf, run: seq<Timed>, id: byte)
    ensures id in Run(c, run).outstanding ==> LastRequest(c, run, id) == Some(Run(c, run).outstanding[id])
    decreases |run|
  {
    hide Queries, Takes, FindId, KeepCached, KeepQueries;
    if run != [] { WaitsForLast(c, run[..|run| - 1], id); }
  }

  /**
   * Over every run, however identifiers are shared: a verdict that is cached goes to the station that the answered
   * request asked about, if and only if the last request under the reply's identifier was the ACL's own.
   */
  lemma {:induction false} VerdictBelongs(c: Conf, run: seq<Timed>, t: Timed)
    requires Ordered(run) && (run != [] ==> run[|run| - 1].now <= t.now) && Decides(Run(c, run), t.event)
    ensures var s, last := Run(c, run), LastRequest(c, run, t.event.rid);
      && last.Some? && last.value != NotAuth
      && (last.value.AclFor? <==> last == Some(AclFor(Step(c, s, t).cache[0].addr)))
  {
    hide FindId, CachedVerdict, CachedVlan, CachedAttrs, Run, LastRequest, Ordered;
    var s, id := Run(c, run), t.event.rid;
    RunOk(c, run, t.now);
    WaitsForLast(c, run, id);
    assert LinkOk(s.queries, id, s.outstanding[id]);
    var k := FindId(s.queries, id, 0).value;
    assert Step(c, s, t).cache[0] == CacheEntry(c, s.queries[k].addr, t.event.answer, t.now);
  }

  /** Another module reuses the identifier of a query still listed: its Access-Accept is cached for that station. */
  lemma {:induction false} ReusedByOther(c: Conf, a: Mac, answer: Answer, id: byte)
    requires c.hasServer && Static(c, a).None? && (answer.isAccept || answer.isReject)
    ensures var run := [Timed(0, Ask(a, [], true, id)), Timed(0, OtherRequest(id, true))];
      var t := Timed(0, Reply(id, true, answer));
      && LastRequest(c, run, id) == Some(OtherAuth) && Decides(Run(c, run), t.event)
      && Step(c, Run(c, run), t).cache == [CacheEntry(c, a, answer, 0)]
  {
    hide Static, CacheEntry;
    var x, y := Timed(0, Ask(a, [], true, id)), Timed(0, OtherRequest(id, true));
    assert [x, y][..1] == [x] && [x][..0] == [];
    var s0 := State([], [], map[]);
    assert Run(c, []) == s0;
    assert Newest([], a) == None && !Asked([], a);
    var s1 := Run(c, [x]);
    assert s1 == Step(c, s0, x) == State([], [Query(0, id, a, [])], map[id := AclFor(a)]);
    var s := Run(c, [x, y]);
    assert s == Step(c, s1, y) && s.queries == s1.queries && s.outstanding[id] == OtherAuth;
    assert FindId(s.queries, id, 0) == Some(0);
  }

  lemma {:induction false} Unexpired(now: int, at: int)
    requires now <= at + 30_000_000
    ensures !Expired(now, at)
  {
  }

  lemma {:induction false} StaticDefinite(c: Conf, addr: Mac)
    ensures Static(c, addr) != Some(Pending)
  {
  }

  class AclState {
    const conf: Conf
    var cache: seq<Cached>
    var queries: seq<Query>
    var outstanding: map<byte, Requester>  // what the RADIUS client waits for

    ghost function Lists(): State
      reads this
    {
      State(cache, queries, outstanding)
    }

    ghost predicate Valid(now: int)
      reads this
    {
      ML.Sorted(conf.accept) && ML.Sorted(conf.deny) && Ok(Lists(), now)
    }

    constructor (conf: Conf)
      requires ML.Sorted(conf.accept) && ML.Sorted(conf.deny)
      ensures this.conf == conf && Lists() == Run(conf, [])
      ensures forall now :: Valid(now)
    {
      this.conf := conf;
      cache, queries, outstanding := [], [], map[];
    }

    /** hostapd_acl_cache_get: the first match decides; None stands for -1. */
    method CacheGet(addr: Mac, now: int) returns (r: Option<Cached>)
      requires Valid(now)
      ensures r == Fresh(cache, addr, now)
      ensures r.Some? <==> FreshFor(cache, addr, now)
      ensures r.Some? ==> r.value in cache && r.value.addr == addr && r.value.accepted != Pending
      ensures r.Some? ==> now - r.value.time <= 30_000_000
      ensures r.Some? ==> forall e :: e in cache && e.addr == addr ==> e.time <= r.value.time
      ensures r.None? ==> forall e :: e in cache && e.addr == addr ==> now - e.time > 30_000_000
    {
      FirstMatchDecides(cache, addr, now, now);
      forall e | e in cache && e.addr == addr
        ensures Newest(cache, addr).Some? && e.time <= Newest(cache, addr).value.time
      {
        var i: nat :| i < |cache| && cache[i] == e;
        NewestIsLatest(cache, addr, now, i);
      }
      for i := 0 to |cache|
        invariant Newest(cache, addr) == Newest(cache[i..], addr)
      {
        assert cache[i..][1..] == cache[i + 1..];
        if cache[i].addr != addr {
          continue;
        }
        if Expired(now, cache[i].time) {
          return None;
        }
        return Some(cache[i]);
      }
      return None;
    }

    /** hostapd_allowed_address; sent tells whether the Access-Request could be sent, id is its RADIUS identifier. */
    method AllowedAddress(addr: Mac, msg: seq<byte>, now: int, sent: bool, id: byte)
      returns (v: Verdict, vlan: int, sessionTimeout: nat, attrs: Attrs)
      requires Valid(now)
      modifies this`queries, this`outstanding
      ensures Lists() == Step(conf, old(Lists()), Timed(now, Ask(addr, msg, sent, id)))
      ensures v == VerdictFor(conf, old(Lists()), addr, sent, now)
      ensures ML.Has(conf.accept, addr) ==> v == Accept && ML.Entry(addr, vlan) in conf.accept
      ensures !ML.Has(conf.accept, addr) && ML.Has(conf.deny, addr) ==> v == Reject && ML.Entry(addr, vlan) in conf.deny
      ensures !ML.Has(conf.accept, addr) && !ML.Has(conf.deny, addr) ==>
        match conf.policy
        case AcceptUnlessDenied => v == Accept
        case DenyUnlessAccepted => v == Reject
        case OtherPolicy => v == Reject
        case UseExternalRadius =>
          if FreshFor(cache, addr, now)
          then Fresh(cache, addr, now).Some? && v == Fresh(cache, addr, now).value.accepted
          else if (exists q :: q in old(queries) && q.addr == addr) || (conf.hasServer && sent) then v == Pending
          else v == Reject
      ensures v == Pending ==>
        conf.policy == UseExternalRadius && !ML.Has(conf.accept, addr) && !ML.Has(conf.deny, addr)
      ensures if v == Pending && forall q :: q in old(queries) ==> q.addr != addr
              then queries == [Query(now, id, addr, msg)] + old(queries)
                && outstanding == old(outstanding)[id := AclFor(addr)]
              else queries == old(queries)
      ensures v != Pending && Static(conf, addr).None? && !FreshFor(cache, addr, now) && conf.hasServer ==>
        outstanding == old(outstanding) - {id}
      ensures Static(conf, addr).None? && Fresh(cache, addr, now).Some? ==>
        && vlan == Fresh(cache, addr, now).value.vlan && attrs == Fresh(cache, addr, now).value.attrs
        && sessionTimeout == if v == AcceptTimeout then Fresh(cache, addr, now).value.sessionTimeout else 0
      ensures Static(conf, addr).None? && Fresh(cache, addr, now).None? ==>
        vlan == 0 && attrs == NO_ATTRS && sessionTimeout == 0
      ensures Static(conf, addr).Some? ==> attrs == NO_ATTRS && sessionTimeout == 0
      ensures Valid(now)
    {
      StepKeepsOk(conf, Lists(), Timed(now, Ask(addr, msg, sent, id)), now);
      hide ML.Sorted, NewestFirst, FreshFor, Expired, Fresh, OnePerAddress, Definite, Linked, QueriesNewestFirst;
      vlan, sessionTimeout, attrs := 0, 0, NO_ATTRS;
      var found;
      found, vlan := ML.Found(conf.accept, addr);
      if found { return Accept, vlan, 0, NO_ATTRS; }
      found, vlan := ML.Found(conf.deny, addr);
      if found { return Reject, vlan, 0, NO_ATTRS; }
      vlan := 0;
      if conf.policy == AcceptUnlessDenied { return Accept, 0, 0, NO_ATTRS; }
      if conf.policy == DenyUnlessAccepted { return Reject, 0, 0, NO_ATTRS; }
      if conf.policy != UseExternalRadius { return Reject, 0, 0, NO_ATTRS; }
      var entry := CacheGet(addr, now);
      if entry.Some? {
        return entry.value.accepted, entry.value.vlan,
          if entry.value.accepted == AcceptTimeout then entry.value.sessionTimeout else 0, entry.value.attrs;
      }
      for i := 0 to |queries|
        invariant queries == old(queries) && outstanding == old(outstanding)
        invariant forall k :: 0 <= k < i ==> queries[k].addr != addr
      {
        if queries[i].addr == addr {
          return Pending, 0, 0, NO_ATTRS;
        }
      }
      assert !Asked(queries, addr);
      if !conf.hasServer {
        return Reject, 0, 0, NO_ATTRS;
      }
      outstanding := outstanding - {id};
      if !sent {
        return Reject, 0, 0, NO_ATTRS;
      }
      outstanding := outstanding[id := AclFor(addr)];
      assert outstanding == old(outstanding)[id := AclFor(addr)];
      queries := [Query(now, id, addr, msg)] + queries;
      return Pending, 0, 0, NO_ATTRS;
    }

    /** hostapd_acl_expire_cache. */
    method ExpireCache(now: int)
      modifies this`cache
      ensures cache == KeepCached(old(cache), now)
    {
      hide Expired, KeepCached;
      KeepNothing(now);
      var kept: seq<Cached> := [];
      for i := 0 to |cache|
        invariant cache == old(cache)
        invariant kept + KeepCached(cache[i..], now) == KeepCached(cache, now)
      {
        ghost var rest := KeepCached(cache[i + 1..], now);
        assert cache[i..] == [cache[i]] + cache[i + 1..];
        KeepFirst(cache[i], cache[i + 1..], now);
        assert kept + (KeepOne(cache[i], now) + rest) == (kept + KeepOne(cache[i], now)) + rest;
        if !Expired(now, cache[i].time) {
          kept := kept + [cache[i]];
        }
      }
      cache := kept;
    }

    /** hostapd_acl_expire_queries. */
    method ExpireQueries(now: int)
      modifies this`queries
      ensures queries == KeepQueries(old(queries), now)
    {
      var kept: seq<Query> := [];
      for i := 0 to |queries|
        invariant queries == old(queries)
        invariant kept + KeepQueries(queries[i..], now) == KeepQueries(queries, now)
      {
        assert queries[i..][1..] == queries[i + 1..];
        if !Expired(now, queries[i].time) {
          kept := kept + [queries[i]];
        }
      }
      queries := kept;
    }

    /** hostapd_acl_expire. */
    method ExpireBoth(now: int)
      requires Valid(now)
      modifies this`cache, this`queries
      ensures Lists() == Step(conf, old(Lists()), Timed(now, Expire)) && Valid(now)
    {
      StepKeepsOk(conf, Lists(), Timed(now, Expire), now);
      ExpireCache(now);
      ExpireQueries(now);
    }

    /** Another module takes an identifier from the client and sends its request. */
    method SendOther(id: byte, auth: bool, now: int)
      requires Valid(now)
      modifies this`outstanding
      ensures Lists() == Step(conf, old(Lists()), Timed(now, OtherRequest(id, auth))) && Valid(now)
    {
      StepKeepsOk(conf, Lists(), Timed(now, OtherRequest(id, auth)), now);
      outstanding := outstanding - {id};
      outstanding := outstanding[id := if auth then OtherAuth else NotAuth];
      assert outstanding == old(outstanding)[id := if auth then OtherAuth else NotAuth];
    }

    /**
     * hostapd_acl_recv_radius. The stored frame is fed back before the query is unlinked; sent and id would be
     * used were it to start a query of its own. Because it cannot, position k still names the same query.
     */
    method RecvRadius(rid: byte, authentic: bool, answer: Answer, now: int, sent: bool, id: byte)
      returns (r: RadiusResult, again: Option<Verdict>)
      requires Valid(now) && rid !in outstanding
      modifies this`cache, this`queries, this`outstanding
      ensures Lists() == if Takes(old(queries), rid, authentic, answer)
                         then Taken(conf, old(Lists()), rid, answer, now) else old(Lists())
      ensures Valid(now) && (again.Some? <==> r == Processed)
      ensures r == Processed <==> Takes(old(queries), rid, authentic, answer)
      ensures r == Processed <==>
        (exists q :: q in old(queries) && q.radiusId == rid) && authentic && (answer.isAccept || answer.isReject)
      ensures r == InvalidAuthenticator <==> (exists q :: q in old(queries) && q.radiusId == rid) && !authentic
      ensures again.Some? ==> again.value != Pending
    {
      hide Ok, Static, Fresh, Asked, Expired;
      ghost var s := Lists();
      if FindId(queries, rid, 0).Some? { TakenKeepsOk(conf, s, rid, answer, now); }
      var k := 0;
      while k < |queries| && queries[k].radiusId != rid
        invariant k <= |queries| && FindId(queries, rid, 0) == FindId(queries, rid, k)
      {
        k := k + 1;
      }
      if k == |queries| { return Unknown, None; }
      if !authentic { return InvalidAuthenticator, None; }
      if !answer.isAccept && !answer.isReject { return Unknown, None; }
      var query := queries[k];
      PrependFresh(CacheEntry(conf, query.addr, answer, now), cache, query.addr, now);
      Unexpired(now, now);
      StaticDefinite(conf, query.addr);
      CacheOnly(s, CacheEntry(conf, query.addr, answer, now), now);
      cache := [CacheEntry(conf, query.addr, answer, now)] + cache;
      var v, _, _, _ := AllowedAddress(query.addr, query.msg, now, sent, id);
      again := Some(v);
      queries := queries[..k] + queries[k + 1..];
      r := Processed;
    }

    /**
     * radius_client_receive on the authentication socket, as far as the ACL: a reply that nothing waits for is
     * dropped; otherwise the request is no longer waited for, and the ACL's handler sees the reply first.
     */
    method Receive(rid: byte, genuine: bool, answer: Answer, now: int, sent: bool, id: byte)
      returns (r: Option<RadiusResult>)
      requires Valid(now)
      modifies this`cache, this`queries, this`outstanding
      ensures Lists() == Step(conf, old(Lists()), Timed(now, Reply(rid, genuine, answer))) && Valid(now)
      ensures r == Some(Processed) <==> Decides(old(Lists()), Reply(rid, genuine, answer))
      ensures r.None? <==> !Waiting(old(outstanding), rid)
    {
      hide Ok, Static, Fresh, Asked, Expired, FindId, Taken;
      if rid !in outstanding || outstanding[rid] == NotAuth {
        return None;
      }
      FewerOutstanding(Lists(), outstanding - {rid}, now, now);
      outstanding := outstanding - {rid};
      var res, _ := RecvRadius(rid, genuine, answer, now, sent, id);
      return Some(res);
    }
  }

  lemma {:induction false} CacheOnly(s: State, e: Cached, now: int)
    requires Ok(s, now) && e.time == now && e.accepted != Pending
    ensures Ok(s.(cache := [e] + s.cache), now)
  {
    hide FindId;
    PrependNewest(e, s.cache, now);
  }
}
