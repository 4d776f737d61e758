/** GAS comeback dialogs of gas_serv.c: slot allocation and fragmentation, over interleaved requests of one station. */
module GasSpec {
  import opened Options
  import opened Bits

  const DIALOG_MAX: nat := 8

  datatype Dialog = Dialog(valid: bool, token: byte, resp: seq<byte>, pos: nat, fragId: nat, prot: bool)

  const ZERO := Dialog(false, 0, [], 0, 0, false)

  /** A station's dialog slots, [] while none are allocated, and where the next search starts. */
  datatype Station = Station(slots: seq<Dialog>, next: nat)

  datatype Status = Success | UnspecifiedFailure | NoOutstandingGasReq

  datatype Reply =
    | InitialResp(token: byte, status: Status, delay: nat, body: seq<byte>)
    | ComebackResp(token: byte, status: Status, fragId: nat, more: bool, body: seq<byte>)

  /**
   * Unused slots are all zero, a dialog in progress has something left to send, and the array exists only while some
   * dialog is open.
   */
  ghost predicate StationOk(st: Station) {
    && |st.slots| in {0, DIALOG_MAX} && st.next < DIALOG_MAX
    && (st.slots != [] ==> exists i :: 0 <= i < |st.slots| && st.slots[i].valid)
    && (forall i :: 0 <= i < |st.slots| ==> SlotOk(st.slots[i]))
  }

  predicate SlotOk(d: Dialog) {
    (!d.valid ==> d == ZERO) && (d.valid ==> (d.pos == 0 || d.pos < |d.resp|) && d.fragId < 256)
  }

  /** The slot reached after k steps from the starting one. */
  function SlotAt(next: nat, k: nat): nat {
    (next + k) % DIALOG_MAX
  }

  lemma {:induction false} SlotAtIs(next: nat, k: nat)
    requires next < DIALOG_MAX && k <= DIALOG_MAX
    ensures SlotAt(next, k) == if next + k < DIALOG_MAX then next + k else next + k - DIALOG_MAX
  {
  }

  /** Round-robin search from step k on. */
  function FreeFrom(slots: seq<Dialog>, next: nat, k: nat): (r: Option<nat>)
    requires |slots| == DIALOG_MAX && k <= DIALOG_MAX
    ensures r.Some? ==> r.value < DIALOG_MAX && !slots[r.value].valid
    ensures r.None? ==> forall j :: k <= j < DIALOG_MAX ==> slots[SlotAt(next, j)].valid
    decreases DIALOG_MAX - k
  {
    if k == DIALOG_MAX then None
    else if !slots[SlotAt(next, k)].valid then Some(SlotAt(next, k))
    else FreeFrom(slots, next, k + 1)
  }

  lemma {:induction false} FreeStep(slots: seq<Dialog>, next: nat, k: nat)
    requires |slots| == DIALOG_MAX && k <= DIALOG_MAX
    ensures FreeFrom(slots, next, k) ==
      if k == DIALOG_MAX then None
      else if !slots[SlotAt(next, k)].valid then Some(SlotAt(next, k))
      else FreeFrom(slots, next, k + 1)
  {
  }

  lemma {:induction false} NextSlot(i: nat)
    ensures SlotAt(i, 1) == (i + 1) % DIALOG_MAX
  {
  }

  /** Slots after os_calloc, when there were none. */
  function Slots(st: Station): seq<Dialog> {
    if st.slots == [] then seq(DIALOG_MAX, _ => ZERO) else st.slots
  }

  /** gas_dialog_create: the slot taken, if any. */
  function Create(st: Station, token: byte): (Station, Option<nat>)
    requires |st.slots| in {0, DIALOG_MAX}
  {
    var slots := Slots(st);
    var r := FreeFrom(slots, st.next, 0);
    if r.None? then (st.(slots := slots), None)
    else (Station(slots[r.value := slots[r.value].(valid := true, token := token)], (r.value + 1) % DIALOG_MAX), r)
  }

  /** Eight steps visit every slot. */
  lemma {:induction false} SlotReached(next: nat, i: nat) returns (j: nat)
    requires next < DIALOG_MAX && i < DIALOG_MAX
    ensures j < DIALOG_MAX && SlotAt(next, j) == i
  {
    j := if next <= i then i - next else i + DIALOG_MAX - next;
  }

  lemma {:induction false} NoneIffFull(slots: seq<Dialog>, next: nat)
    requires |slots| == DIALOG_MAX && next < DIALOG_MAX
    ensures FreeFrom(slots, next, 0).None? <==> forall i :: 0 <= i < DIALOG_MAX ==> slots[i].valid
  {
    if FreeFrom(slots, next, 0).None? {
      forall i | 0 <= i < DIALOG_MAX ensures slots[i].valid {
        var j := SlotReached(next, i);
      }
    }
  }

  /** Slot i is free, and the slots from the starting one round to it are all in use. */
  ghost predicate FirstFree(slots: seq<Dialog>, next: nat, i: nat)
    requires |slots| == DIALOG_MAX
  {
    exists k: nat :: FreeAfter(slots, next, k, i)
  }

  predicate FreeAfter(slots: seq<Dialog>, next: nat, k: nat, i: nat)
    requires |slots| == DIALOG_MAX
  {
    k < 8 && i == (next + k) % 8 && !slots[i].valid && forall j: nat :: j < k ==> InUse(slots, next, j)
  }

  predicate InUse(slots: seq<Dialog>, next: nat, j: nat)
    requires |slots| == DIALOG_MAX
  {
    slots[(next + j) % 8].valid
  }

  lemma {:induction false} FreeIsFirst(slots: seq<Dialog>, next: nat, k: nat)
    requires |slots| == DIALOG_MAX && k <= DIALOG_MAX && FreeFrom(slots, next, k).Some?
    requires forall j: nat :: j < k ==> InUse(slots, next, j)
    ensures FirstFree(slots, next, FreeFrom(slots, next, k).value)
    decreases DIALOG_MAX - k
  {
    if slots[SlotAt(next, k)].valid {
      assert InUse(slots, next, k);
      FreeIsFirst(slots, next, k + 1);
    } else {
      assert FreeAfter(slots, next, k, SlotAt(next, k));
    }
  }

  /** Creation takes a slot that was unused, changes no other, and fails only when all eight are in use. */
  lemma {:induction false} CreateTakesFreeSlot(st: Station, token: byte)
    requires StationOk(st)
    ensures var (st', r) := Create(st, token);
      && st'.next < DIALOG_MAX
      && (r.None? <==> (st.slots != [] && forall i :: 0 <= i < DIALOG_MAX ==> st.slots[i].valid))
      && (r.None? ==> st' == st)
      && (r.Some? ==> (r.value < DIALOG_MAX && Slots(st)[r.value] == ZERO &&
                       st'.slots == Slots(st)[r.value := ZERO.(valid := true, token := token)]))
      && (r.Some? ==> st'.next == (r.value + 1) % 8 && FirstFree(Slots(st), st.next, r.value))
  {
    hide FreeFrom;
    if FreeFrom(Slots(st), st.next, 0).Some? { FreeIsFirst(Slots(st), st.next, 0); }
    NoneIffFull(Slots(st), st.next);
    assert st.slots == [] ==> !Slots(st)[0].valid;
  }

  /** gas_serv_dialog_find: the first valid slot with the token, from slot i on. */
  function FindFrom(slots: seq<Dialog>, token: byte, i: nat): (r: Option<nat>)
    requires i <= |slots|
    ensures r.Some? ==> i <= r.value < |slots| && slots[r.value].valid && slots[r.value].token == token
    ensures r.Some? ==> forall k :: i <= k < r.value ==> !(slots[k].valid && slots[k].token == token)
    ensures r.None? ==> forall k :: i <= k < |slots| ==> !(slots[k].valid && slots[k].token == token)
    decreases |slots| - i
  {
    if i == |slots| then None
    else if slots[i].token == token && slots[i].valid then Some(i)
    else FindFrom(slots, token, i + 1)
  }

  /** gas_serv_dialog_clear followed by gas_serv_free_dialogs. */
  function Release(st: Station, i: nat): Station
    requires i < |st.slots|
  {
    var slots := st.slots[i := ZERO];
    st.(slots := if forall k :: 0 <= k < |slots| ==> !slots[k].valid then [] else slots)
  }

  datatype Request =
    | InitialReq(token: byte, buf: seq<byte>, limit: nat, delay: nat, prot: bool)
    | ComebackReq(token: byte, limit: nat, group: bool)

  /** gas_serv_req_local_processing */
  function Initial(st: Station, q: Request): (Station, Option<Reply>)
    requires q.InitialReq? && |st.slots| in {0, DIALOG_MAX}
  {
    if |q.buf| > q.limit || q.delay != 0 then
      var (st', r) := Create(st, q.token);
      if r.None? then (st', Some(InitialResp(q.token, UnspecifiedFailure, 0, [])))
      else
        (st'.(slots := st'.slots[r.value := st'.slots[r.value].(prot := q.prot, resp := q.buf, pos := 0)]),
         Some(InitialResp(q.token, Success, if q.delay != 0 then q.delay else 1, [])))
    else (st, Some(InitialResp(q.token, Success, 0, q.buf)))
  }

  /** gas_serv_rx_gas_comeback_req */
  function Comeback(st: Station, q: Request): (Station, Option<Reply>)
    requires q.ComebackReq?
    requires forall i :: 0 <= i < |st.slots| ==> st.slots[i].pos <= |st.slots[i].resp|
  {
    var r := FindFrom(st.slots, q.token, 0);
    if r.None? then
      (st, if q.group then None else Some(ComebackResp(q.token, NoOutstandingGasReq, 0, false, [])))
    else
      var d := st.slots[r.value];
      var left := d.resp[d.pos..];
      if |left| > q.limit then
        (st.(slots := st.slots[r.value := d.(fragId := (d.fragId + 1) % 256, pos := d.pos + q.limit)]),
         Some(ComebackResp(q.token, Success, d.fragId, true, left[..q.limit])))
      else
        (Release(st, r.value), Some(ComebackResp(q.token, Success, d.fragId, false, left)))
  }

  function Step(st: Station, q: Request): (Station, Option<Reply>)
    requires StationOk(st)
  {
    if q.InitialReq? then Initial(st, q) else Comeback(st, q)
  }

  lemma {:induction false} StepKeepsOk(st: Station, q: Request)
    requires StationOk(st)
    ensures StationOk(Step(st, q).0)
  {
    hide FreeFrom;
    var st' := Step(st, q).0;
    if q.InitialReq? {
      CreateTakesFreeSlot(st, q.token);
      var r := Create(st, q.token).1;
      if (|q.buf| > q.limit || q.delay != 0) && r.Some? { assert st'.slots[r.value].valid; }
    } else {
      var r := FindFrom(st.slots, q.token, 0);
      if r.Some? && |st.slots[r.value].resp| - st.slots[r.value].pos > q.limit { assert st'.slots[r.value].valid; }
    }
  }

  // ---- one dialog among interleaved requests ----

  /** The replies to the comeback requests for this token. */
  function Replies(st: Station, qs: seq<Request>, t: byte): seq<Option<Reply>>
    requires StationOk(st)
    decreases |qs|
  {
    if qs == [] then []
    else
      StepKeepsOk(st, qs[0]);
      var (st', r) := Step(st, qs[0]);
      (if qs[0].ComebackReq? && qs[0].token == t then [r] else []) + Replies(st', qs[1..], t)
  }

  /** The comeback requests for this token. */
  function Comebacks(qs: seq<Request>, t: byte): seq<Request>
    decreases |qs|
  {
    if qs == [] then []
    else (if qs[0].ComebackReq? && qs[0].token == t then [qs[0]] else []) + Comebacks(qs[1..], t)
  }

  /** The fragments that should answer the given requests when `left` is still to be sent, and refusals after that. */
  function Fragments(left: seq<byte>, id: nat, t: byte, qs: seq<Request>): seq<Option<Reply>>
    requires forall i :: 0 <= i < |qs| ==> qs[i].ComebackReq?
    decreases |qs|
  {
    if qs == [] then []
    else if |left| > qs[0].limit then
      [Some(ComebackResp(t, Success, id, true, left[..qs[0].limit]))] +
      Fragments(left[qs[0].limit..], (id + 1) % 256, t, qs[1..])
    else
      [Some(ComebackResp(t, Success, id, false, left))] + Refusals(t, qs[1..])
  }

  function Refusals(t: byte, qs: seq<Request>): seq<Option<Reply>>
    requires forall i :: 0 <= i < |qs| ==> qs[i].ComebackReq?
  {
    seq(|qs|, i requires 0 <= i < |qs| =>
      if qs[i].group then None else Some(ComebackResp(t, NoOutstandingGasReq, 0, false, [])))
  }

  /** Slot i is the only valid dialog with token t. */
  ghost predicate Open(st: Station, t: byte, i: nat) {
    && i < |st.slots|
    && forall k :: 0 <= k < |st.slots| ==> (st.slots[k].valid && st.slots[k].token == t <==> k == i)
  }

  ghost predicate Closed(st: Station, t: byte) {
    forall k :: 0 <= k < |st.slots| ==> !(st.slots[k].valid && st.slots[k].token == t)
  }

  /** Nobody opens another dialog with token t. */
  predicate NoInitial(qs: seq<Request>, t: byte) {
    forall i :: 0 <= i < |qs| ==> qs[i].InitialReq? ==> qs[i].token != t
  }

  lemma {:induction false} ComebacksAreComebacks(qs: seq<Request>, t: byte)
    ensures forall i :: 0 <= i < |Comebacks(qs, t)| ==> Comebacks(qs, t)[i].ComebackReq?
    decreases |qs|
  {
    if qs != [] { ComebacksAreComebacks(qs[1..], t); }
  }

  /** Requests of other dialogs leave this one alone. */
  lemma {:induction false} OtherStep(st: Station, q: Request, t: byte, i: nat)
    requires StationOk(st) && Open(st, t, i) && q.token != t
    ensures Open(Step(st, q).0, t, i) && Step(st, q).0.slots[i] == st.slots[i]
  {
    hide FreeFrom;
    if q.InitialReq? {
      CreateTakesFreeSlot(st, q.token);
    } else if FindFrom(st.slots, q.token, 0).Some? {
      assert st.slots[FindFrom(st.slots, q.token, 0).value := ZERO][i].valid;
    }
  }

  /** Once the dialog is over, every further comeback request for its token is refused. */
  lemma {:induction false} ClosedRun(st: Station, qs: seq<Request>, t: byte)
    requires StationOk(st) && Closed(st, t) && NoInitial(qs, t)
    ensures forall i :: 0 <= i < |Comebacks(qs, t)| ==> Comebacks(qs, t)[i].ComebackReq?
    ensures Replies(st, qs, t) == Refusals(t, Comebacks(qs, t))
    ensures var rs, cs := Replies(st, qs, t), Comebacks(qs, t);
      |rs| == |cs| && forall i :: 0 <= i < |cs| ==>
        rs[i] == if cs[i].group then None else Some(ComebackResp(t, NoOutstandingGasReq, 0, false, []))
  {
    hide Queue, Served;
    ServedInSlotOrder(st, qs, t);
    QueueNone(st.slots, t);
    ServedNone(t, Comebacks(qs, t));
  }

  /** What one comeback request does to the open dialog. */
  lemma {:induction false} OpenComeback(st: Station, q: Request, t: byte, i: nat)
    requires StationOk(st) && Open(st, t, i) && q.ComebackReq? && q.token == t && q.limit > 0
    ensures var d := st.slots[i];
      var left := d.resp[d.pos..];
      var (st', r) := Step(st, q);
      if |left| > q.limit
      then Open(st', t, i) && st'.slots[i] == d.(fragId := (d.fragId + 1) % 256, pos := d.pos + q.limit)
           && r == Some(ComebackResp(t, Success, d.fragId, true, left[..q.limit]))
      else Closed(st', t) && r == Some(ComebackResp(t, Success, d.fragId, false, left))
           && (st'.slots == [] || st'.slots[i] == ZERO)
  {
  }

  lemma {:induction false} FragmentsUnfold(left: seq<byte>, id: nat, t: byte, qs: seq<Request>)
    requires forall i :: 0 <= i < |qs| ==> qs[i].ComebackReq?
    ensures Fragments(left, id, t, qs) ==
      if qs == [] then []
      else if |left| > qs[0].limit then
        [Some(ComebackResp(t, Success, id, true, left[..qs[0].limit]))] +
        Fragments(left[qs[0].limit..], (id + 1) % 256, t, qs[1..])
      else [Some(ComebackResp(t, Success, id, false, left))] + Refusals(t, qs[1..])
  {
  }

  /**
   * However other requests of the station interleave and however the fragment limit changes, the comeback
   * requests for an open dialog are answered by consecutive fragments of what is left of its response.
   */
  lemma {:induction false} OpenRun(st: Station, qs: seq<Request>, t: byte, i: nat)
    requires StationOk(st) && Open(st, t, i) && NoInitial(qs, t)
    ensures forall i :: 0 <= i < |Comebacks(qs, t)| ==> Comebacks(qs, t)[i].ComebackReq?
    ensures Replies(st, qs, t) ==
      Fragments(st.slots[i].resp[st.slots[i].pos..], st.slots[i].fragId, t, Comebacks(qs, t))
  {
    hide Queue, Served, Fragments;
    ServedInSlotOrder(st, qs, t);
    var d := st.slots[i];
    QueueAlone(st.slots, t, i);
    ServedOne(d.resp[d.pos..], d.fragId, t, Comebacks(qs, t));
  }

  /** One dialog alone is served fragment by fragment. */
  lemma {:induction false} ServedOne(left: seq<byte>, id: nat, t: byte, qs: seq<Request>)
    requires forall i :: 0 <= i < |qs| ==> qs[i].ComebackReq?
    ensures Served([Due(left, id)], t, qs) == Fragments(left, id, t, qs)
    decreases |qs|
  {
    hide Refusals, Served, Fragments;
    FragmentsUnfold(left, id, t, qs);
    ServedUnfold(Due(left, id), [], t, qs);
    if qs != [] {
      var l := qs[0].limit;
      if |left| > l {
        ServedOne(left[l..], (id + 1) % 256, t, qs[1..]);
        assert [Due(left[l..], (id + 1) % 256)] + [] == [Due(left[l..], (id + 1) % 256)];
      } else {
        ServedNone(t, qs[1..]);
      }
    }
    assert [Due(left, id)] + [] == [Due(left, id)];
  }

  lemma {:induction false} ServedUnfold(d: Due, rest: seq<Due>, t: byte, qs: seq<Request>)
    requires forall i :: 0 <= i < |qs| ==> qs[i].ComebackReq?
    ensures Served([d] + rest, t, qs) ==
      if qs == [] then []
      else if |d.left| > qs[0].limit then
        [Some(ComebackResp(t, Success, d.id, true, d.left[..qs[0].limit]))]
          + Served([Due(d.left[qs[0].limit..], (d.id + 1) % 256)] + rest, t, qs[1..])
      else [Some(ComebackResp(t, Success, d.id, false, d.left))] + Served(rest, t, qs[1..])
  {
    assert ([d] + rest)[1..] == rest;
  }

  /** Octets asked for by the first k requests. */
  function Asked(qs: seq<Request>, k: nat): nat
    requires k <= |qs|
  {
    if k == 0 then 0 else qs[0].limit + Asked(qs[1..], k - 1)
  }

  function Min(a: nat, b: nat): nat { if a < b then a else b }

  /**
   * Fragment k in closed form: numbered k modulo 256 from the first number, at most as long as its request's
   * limit, continuing where the last one stopped, with "more" set exactly while something remains.
   */
  function Fragment(left: seq<byte>, id: nat, t: byte, qs: seq<Request>, k: nat): (r: Option<Reply>)
    requires forall i :: 0 <= i < |qs| ==> qs[i].ComebackReq?
    requires k < |qs| && id < 256
    ensures r.Some? ==> r.value.ComebackResp? && |r.value.body| <= qs[k].limit
  {
    AskedGrows(qs, k);
    if k == 0 || Asked(qs, k) < |left| then
      Some(ComebackResp(t, Success, (id + k) % 256, Asked(qs, k + 1) < |left|,
                        left[Min(Asked(qs, k), |left|)..Min(Asked(qs, k + 1), |left|)]))
    else Refusals(t, qs)[k]
  }

  lemma {:induction false} FragmentShift(left: seq<byte>, id: nat, t: byte, qs: seq<Request>, k: nat)
    requires forall i :: 0 <= i < |qs| ==> qs[i].ComebackReq?
    requires 0 < k < |qs| && id < 256 && |left| > qs[0].limit
    ensures Fragment(left[qs[0].limit..], (id + 1) % 256, t, qs[1..], k - 1) == Fragment(left, id, t, qs, k)
  {
    hide Refusals, Asked;
    var l, tail := qs[0].limit, qs[1..];
    RefusalsShift(t, qs);
    AskedFirst(qs, k);
    AskedFirst(qs, k + 1);
    AskedFirst(tail, k - 1);
    AskedGrows(tail, k - 1);
    AddMod(id + 1, k - 1, 256);
    SliceShift(left, l, Min(Asked(tail, k - 1), |left| - l), Min(Asked(tail, k), |left| - l));
  }

  /** The k-th reply is the fragment in closed form. */
  lemma {:induction false} FragmentAt(left: seq<byte>, id: nat, t: byte, qs: seq<Request>, k: nat)
    requires forall i :: 0 <= i < |qs| ==> qs[i].ComebackReq?
    requires k < |qs| && id < 256
    ensures |Fragments(left, id, t, qs)| == |qs|
    ensures Fragments(left, id, t, qs)[k] == Fragment(left, id, t, qs, k)
    decreases |qs|
  {
    hide Fragments, Refusals, Asked;
    var l := qs[0].limit;
    AskedFirst(qs, 0);
    AskedFirst(qs, 1);
    FragmentsUnfold(left, id, t, qs);
    RefusalsShift(t, qs);
    if |left| > l {
      hide Fragment;
      FragmentsUnfold(left[l..], (id + 1) % 256, t, qs[1..]);
      if |qs| > 1 { FragmentAt(left[l..], (id + 1) % 256, t, qs[1..], if k > 0 then k - 1 else 0); }
      if k > 0 {
        FragmentShift(left, id, t, qs, k);
      } else {
        FirstFragment(left, id, t, qs);
      }
    } else {
      if k > 0 { AskedMore(qs, k); }
      assert left[0..|left|] == left;
    }
  }

  lemma {:induction false} FirstFragment(left: seq<byte>, id: nat, t: byte, qs: seq<Request>)
    requires forall i :: 0 <= i < |qs| ==> qs[i].ComebackReq?
    requires 0 < |qs| && id < 256 && |left| > qs[0].limit
    ensures Fragment(left, id, t, qs, 0) == Some(ComebackResp(t, Success, id, true, left[..qs[0].limit]))
  {
    AskedFirst(qs, 0);
    AskedFirst(qs, 1);
  }

  lemma {:induction false} AskedFirst(qs: seq<Request>, k: nat)
    requires k <= |qs|
    ensures Asked(qs, k) == if k == 0 then 0 else qs[0].limit + Asked(qs[1..], k - 1)
  {
  }

  lemma {:induction false} AskedMore(qs: seq<Request>, k: nat)
    requires 0 < k <= |qs|
    ensures Asked(qs, k) >= qs[0].limit
  {
  }

  lemma {:induction false} RefusalsShift(t: byte, qs: seq<Request>)
    requires qs != [] && forall i :: 0 <= i < |qs| ==> qs[i].ComebackReq?
    ensures |Refusals(t, qs)| == |qs| && |Refusals(t, qs[1..])| == |qs| - 1
    ensures forall k :: 1 <= k < |qs| ==> Refusals(t, qs)[k] == Refusals(t, qs[1..])[k - 1]
  {
  }

  lemma SliceShift(s: seq<byte>, l: nat, a: nat, b: nat)
    requires l <= |s| && a <= b <= |s| - l
    ensures s[l..][a..b] == s[l + a..l + b]
  {
  }

  lemma {:induction false} AskedGrows(qs: seq<Request>, k: nat)
    requires k < |qs|
    ensures Asked(qs, k) + qs[k].limit == Asked(qs, k + 1)
    decreases |qs|
  {
    if k > 0 { AskedGrows(qs[1..], k - 1); }
  }

  /** The octets delivered by a list of replies. */
  function Delivered(rs: seq<Option<Reply>>): seq<byte>
    decreases |rs|
  {
    if rs == [] then []
    else (if rs[0].Some? && rs[0].value.status == Success then rs[0].value.body else []) + Delivered(rs[1..])
  }

  predicate IsLast(r: Option<Reply>) {
    r.Some? && r.value.ComebackResp? && r.value.status == Success && !r.value.more
  }

  predicate Finished(rs: seq<Option<Reply>>) {
    exists k :: 0 <= k < |rs| && IsLast(rs[k])
  }

  lemma {:induction false} RefusalsDeliverNothing(t: byte, qs: seq<Request>)
    requires forall i :: 0 <= i < |qs| ==> qs[i].ComebackReq?
    ensures Delivered(Refusals(t, qs)) == [] && !Finished(Refusals(t, qs))
    decreases |qs|
  {
    if qs != [] {
      RefusalsDeliverNothing(t, qs[1..]);
      assert Refusals(t, qs)[1..] == Refusals(t, qs[1..]);
    }
  }

  lemma {:induction false} DeliveredFirst(r: Option<Reply>, rs: seq<Option<Reply>>)
    requires r.Some? && r.value.ComebackResp? && r.value.status == Success
    ensures Delivered([r] + rs) == r.value.body + Delivered(rs)
    ensures Finished([r] + rs) <==> !r.value.more || Finished(rs)
  {
    assert ([r] + rs)[1..] == rs;
    if Finished(rs) {
      var k :| 0 <= k < |rs| && IsLast(rs[k]);
      assert ([r] + rs)[k + 1] == rs[k];
    }
    if !r.value.more { assert ([r] + rs)[0] == r; }
  }

  lemma {:induction false} NothingDelivered(left: seq<byte>, id: nat, t: byte)
    ensures Delivered(Fragments(left, id, t, [])) == [] && !Finished(Fragments(left, id, t, []))
  {
  }

  /** The fragments put together are the response so far, and all of it exactly once enough has been asked for. */
  lemma {:induction false} FragmentsReassemble(left: seq<byte>, id: nat, t: byte, qs: seq<Request>)
    requires forall i :: 0 <= i < |qs| ==> qs[i].ComebackReq?
    ensures Delivered(Fragments(left, id, t, qs)) == left[..Min(Asked(qs, |qs|), |left|)]
    ensures Finished(Fragments(left, id, t, qs)) <==> qs != [] && Asked(qs, |qs|) >= |left|
    decreases |qs|
  {
    hide Refusals, Fragments, Delivered, Finished, Asked;
    AskedFirst(qs, |qs|);
    if qs != [] { AskedFirst(qs[1..], |qs| - 1); }
    if qs == [] {
      NothingDelivered(left, id, t);
      assert qs == [] && left[..0] == [];
    } else {
      var l, tail := qs[0].limit, qs[1..];
      FragmentsUnfold(left, id, t, qs);
      if |left| > l {
        var first := Some(ComebackResp(t, Success, id, true, left[..l]));
        var rest := Fragments(left[l..], (id + 1) % 256, t, tail);
        FragmentsReassemble(left[l..], (id + 1) % 256, t, tail);
        DeliveredFirst(first, rest);
        var n := Min(Asked(tail, |tail|), |left| - l);
        assert left[..l] + left[l..][..n] == left[..l + n];
      } else {
        RefusalsDeliverNothing(t, tail);
        DeliveredFirst(Some(ComebackResp(t, Success, id, false, left)), Refusals(t, tail));
      }
    }
  }

  /** From the initial request to the last fragment. */
  lemma {:induction false} DialogDelivers(st: Station, q: Request, qs: seq<Request>)
    requires StationOk(st) && q.InitialReq? && (|q.buf| > q.limit || q.delay != 0) && Closed(st, q.token)
    requires st.slots == [] || exists i :: 0 <= i < |st.slots| && !st.slots[i].valid
    requires NoInitial(qs, q.token)
    ensures var (st', r) := Step(st, q);
      && r == Some(InitialResp(q.token, Success, if q.delay != 0 then q.delay else 1, []))
      && StationOk(st')
      && (forall i :: 0 <= i < |Comebacks(qs, q.token)| ==> Comebacks(qs, q.token)[i].ComebackReq?)
      && Replies(st', qs, q.token) == Fragments(q.buf, 0, q.token, Comebacks(qs, q.token))
  {
    CreateTakesFreeSlot(st, q.token);
    StepKeepsOk(st, q);
    var st', i := Step(st, q).0, Create(st, q.token).1.value;
    assert Open(st', q.token, i);
    assert q.buf[0..] == q.buf;
    OpenRun(st', qs, q.token, i);
  }

  /** Every initial request's answer: the whole response if it fits, a failure if all eight slots are in use. */
  lemma {:induction false} InitialAnswer(st: Station, q: Request)
    requires StationOk(st) && q.InitialReq?
    ensures var (st', r) := Step(st, q);
      if |q.buf| <= q.limit && q.delay == 0 then
        st' == st && r == Some(InitialResp(q.token, Success, 0, q.buf))
      else if |st.slots| == 8 && forall i :: 0 <= i < 8 ==> st.slots[i].valid then
        st' == st && r == Some(InitialResp(q.token, UnspecifiedFailure, 0, []))
      else
        r == Some(InitialResp(q.token, Success, if q.delay == 0 then 1 else q.delay, []))
  {
    hide FreeFrom;
    CreateTakesFreeSlot(st, q.token);
  }

  /** How much of the response the initial reply and the comeback replies bring together. */
  function Brought(q: Request, cs: seq<Request>): nat
    requires q.InitialReq?
  {
    if |q.buf| <= q.limit && q.delay == 0 then |q.buf| else Min(Asked(cs, |cs|), |q.buf|)
  }

  /**
   * One law for every initial request under an unused token: unless it is answered with a failure, the initial body
   * and the comeback bodies put together are the response up to what has been asked for, whatever else comes between.
   */
  lemma {:induction false} DeliveryLaw(st: Station, q: Request, qs: seq<Request>)
    requires StationOk(st) && q.InitialReq? && Closed(st, q.token) && NoInitial(qs, q.token)
    ensures StationOk(Step(st, q).0)
    ensures var (st', r) := Step(st, q);
      && r.Some? && r.value.InitialResp? && r.value.status in {Success, UnspecifiedFailure}
      && (r.value.status == Success ==>
            r.value.body + Delivered(Replies(st', qs, q.token)) == q.buf[..Brought(q, Comebacks(qs, q.token))])
      && (r.value.status == UnspecifiedFailure ==> Delivered(Replies(st', qs, q.token)) == [])
  {
    hide Delivered, Replies, Asked, Fragments, Refusals, FreeFrom, Comebacks, Create;
    InitialAnswer(st, q);
    StepKeepsOk(st, q);
    var (st', r) := Step(st, q);
    var t, cs := q.token, Comebacks(qs, q.token);
    ComebacksAreComebacks(qs, t);
    if |q.buf| <= q.limit && q.delay == 0 {
      ClosedRun(st, qs, t);
      RefusalsDeliverNothing(t, cs);
      assert q.buf + [] == q.buf && q.buf[..|q.buf|] == q.buf;
    } else if |st.slots| == 8 && forall i :: 0 <= i < 8 ==> st.slots[i].valid {
      ClosedRun(st, qs, t);
      RefusalsDeliverNothing(t, cs);
    } else {
      DialogDelivers(st, q, qs);
      FragmentsReassemble(q.buf, 0, t, cs);
      assert [] + Delivered(Replies(st', qs, t)) == Delivered(Replies(st', qs, t));
    }
  }

  // ---- the octet that carries number and flag ----

  /** gas_build_resp: one octet for the fragment number and, in its top bit, the "more" flag. */
  function FragOctet(fragId: nat, more: bool): nat {
    BitOr(fragId, if more then 0x80 else 0)
  }

  /** What a reader of the octet takes for the number and for the flag. */
  function NumberRead(octet: nat): nat {
    octet % 128
  }

  predicate MoreRead(octet: nat) {
    octet / 128 % 2 == 1
  }

  /** The number survives modulo 128; the flag is read as set from number 128 on, whatever it was. */
  lemma {:induction false} OctetRead(fragId: nat, more: bool)
    requires fragId < 256
    ensures FragOctet(fragId, more) < 256
    ensures NumberRead(FragOctet(fragId, more)) == fragId % 128
    ensures MoreRead(FragOctet(fragId, more)) <==> more || fragId >= 128
  {
    hide BitOr;
    OrWithZero(fragId);
    assert Pow2(7) == 128 && Pow2(8) == 256;
    OrTop(fragId, 7);
  }

  /** The response is answered by the first n of these requests and by no fewer. */
  predicate Completes(left: seq<byte>, qs: seq<Request>, n: nat) {
    0 < n <= |qs| && Asked(qs, n) >= |left| && (n == 1 || Asked(qs, n - 1) < |left|)
  }

  lemma {:induction false} AskedMono(qs: seq<Request>, j: nat, k: nat)
    requires j <= k <= |qs|
    ensures Asked(qs, j) <= Asked(qs, k)
    decreases k
  {
    hide Asked;
    if j < k {
      AskedMono(qs, j, k - 1);
      AskedGrows(qs, k - 1);
    }
  }

  /** The octet of the k-th reply. */
  function OctetAt(rs: seq<Option<Reply>>, k: nat): nat
    requires k < |rs| && rs[k].Some? && rs[k].value.ComebackResp?
  {
    FragOctet(rs[k].value.fragId, rs[k].value.more)
  }

  /** Number and flag of each fragment of an n-fragment response. */
  lemma {:induction false} FragmentOf(left: seq<byte>, t: byte, qs: seq<Request>, n: nat, k: nat)
    requires forall i :: 0 <= i < |qs| ==> qs[i].ComebackReq?
    requires Completes(left, qs, n) && k < n
    ensures var rs := Fragments(left, 0, t, qs);
      && |rs| == |qs| && rs[k].Some? && rs[k].value.ComebackResp?
      && rs[k].value.fragId == k % 256 && (rs[k].value.more <==> k < n - 1)
  {
    hide Fragments, Asked, Refusals;
    FragmentAt(left, 0, t, qs, k);
    if k > 0 { AskedMono(qs, k, n - 1); }
    if k < n - 1 { AskedMono(qs, k + 1, n - 1); }
  }

  /**
   * What a reader makes of the fragments of an n-fragment response: the numbers are right modulo 128, and every flag
   * is right if and only if the last fragment's number has its top bit clear.
   */
  lemma {:induction false} FlagsReadRight(left: seq<byte>, t: byte, qs: seq<Request>, n: nat)
    requires forall i :: 0 <= i < |qs| ==> qs[i].ComebackReq?
    requires Completes(left, qs, n)
    ensures var rs := Fragments(left, 0, t, qs);
      && |rs| == |qs| && (forall k :: 0 <= k < n ==> rs[k].Some? && rs[k].value.ComebackResp?)
      && (forall k :: 0 <= k < n ==> NumberRead(OctetAt(rs, k)) == k % 128)
      && ((forall k :: 0 <= k < n ==> (MoreRead(OctetAt(rs, k)) <==> rs[k].value.more)) <==> (n - 1) % 256 < 128)
  {
    hide Fragments, Completes, FragOctet, NumberRead, MoreRead;
    assert 0 < n <= |qs| by { CompletesBound(left, qs, n); }
    var rs := Fragments(left, 0, t, qs);
    FragmentOf(left, t, qs, n, n - 1);
    forall k: nat | k < n
      ensures rs[k].Some? && rs[k].value.ComebackResp? && NumberRead(OctetAt(rs, k)) == k % 128
      ensures (MoreRead(OctetAt(rs, k)) <==> rs[k].value.more) <==> k < n - 1 || k % 256 < 128
    {
      FragmentOf(left, t, qs, n, k);
      OctetRead(k % 256, k < n - 1);
      LowSeven(k);
    }
    if (n - 1) % 256 >= 128 {
      var k := n - 1;
      assert !(MoreRead(OctetAt(rs, k)) <==> rs[k].value.more);
    }
  }

  lemma {:induction false} CompletesBound(left: seq<byte>, qs: seq<Request>, n: nat)
    requires Completes(left, qs, n)
    ensures 0 < n <= |qs|
  {
  }

  lemma LowSeven(k: nat)
    ensures k % 256 % 128 == k % 128
  {
  }

  /** n comeback requests at a limit of one octet. */
  function OneByOne(t: byte, n: nat): (qs: seq<Request>)
    ensures |qs| == n && forall i :: 0 <= i < n ==> qs[i] == ComebackReq(t, 1, false)
  {
    seq(n, _ => ComebackReq(t, 1, false))
  }

  lemma {:induction false} OneByOneAsked(t: byte, n: nat, k: nat)
    requires k <= n
    ensures Asked(OneByOne(t, n), k) == k
    decreases k
  {
    if k > 0 {
      assert OneByOne(t, n)[1..] == OneByOne(t, n - 1);
      OneByOneAsked(t, n - 1, k - 1);
    }
  }

  /** A response of 129 octets sent one by one: the last fragment goes out as number 0 with more to come. */
  lemma {:induction false} LongResponseMisread(resp: seq<byte>, t: byte)
    requires |resp| == 129
    ensures var rs := Fragments(resp, 0, t, OneByOne(t, 129));
      && |rs| == 129 && rs[128].Some? && rs[128].value.ComebackResp? && !rs[128].value.more
      && NumberRead(OctetAt(rs, 128)) == 0 && MoreRead(OctetAt(rs, 128))
  {
    hide Fragments, FragOctet, Asked, OneByOne;
    var qs := OneByOne(t, 129);
    OneByOneAsked(t, 129, 128);
    OneByOneAsked(t, 129, 129);
    FragmentOf(resp, t, qs, 129, 128);
    OctetRead(128, false);
  }

  // ---- tokens used twice ----

  /** What a dialog still has to send, and the number of its next fragment. */
  datatype Due = Due(left: seq<byte>, id: nat)

  function Part(d: Dialog, t: byte): seq<Due> {
    if d.valid && d.token == t && d.pos <= |d.resp| then [Due(d.resp[d.pos..], d.fragId)] else []
  }

  /** The dialogs of the token in slot order. */
  function Queue(slots: seq<Dialog>, t: byte): seq<Due>
    decreases |slots|
  {
    if slots == [] then [] else Part(slots[0], t) + Queue(slots[1..], t)
  }

  /** The dialogs served one after the other, each to its end, then refusals. */
  function Served(queue: seq<Due>, t: byte, qs: seq<Request>): seq<Option<Reply>>
    requires forall i :: 0 <= i < |qs| ==> qs[i].ComebackReq?
    decreases |qs|
  {
    if qs == [] then []
    else if queue == [] then Refusals(t, qs)
    else
      var d, l := queue[0], qs[0].limit;
      if |d.left| > l then
        [Some(ComebackResp(t, Success, d.id, true, d.left[..l]))]
          + Served([Due(d.left[l..], (d.id + 1) % 256)] + queue[1..], t, qs[1..])
      else
        [Some(ComebackResp(t, Success, d.id, false, d.left))] + Served(queue[1..], t, qs[1..])
  }

  lemma {:induction false} QueueConcat(a: seq<Dialog>, b: seq<Dialog>, t: byte)
    ensures Queue(a + b, t) == Queue(a, t) + Queue(b, t)
    decreases |a|
  {
    hide Part;
    if a == [] {
      assert a + b == b;
    } else {
      QueueConcat(a[1..], b, t);
      assert (a + b)[1..] == a[1..] + b && (a + b)[0] == a[0];
      var p, x, y := Part(a[0], t), Queue(a[1..], t), Queue(b, t);
      assert p + (x + y) == (p + x) + y;
    }
  }

  /** The queue around slot i. */
  lemma {:induction false} QueueAround(slots: seq<Dialog>, t: byte, i: nat, d: Dialog)
    requires i < |slots|
    ensures Queue(slots[i := d], t) == Queue(slots[..i], t) + Part(d, t) + Queue(slots[i + 1..], t)
  {
    hide Part;
    var one := [d];
    assert slots[i := d] == slots[..i] + (one + slots[i + 1..]);
    QueueConcat(slots[..i], one + slots[i + 1..], t);
    QueueConcat(one, slots[i + 1..], t);
    assert one[1..] == [] && Queue([], t) == [];
    assert Queue(one, t) == Part(d, t) + [];
    var x, p, y := Queue(slots[..i], t), Part(d, t), Queue(slots[i + 1..], t);
    assert x + (p + y) == x + p + y;
  }

  lemma {:induction false} QueueNone(slots: seq<Dialog>, t: byte)
    requires forall k :: 0 <= k < |slots| ==> !(slots[k].valid && slots[k].token == t)
    ensures Queue(slots, t) == []
    decreases |slots|
  {
    if slots != [] { QueueNone(slots[1..], t); }
  }

  /** The only dialog of a token is the whole queue. */
  lemma {:induction false} QueueAlone(slots: seq<Dialog>, t: byte, i: nat)
    requires i < |slots|
    requires forall k :: 0 <= k < |slots| && k != i ==> !(slots[k].valid && slots[k].token == t)
    ensures Queue(slots, t) == Part(slots[i], t)
  {
    hide Queue, Part;
    var a, b, p := slots[..i], slots[i + 1..], Part(slots[i], t);
    QueueNone(a, t);
    assert forall k :: 0 <= k < |b| ==> b[k] == slots[i + 1 + k];
    QueueNone(b, t);
    QueueAround(slots, t, i, slots[i]);
    assert slots[i := slots[i]] == slots && [] + p + [] == p;
  }

  lemma {:induction false} QueueSame(slots: seq<Dialog>, t: byte, i: nat, d: Dialog)
    requires i < |slots| && Part(slots[i], t) == Part(d, t)
    ensures Queue(slots[i := d], t) == Queue(slots, t)
  {
    hide Part;
    QueueAround(slots, t, i, d);
    QueueAround(slots, t, i, slots[i]);
    assert slots[i := slots[i]] == slots;
  }

  lemma {:induction false} QueueOfZeros(n: nat, t: byte)
    ensures Queue(seq(n, _ => ZERO), t) == []
  {
    QueueNone(seq(n, _ => ZERO), t);
  }

  /** Zeroing slot i, and dropping the array with the last dialog, takes its part out of the queue. */
  lemma {:induction false} QueueRelease(st: Station, i: nat, t: byte)
    requires i < |st.slots|
    ensures Queue(Release(st, i).slots, t) == Queue(st.slots[..i], t) + Queue(st.slots[i + 1..], t)
  {
    var slots := st.slots[i := ZERO];
    QueueAround(st.slots, t, i, ZERO);
    hide Queue;
    assert Queue(st.slots[..i], t) + [] == Queue(st.slots[..i], t);
    if Release(st, i).slots == [] {
      QueueNone(slots, t);
      QueueNone([], t);
    }
  }

  /** Requests under other tokens leave the queue alone. */
  lemma {:induction false} OtherKeepsQueue(st: Station, q: Request, t: byte)
    requires StationOk(st) && q.token != t
    ensures Queue(Step(st, q).0.slots, t) == Queue(st.slots, t)
  {
    hide FreeFrom, Queue, FindFrom;
    if q.InitialReq? {
      CreateTakesFreeSlot(st, q.token);
      SlotsQueue(st, t);
      var r := Create(st, q.token).1;
      if (|q.buf| > q.limit || q.delay != 0) && r.Some? {
        var d := ZERO.(valid := true, token := q.token, prot := q.prot, resp := q.buf);
        assert Step(st, q).0.slots == Slots(st)[r.value := d];
        QueueSame(Slots(st), t, r.value, d);
      }
    } else if FindFrom(st.slots, q.token, 0).Some? {
      var i := FindFrom(st.slots, q.token, 0).value;
      var d := st.slots[i];
      if |d.resp| - d.pos > q.limit {
        QueueSame(st.slots, t, i, d.(fragId := (d.fragId + 1) % 256, pos := d.pos + q.limit));
      } else {
        QueueRelease(st, i, t);
        QueueAround(st.slots, t, i, d);
        assert st.slots[i := d] == st.slots;
      }
    }
  }

  lemma {:induction false} SlotsQueue(st: Station, t: byte)
    ensures Queue(Slots(st), t) == Queue(st.slots, t)
  {
    if st.slots == [] { QueueOfZeros(DIALOG_MAX, t); }
  }

  /** A comeback is served from the front of the queue. */
  lemma {:induction false} ComebackServesFront(st: Station, q: Request, t: byte)
    requires StationOk(st) && q.ComebackReq? && q.token == t
    ensures var queue, (st', r) := Queue(st.slots, t), Step(st, q);
      if queue == [] then st' == st && [r] == Refusals(t, [q])
      else
        var d := queue[0];
        if |d.left| > q.limit
        then r == Some(ComebackResp(t, Success, d.id, true, d.left[..q.limit]))
          && Queue(st'.slots, t) == [Due(d.left[q.limit..], (d.id + 1) % 256)] + queue[1..]
        else r == Some(ComebackResp(t, Success, d.id, false, d.left)) && Queue(st'.slots, t) == queue[1..]
  {
    hide FreeFrom, Queue, FindFrom, Release;
    var f := FindFrom(st.slots, t, 0);
    if f.None? {
      QueueNone(st.slots, t);
    } else {
      var i := f.value;
      var d, rest := st.slots[i], Queue(st.slots[i + 1..], t);
      QueueNone(st.slots[..i], t);
      QueueAround(st.slots, t, i, d);
      assert st.slots[i := d] == st.slots;
      var due := [Due(d.resp[d.pos..], d.fragId)];
      assert Queue(st.slots, t) == [] + due + rest == due + rest;
      assert (due + rest)[1..] == rest && (due + rest)[0] == due[0];
      if |d.resp| - d.pos > q.limit {
        var d' := d.(fragId := (d.fragId + 1) % 256, pos := d.pos + q.limit);
        QueueAround(st.slots, t, i, d');
        assert d.resp[d.pos..][q.limit..] == d'.resp[d'.pos..];
        assert Queue(st.slots[i := d'], t) == [] + Part(d', t) + rest == Part(d', t) + rest;
      } else {
        QueueRelease(st, i, t);
        assert [] + rest == rest;
      }
    }
  }

  /**
   * Over any run that opens no further dialog under the token, however many are open: comebacks are served from the
   * lowest slot first, each dialog to its end.
   */
  lemma {:induction false} ServedInSlotOrder(st: Station, qs: seq<Request>, t: byte)
    requires StationOk(st) && NoInitial(qs, t)
    ensures forall i :: 0 <= i < |Comebacks(qs, t)| ==> Comebacks(qs, t)[i].ComebackReq?
    ensures Replies(st, qs, t) == Served(Queue(st.slots, t), t, Comebacks(qs, t))
    decreases |qs|
  {
    hide Step, Queue, Refusals, StationOk;
    ComebacksAreComebacks(qs, t);
    if qs != [] {
      var q, st' := qs[0], Step(st, qs[0]).0;
      StepKeepsOk(st, q);
      ComebacksAreComebacks(qs[1..], t);
      ServedInSlotOrder(st', qs[1..], t);
      if q.token != t {
        OtherKeepsQueue(st, q, t);
        assert Comebacks(qs, t) == Comebacks(qs[1..], t);
        assert Replies(st, qs, t) == Replies(st', qs[1..], t);
      } else {
        ComebackServesFront(st, q, t);
        assert Comebacks(qs, t)[0] == q && Comebacks(qs, t)[1..] == Comebacks(qs[1..], t);
        if Queue(st.slots, t) == [] { RefusalsFirst(t, Comebacks(qs, t)); ServedNone(t, Comebacks(qs[1..], t)); }
      }
    }
  }

  lemma {:induction false} ServedNone(t: byte, qs: seq<Request>)
    requires forall i :: 0 <= i < |qs| ==> qs[i].ComebackReq?
    ensures Served([], t, qs) == Refusals(t, qs)
  {
  }

  lemma {:induction false} RefusalsFirst(t: byte, qs: seq<Request>)
    requires qs != [] && forall i :: 0 <= i < |qs| ==> qs[i].ComebackReq?
    ensures Refusals(t, qs) == Refusals(t, [qs[0]]) + Refusals(t, qs[1..])
  {
  }

  /** A dialog under a token in use takes the place of its slot: in a lower slot it is served before the older ones. */
  lemma {:induction false} NewDialogPlace(st: Station, q: Request)
    requires StationOk(st) && q.InitialReq? && (|q.buf| > q.limit || q.delay != 0) && Create(st, q.token).1.Some?
    ensures var i := Create(st, q.token).1.value;
      i < DIALOG_MAX
      && Queue(Step(st, q).0.slots, q.token)
        == Queue(Slots(st)[..i], q.token) + [Due(q.buf, 0)] + Queue(Slots(st)[i + 1..], q.token)
  {
    hide FreeFrom, Queue;
    CreateTakesFreeSlot(st, q.token);
    var i := Create(st, q.token).1.value;
    var d := ZERO.(valid := true, token := q.token, prot := q.prot, resp := q.buf);
    assert Step(st, q).0.slots == Slots(st)[i := d];
    QueueAround(Slots(st), q.token, i, d);
    assert q.buf[0..] == q.buf;
  }

  /** An open dialog interrupted: a second one in a lower slot is sent in full before the first goes on. */
  lemma {:induction false} LowerSlotInterrupts(st: Station, q: Request, qs: seq<Request>, i: nat)
    requires StationOk(st) && Open(st, q.token, i) && q.InitialReq? && (|q.buf| > q.limit || q.delay != 0)
    requires Create(st, q.token).1.Some? && Create(st, q.token).1.value < i && NoInitial(qs, q.token)
    ensures StationOk(Step(st, q).0)
    ensures forall i :: 0 <= i < |Comebacks(qs, q.token)| ==> Comebacks(qs, q.token)[i].ComebackReq?
    ensures var d := st.slots[i];
      Replies(Step(st, q).0, qs, q.token)
      == Served([Due(q.buf, 0), Due(d.resp[d.pos..], d.fragId)], q.token, Comebacks(qs, q.token))
  {
    hide FreeFrom, Queue, Served, Step, Create;
    StepKeepsOk(st, q);
    NewDialogPlace(st, q);
    ServedInSlotOrder(Step(st, q).0, qs, q.token);
    var t, j, d := q.token, Create(st, q.token).1.value, st.slots[i];
    var rest := st.slots[j + 1..];
    QueueNone(st.slots[..j], t);
    assert forall k :: 0 <= k < |rest| ==> rest[k] == st.slots[j + 1 + k];
    QueueAlone(rest, t, i - j - 1);
    var first := Due(d.resp[d.pos..], d.fragId);
    assert rest[i - j - 1] == d && Part(d, t) == [first];
    assert Queue(Step(st, q).0.slots, t) == [] + [Due(q.buf, 0)] + [first] == [Due(q.buf, 0), first];
  }
}
