/** The per-station GAS dialog slots of gas_serv.c, updated in place. */
module Gas {
  import opened Options
  import opened Bits
  import opened GasSpec

  class GasStation {
    var dialogs: seq<Dialog>  // [] while not allocated
    var next: nat

    ghost predicate Valid()
      reads this
    {
      StationOk(Abs())
    }

    function Abs(): Station
      reads this
    {
      Station(dialogs, next)
    }

    constructor ()
      ensures Valid() && Abs() == Station([], 0)
    {
      dialogs, next := [], 0;
    }

    /** gas_dialog_create */
    method Create(token: byte) returns (dia: Option<nat>)
      requires Valid()
      modifies this
      ensures (Abs(), dia) == GasSpec.Create(old(Abs()), token)
      ensures |dialogs| == DIALOG_MAX
    {
      hide SlotAt, FreeFrom;
      if dialogs == [] {
        dialogs := seq(DIALOG_MAX, _ => ZERO);
      }
      var i := next;
      for j := 0 to DIALOG_MAX
        invariant i == if next + j <= DIALOG_MAX then next + j else next + j - DIALOG_MAX
        invariant next == old(next) && dialogs == Slots(old(Abs()))
        invariant FreeFrom(dialogs, next, 0) == FreeFrom(dialogs, next, j)
      {
        SlotAtIs(next, j);
        FreeStep(dialogs, next, j);
        if i == DIALOG_MAX {
          i := 0;
        }
        if !dialogs[i].valid {
          dialogs := dialogs[i := dialogs[i].(valid := true, token := token)];
          next := if i + 1 == DIALOG_MAX then 0 else i + 1;
          SlotAtIs(i, 1);
          NextSlot(i);
          return Some(i);
        }
        i := i + 1;
      }
      FreeStep(dialogs, next, DIALOG_MAX);
      return None;
    }

    /** gas_serv_dialog_find */
    method Find(token: byte) returns (dia: Option<nat>)
      ensures dia == FindFrom(dialogs, token, 0)
    {
      for i := 0 to |dialogs|
        invariant FindFrom(dialogs, token, 0) == FindFrom(dialogs, token, i)
      {
        if dialogs[i].token != token || !dialogs[i].valid {
          continue;
        }
        return Some(i);
      }
      return None;
    }

    /** gas_serv_free_dialogs */
    method FreeDialogs()
      modifies this`dialogs
      ensures dialogs == if forall k :: 0 <= k < |old(dialogs)| ==> !old(dialogs)[k].valid then [] else old(dialogs)
    {
      for i := 0 to |dialogs|
        invariant dialogs == old(dialogs) && forall k :: 0 <= k < i ==> !dialogs[k].valid
      {
        if dialogs[i].valid {
          return;
        }
      }
      dialogs := [];
    }

    /** gas_serv_req_local_processing, for a response buf built for the request. */
    method LocalProcessing(q: Request) returns (r: Option<Reply>)
      requires Valid() && q.InitialReq?
      modifies this
      ensures Valid() && (Abs(), r) == Step(old(Abs()), q)
      ensures |q.buf| <= q.limit && q.delay == 0 ==>
        Abs() == old(Abs()) && r == Some(InitialResp(q.token, Success, 0, q.buf))
    {
      StepKeepsOk(Abs(), q);
      InitialAnswer(Abs(), q);
      if |q.buf| > q.limit || q.delay != 0 {
        var comebackDelay := 1;
        if q.delay != 0 {
          comebackDelay := q.delay;
        }
        var di := Create(q.token);
        if di.None? {
          r := Some(InitialResp(q.token, UnspecifiedFailure, 0, []));
        } else {
          dialogs := dialogs[di.value := dialogs[di.value].(prot := q.prot, resp := q.buf, pos := 0)];
          r := Some(InitialResp(q.token, Success, comebackDelay, []));
        }
      } else {
        r := Some(InitialResp(q.token, Success, 0, q.buf));
      }
    }

    /** gas_serv_rx_gas_comeback_req */
    method RxComebackReq(q: Request) returns (r: Option<Reply>)
      requires Valid() && q.ComebackReq?
      modifies this
      ensures Valid() && (Abs(), r) == Step(old(Abs()), q)
    {
      StepKeepsOk(Abs(), q);
      var dialog := Find(q.token);
      if dialog.None? {
        if q.group {
          return None;
        }
        return Some(ComebackResp(q.token, NoOutstandingGasReq, 0, false, []));
      }
      var d := dialogs[dialog.value];
      var fragLen, more := |d.resp| - d.pos, false;
      if fragLen > q.limit {
        fragLen := q.limit;
        more := true;
      }
      r := Some(ComebackResp(q.token, Success, d.fragId, more, d.resp[d.pos..d.pos + fragLen]));
      assert d.resp[d.pos..d.pos + fragLen] == if more then d.resp[d.pos..][..fragLen] else d.resp[d.pos..];
      dialogs := dialogs[dialog.value := d.(fragId := (d.fragId + 1) % 256, pos := d.pos + fragLen)];
      if !more {
        dialogs := dialogs[dialog.value := ZERO];
        assert dialogs == old(dialogs)[dialog.value := ZERO];
        FreeDialogs();
      }
    }
  }
}
