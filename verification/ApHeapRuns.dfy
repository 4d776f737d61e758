/** Whole runs of beacons and timer calls on the linked structure itself. */
module ApHeapRuns {
  import opened MacAddress
  import opened ApSpec
  import opened ApRuns
  import ApTable

  /** From an empty table, the events one after the other: the structure stays valid and holds what the run leaves. */
  method RunOnHeap(conf: Conf, es: seq<Event>) returns (iface: ApTable.Iface)
    ensures fresh(iface) && iface.Valid() && iface.conf == conf && iface.Abs() == Run(conf, es)
    ensures ClockOk(es) ==> Inv(conf, iface.Abs(), Clock(es))
  {
    hide Step, Inv, ClockOk;
    iface := new ApTable.Iface(conf);
    for i := 0 to |es|
      invariant fresh(iface) && fresh(iface.apHash) && fresh(iface.Repr)
      invariant iface.Valid() && iface.conf == conf && iface.Abs() == Run(conf, es[..i])
    {
      RunStep(conf, es, i);
      ApplyEvent(iface, es[i]);
    }
    assert es[..|es|] == es;
    if ClockOk(es) { RunInv(conf, es); }
  }

  /** One event, as the beacon handler or the timer sees it. */
  method ApplyEvent(iface: ApTable.Iface, e: Event)
    requires iface.Valid()
    modifies iface, iface.apHash, iface.Repr
    ensures iface.Valid() && fresh(iface.Repr - old(iface.Repr)) && iface.Abs() == Step(iface.conf, old(iface.Abs()), e)
  {
    hide iface.Valid, iface.Abs;
    match e {
      case Heard(b, now) => var _ := iface.ProcessBeacon(b, now);
      case Tick(now) => var _ := iface.Timer(now);
    }
  }

  lemma {:induction false} RunStep(conf: Conf, es: seq<Event>, i: nat)
    requires i < |es|
    ensures Run(conf, es[..i + 1]) == Step(conf, Run(conf, es[..i]), es[i])
  {
    assert Init(es[..i + 1]) == es[..i] && Last(es[..i + 1]) == es[i];
  }

  /**
   * The hash chains answer for the history: after any run ap_get_ap finds an entry if and only if the address was
   * heard, fewer than maxSize others were heard since and no timer call since found it expired.
   */
  method LookUpAfterRun(conf: Conf, es: seq<Event>, addr: Mac) returns (s: ApTable.ApInfo?)
    requires ClockOk(es)
    ensures s != null <==>
      addr in Recency(es) && |OthersSince(es, addr)| < conf.maxSize && !ExpiredSince(conf, es, addr)
    ensures s != null ==> s.addr == addr && s.lastBeacon == LastHeard(es, addr)
  {
    hide Inv, Run, LastHeard, Recency, OthersSince, ExpiredSince;
    var iface := RunOnHeap(conf, es);
    s := iface.Get(addr);
    iface.LookupAgrees(addr, s);
    TableByHistory(conf, es, addr);
    TableIsRecencyPrefix(conf, es);
    var k := Find(iface.Aps, addr);
    if s != null {
      assert iface.Aps[k] in Run(conf, es).aps;
      assert iface.Nodes[k].View() == iface.Aps[k];
    }
  }
}
