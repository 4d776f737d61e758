/**
 * The AP table of ap_list.c on the heap: a doubly linked list whose head's prev is the tail,
 * overlaid with 256 singly linked hash chains.
 */
module ApTable {
  import opened Bits
  import opened MacAddress
  import opened ApSpec

  class ApInfo {
    var next: ApInfo?
    var prev: ApInfo?
    var hnext: ApInfo?
    const addr: Mac
    var rates: seq<byte>
    var erp: int
    var channel: int
    var ht: bool
    var lastBeacon: int

    constructor (addr: Mac)
      ensures this.addr == addr && View() == Zeroed(addr)
    {
      this.addr := addr;
      next, prev, hnext := null, null, null;
      rates, erp, channel, ht, lastBeacon := [], 0, 0, false, 0;
    }

    ghost function View(): Ap
      reads this`rates, this`erp, this`channel, this`ht, this`lastBeacon
    {
      Ap(addr, rates, erp, channel, ht, lastBeacon)
    }

    /** The part of ap_list_process_beacon that copies the frame's elements into the entry. */
    method Fill(b: Beacon, now: int)
      requires addr == b.bssid
      modifies this`rates, this`erp, this`channel, this`ht, this`lastBeacon
      ensures View() == Refresh(old(channel), b, now)
    {
      rates := MergedRates(b);
      erp := if b.erpInfo.Some? then b.erpInfo.value else -1;
      if b.dsChannel.Some? {
        channel := b.dsChannel.value;
      } else if b.htOperChannel.Some? {
        channel := b.htOperChannel.value;
      } else if b.frameChannel.Some? {
        channel := b.frameChannel.value;
      }
      ht := b.htCapab;
      lastBeacon := now;
    }
  }

  /** STA_HASH: the last octet of the address. */
  function Hash(a: Mac): byte { a[5] }

  predicate Distinct<T(==)>(s: seq<T>) {
    forall i, j :: 0 <= i < j < |s| ==> s[i] != s[j]
  }

  /** Element i, or null past the end. */
  function At(s: seq<ApInfo>, i: nat): ApInfo? {
    if i < |s| then s[i] else null
  }

  /** The node before i on the list; the tail for the head. */
  function Before(s: seq<ApInfo>, i: nat): ApInfo
    requires i < |s|
  {
    if i == 0 then s[|s| - 1] else s[i - 1]
  }

  /** The nodes of ns are exactly S, have pairwise distinct addresses and show the entries aps. */
  ghost predicate Shows(ns: seq<ApInfo>, S: set<ApInfo>, aps: seq<Ap>)
    reads S`rates, S`erp, S`channel, S`ht, S`lastBeacon
  {
    && |ns| == |aps|
    && (forall i :: 0 <= i < |ns| ==> ns[i] in S)
    && (forall n {:trigger n in ns} :: n in S ==> n in ns)
    && (forall i, j :: 0 <= i < j < |ns| ==> ns[i].addr != ns[j].addr)
    && (forall i {:trigger ns[i].View()} :: 0 <= i < |ns| ==> ns[i].View() == aps[i])
  }

  /**
   * One hash chain: the nodes of S whose address hashes to h, each exactly once,
   * linked by hnext from head.
   */
  ghost predicate ChainOk(head: ApInfo?, c: seq<ApInfo>, h: int, S: set<ApInfo>)
    reads S`hnext
  {
    && (forall i :: 0 <= i < |c| ==> c[i] in S && Hash(c[i].addr) == h)
    && (forall n {:trigger n in c} :: n in S && Hash(n.addr) == h ==> n in c)
    && Distinct(c)
    && head == At(c, 0)
    && (forall i {:trigger c[i].hnext} :: 0 <= i < |c| ==> c[i].hnext == At(c, i + 1))
  }

  lemma {:induction false} InRemoveAt<T>(s: seq<T>, m: nat, x: T)
    requires m < |s| && x in s && x != s[m]
    ensures x in RemoveAt(s, m)
  {
    var i :| 0 <= i < |s| && s[i] == x;
    assert RemoveAt(s, m)[if i < m then i else i - 1] == x;
  }

  /** Bypassing entry m leaves a chain of the remaining nodes. */
  lemma {:induction false} ChainWithout(head: ApInfo?, c: seq<ApInfo>, m: nat, h: int, S: set<ApInfo>)
    requires m < |c| && Distinct(c)
    requires forall i :: 0 <= i < |c| ==> c[i] in S && Hash(c[i].addr) == h
    requires forall n {:trigger n in c} :: n in S && Hash(n.addr) == h ==> n in c
    requires if m == 0 then head == At(c, 1) else head == c[0] && c[m - 1].hnext == At(c, m + 1)
    requires forall i {:trigger c[i].hnext} ::
      0 <= i < |c| && i != m && i != m - 1 ==> c[i].hnext == At(c, i + 1)
    ensures ChainOk(head, RemoveAt(c, m), h, S - {c[m]})
  {
    var r := RemoveAt(c, m);
    RemovedAt(c, m);
    forall n | n in S - {c[m]} && Hash(n.addr) == h ensures n in r { InRemoveAt(c, m, n); }
    hide RemoveAt, Hash;
    forall i {:trigger r[i].hnext} | 0 <= i < |r|
      ensures r[i] in S - {c[m]} && Hash(r[i].addr) == h && r[i].hnext == At(r, i + 1)
    {
      assert r[i] == c[Skip(i, m)];
    }
    assert Distinct(r);
  }

  function Skip(i: int, m: nat): int {
    if i < m then i else i + 1
  }

  lemma {:induction false} StillDistinct(c: seq<ApInfo>, r: seq<ApInfo>, m: nat)
    requires m < |c| && Distinct(c) && |r| == |c| - 1 && forall i :: 0 <= i < |r| ==> r[i] == c[Skip(i, m)]
    ensures Distinct(r) && forall i :: 0 <= i < |r| ==> r[i] != c[m]
  {
  }

  lemma {:induction false} RemovedAt(c: seq<ApInfo>, m: nat)
    requires m < |c|
    ensures var r := RemoveAt(c, m);
      |r| == |c| - 1 && forall i :: 0 <= i < |r| ==> r[i] == c[Skip(i, m)]
  {
  }

  lemma {:induction false} ShowsWithout(ns: seq<ApInfo>, S: set<ApInfo>, aps: seq<Ap>, k: nat)
    requires Shows(ns, S, aps) && k < |ns|
    ensures Shows(RemoveAt(ns, k), S - {ns[k]}, RemoveAt(aps, k))
    ensures forall n :: n in S && n != ns[k] ==> n.addr != ns[k].addr
    ensures ns[k].View() == aps[k]
  {
    var r := RemoveAt(ns, k);
    forall n | n in S && n != ns[k] ensures n in r { InRemoveAt(ns, k, n); }
    forall i | 0 <= i < |r| ensures r[i].View() == RemoveAt(aps, k)[i] && r[i] in S && r[i].addr != ns[k].addr {
      assert r[i] == ns[if i < k then i else i + 1];
    }
  }

  lemma {:induction false} ShowsWithFront(ap: ApInfo, ns: seq<ApInfo>, S: set<ApInfo>, aps: seq<Ap>)
    requires Shows(ns, S, aps)
    requires forall n :: n in S ==> n.addr != ap.addr
    ensures Shows([ap] + ns, S + {ap}, [ap.View()] + aps)
  {
    forall i | 0 <= i < |ns| + 1 ensures ([ap] + ns)[i].View() == ([ap.View()] + aps)[i] {
      assert i > 0 ==> ([ap] + ns)[i] == ns[i - 1];
    }
  }

  /** The node before i when node k is passed over. */
  function Bypass(s: seq<ApInfo>, i: nat, k: nat): ApInfo
    requires i < |s| && k < |s| && i != k
  {
    var first, last := if k == 0 then 1 else 0, if k == |s| - 1 then |s| - 2 else |s| - 1;
    if i == first then s[last] else if i - 1 == k then s[k - 1] else s[i - 1]
  }

  /** What the remaining neighbours are called before and after the removal. */
  lemma {:induction false} NeighboursWithout(s: seq<ApInfo>, r: seq<ApInfo>, k: nat, i: nat)
    requires k < |s| && |r| == |s| - 1 && i < |r| && forall l :: 0 <= l < |r| ==> r[l] == s[Skip(l, k)]
    ensures At(r, i + 1) == At(s, if Skip(i, k) == k - 1 then k + 1 else Skip(i, k) + 1)
    ensures Before(r, i) == Bypass(s, Skip(i, k), k)
  {
    if i + 1 < |r| { assert r[i + 1] == s[Skip(i + 1, k)]; }
    if i > 0 { assert r[i - 1] == s[Skip(i - 1, k)]; }
    assert r[|r| - 1] == s[Skip(|r| - 1, k)];
  }

  lemma {:induction false} HeadWithout(s: seq<ApInfo>, r: seq<ApInfo>, k: nat)
    requires k < |s| && |r| == |s| - 1 && forall l :: 0 <= l < |r| ==> r[l] == s[Skip(l, k)]
    ensures At(r, 0) == if k == 0 then At(s, 1) else s[0]
  {
  }

  class Iface {
    const conf: Conf
    var apList: ApInfo?
    const apHash: array<ApInfo?>
    var numAp: int
    var olbc: bool
    var olbcHt: bool
    ghost var Repr: set<ApInfo>         // the nodes in use
    ghost var Nodes: seq<ApInfo>        // the list from head to tail
    ghost var Chains: seq<seq<ApInfo>>  // the hash chains
    ghost var Aps: seq<Ap>              // what the list's entries show

    ghost predicate ListOk(ns: seq<ApInfo>, S: set<ApInfo>)
      reads this`apList, S`next, S`prev
    {
      && (forall i :: 0 <= i < |ns| ==> ns[i] in S)
      && Distinct(ns)
      && apList == At(ns, 0)
      && (forall i {:trigger ns[i].next} :: 0 <= i < |ns| ==> ns[i].next == At(ns, i + 1))
      && (forall i {:trigger ns[i].prev} :: 0 <= i < |ns| ==> ns[i].prev == Before(ns, i))
    }

    ghost predicate HashOk(S: set<ApInfo>)
      reads this`Chains, apHash, S`hnext
    {
      && apHash.Length == 256 && |Chains| == 256
      && (forall h :: 0 <= h < 256 ==> ChainOk(apHash[h], Chains[h], h, S))
    }

    ghost predicate Valid()
      reads this, apHash, Repr
    {
      && ListOk(Nodes, Repr)
      && HashOk(Repr)
      && Shows(Nodes, Repr, Aps)
      && numAp == |Nodes| == |Aps|
    }

    ghost function Abs(): Table
      reads this
    {
      Table(Aps, olbc, olbcHt)
    }

    constructor (conf: Conf)
      ensures Valid() && this.conf == conf && Repr == {} && fresh(apHash)
      ensures Abs() == Table([], false, false)
    {
      this.conf := conf;
      apList := null;
      apHash := new ApInfo?[256](_ => null);
      numAp, olbc, olbcHt := 0, false, false;
      Repr, Nodes, Aps := {}, [], [];
      Chains := seq(256, _ => []);
    }

    /** ap_get_ap: walk one hash chain. */
    method Get(addr: Mac) returns (s: ApInfo?)
      requires Valid()
      ensures s != null ==> s in Repr && s.addr == addr
      ensures s == null ==> forall n :: n in Repr ==> n.addr != addr
    {
      s := apHash[Hash(addr)];
      ghost var c, i := Chains[Hash(addr)], 0;
      assert ChainOk(apHash[Hash(addr)], c, Hash(addr), Repr);
      while s != null && s.addr != addr
        invariant 0 <= i <= |c|
        invariant s == At(c, i)
        invariant forall j :: 0 <= j < i ==> c[j].addr != addr
        decreases |c| - i
      {
        s := s.hnext;
        i := i + 1;
      }
      assert s == null ==> forall n :: n in Repr && n.addr == addr ==> n in c;
    }

    /** ap_ap_list_add: put ap at the head; the old head's prev becomes ap. */
    method ListAdd(ap: ApInfo, ghost S: set<ApInfo>)
      requires ListOk(Nodes, S) && ap !in S
      modifies this`apList, this`Nodes, ap`next, ap`prev, S`prev
      ensures Nodes == [ap] + old(Nodes) && ListOk(Nodes, S + {ap})
      ensures ap.prev == Nodes[|Nodes| - 1]
    {
      if apList != null {
        ap.prev := apList.prev;
        apList.prev := ap;
      } else {
        ap.prev := ap;
      }
      ap.next := apList;
      apList := ap;
      Nodes := [ap] + Nodes;
    }

    /** ap_ap_list_del: unlink the k-th node. */
    method ListDel(ap: ApInfo, ghost k: nat, ghost S: set<ApInfo>)
      requires ListOk(Nodes, S) && k < |Nodes| && Nodes[k] == ap
      modifies this`apList, this`Nodes, S`next, S`prev
      ensures Nodes == RemoveAt(old(Nodes), k) && ListOk(Nodes, S - {ap})
    {
      ghost var ns := Nodes;
      assert ap.next == At(ns, k + 1) && ap.prev == Before(ns, k);
      if apList == ap {
        apList := ap.next;
      } else {
        ap.prev.next := ap.next;
      }
      if ap.next != null {
        ap.next.prev := ap.prev;
      } else if apList != null {
        apList.prev := ap.prev;
      }
      LinkedWithout(ns, k, S);
      Nodes := RemoveAt(ns, k);
    }

    /** With node k bypassed both ways, the remaining nodes are linked. */
    lemma {:induction false} LinkedWithout(ns: seq<ApInfo>, k: nat, S: set<ApInfo>)
      requires k < |ns| && Distinct(ns) && forall i :: 0 <= i < |ns| ==> ns[i] in S
      requires apList == if k == 0 then At(ns, 1) else ns[0]
      requires forall i {:trigger ns[i].next} :: 0 <= i < |ns| && i != k ==>
        ns[i].next == At(ns, if i == k - 1 then k + 1 else i + 1)
      requires forall i {:trigger ns[i].prev} :: 0 <= i < |ns| && i != k ==>
        ns[i].prev == Bypass(ns, i, k)
      ensures ListOk(RemoveAt(ns, k), S - {ns[k]})
    {
      var r := RemoveAt(ns, k);
      RemovedAt(ns, k);
      StillDistinct(ns, r, k);
      hide RemoveAt, Distinct, At, Before, Bypass;
      forall i {:trigger r[i].next} | 0 <= i < |r| ensures r[i].next == At(r, i + 1) && r[i].prev == Before(r, i) {
        assert r[i] == ns[Skip(i, k)];
        NeighboursWithout(ns, r, k, i);
      }
      HeadWithout(ns, r, k);
      assert apList == At(r, 0);
    }

    /** ap_ap_hash_add: push ap on the chain of its hash. */
    method HashAdd(ap: ApInfo, ghost S: set<ApInfo>)
      requires HashOk(S) && ap !in S
      modifies apHash, this`Chains, ap`hnext
      ensures HashOk(S + {ap})
    {
      var h := Hash(ap.addr);
      ap.hnext := apHash[h];
      apHash[h] := ap;
      Chains := Chains[h := [ap] + Chains[h]];
    }

    /** The walk of ap_ap_hash_del: the entry before the first later one with the address. */
    method Predecessor(first: ApInfo, addr: Mac, ghost c: seq<ApInfo>, ghost m: nat) returns (s: ApInfo)
      requires 0 < m < |c| && first == c[0] && c[m].addr == addr
      requires forall i :: 0 <= i < |c| && i != m ==> c[i].addr != addr
      requires forall i {:trigger c[i].hnext} :: 0 <= i < |c| ==> c[i].hnext == At(c, i + 1)
      ensures s == c[m - 1]
    {
      s := first;
      ghost var i := 0;
      while s.hnext != null && s.hnext.addr != addr
        invariant 0 <= i < m && s == c[i]
        decreases |c| - i
      {
        s := s.hnext;
        i := i + 1;
      }
    }

    /** ap_ap_hash_del: unlink the first entry of the chain that has ap's address. */
    method HashDel(ap: ApInfo, ghost S: set<ApInfo>)
      requires HashOk(S) && ap in S
      requires forall n :: n in S && n != ap ==> n.addr != ap.addr
      modifies apHash, this`Chains, S`hnext
      ensures HashOk(S - {ap})
    {
      var h := Hash(ap.addr);
      ghost var c := Chains[h];
      assert ChainOk(apHash[h], c, h, S) && ap in c;
      ghost var m :| 0 <= m < |c| && c[m] == ap;
      var s := apHash[h];
      if s == null { return; }
      if s.addr == ap.addr {
        apHash[h] := s.hnext;
      } else {
        s := Predecessor(s, ap.addr, c, m);
        if s.hnext != null {
          s.hnext := s.hnext.hnext;
        }
      }
      Chains := Chains[h := RemoveAt(c, m)];
      ChainWithout(apHash[h], c, m, h, S);
      forall g | 0 <= g < 256 && g != h
        ensures ChainOk(apHash[g], Chains[g], g, S - {ap})
      {
        assert old(ChainOk(apHash[g], Chains[g], g, S));
      }
    }

    lemma {:induction false} InUse(k: nat)
      requires Valid() && k < |Nodes|
      ensures Nodes[k] in Repr
      ensures |RemoveAt(Nodes, k)| == |RemoveAt(Aps, k)| == numAp - 1
    {
      hide HashOk;
    }

    /** ap_free_ap */
    method FreeAp(ap: ApInfo, ghost k: nat)
      requires Valid() && k < |Nodes| && Nodes[k] == ap
      modifies this`apList, this`numAp, this`Repr, this`Nodes, this`Chains, this`Aps, apHash
      modifies Repr`next, Repr`prev, Repr`hnext
      ensures Valid() && Repr == old(Repr) - {ap} && Aps == RemoveAt(old(Aps), k)
      ensures Nodes == RemoveAt(old(Nodes), k)
    {
      hide ListOk, HashOk, Shows, RemoveAt;
      InUse(k);
      ShowsWithout(Nodes, Repr, Aps, k);
      HashDel(ap, Repr);
      ListDel(ap, k, Repr);
      numAp, Repr, Aps := numAp - 1, Repr - {ap}, RemoveAt(Aps, k);
    }

    /** Put ap on both structures. */
    method Link(ap: ApInfo, ghost S: set<ApInfo>)
      requires ListOk(Nodes, S) && HashOk(S) && ap !in S
      modifies this`apList, this`Nodes, this`Chains, ap`next, ap`prev, ap`hnext, S`prev, apHash
      ensures Nodes == [ap] + old(Nodes) && ListOk(Nodes, S + {ap}) && HashOk(S + {ap})
      ensures ap.prev == Nodes[|Nodes| - 1]
    {
      hide HashOk, ListOk;
      ListAdd(ap, S);
      HashAdd(ap, S);
    }

    /** ap_ap_add up to the capacity test: a zeroed entry at the head of the list and of its chain. */
    method InsertAp(addr: Mac) returns (ap: ApInfo)
      requires Valid() && forall n :: n in Repr ==> n.addr != addr
      modifies this`apList, this`numAp, this`Repr, this`Nodes, this`Chains, this`Aps, apHash, Repr`prev
      ensures Valid() && fresh(ap) && ap.addr == addr && ap.View() == Zeroed(addr)
      ensures Repr == old(Repr) + {ap} && Nodes == [ap] + old(Nodes) && Aps == [ap.View()] + old(Aps)
      ensures ap.prev == Nodes[|Nodes| - 1]
    {
      hide HashOk, ListOk, Shows;
      ap := new ApInfo(addr);
      ShowsWithFront(ap, Nodes, Repr, Aps);
      Link(ap, Repr);
      numAp, Repr, Aps := numAp + 1, Repr + {ap}, [ap.View()] + Aps;
    }

    /** ap_ap_add: over capacity, the tail is dropped unless it is the new entry itself. */
    method AddAp(addr: Mac) returns (ap: ApInfo)
      requires Valid() && forall n :: n in Repr ==> n.addr != addr
      modifies this`apList, this`numAp, this`Repr, this`Nodes, this`Chains, this`Aps, apHash
      modifies Repr`next, Repr`prev, Repr`hnext
      ensures Valid() && fresh(ap) && ap.addr == addr && ap.View() == Zeroed(addr)
      ensures ap in Repr && Repr <= old(Repr) + {ap} && |Nodes| > 0 && Nodes[0] == ap && Aps[0] == ap.View()
      ensures Aps[1..] == if old(Aps) != [] && |old(Aps)| + 1 > conf.maxSize
                          then old(Aps)[..|old(Aps)| - 1] else old(Aps)
    {
      hide HashOk, ListOk, Shows;
      ap := InsertAp(addr);
      InUse(|Nodes| - 1);
      if numAp > conf.maxSize && ap != ap.prev {
        FreeAp(ap.prev, |Nodes| - 1);
      }
    }

    /** What Get finds is what Find finds, and only the first node is the head. */
    lemma {:induction false} LookupAgrees(addr: Mac, s: ApInfo?)
      requires Valid()
      requires s != null ==> s in Repr && s.addr == addr
      requires s == null ==> forall n :: n in Repr ==> n.addr != addr
      ensures var k := Find(Aps, addr);
        if s == null then k == |Aps| else k < |Aps| && s == Nodes[k] && (s == apList ==> k == 0)
    {
      var k := Find(Aps, addr);
      assert k < |Aps| ==> Nodes[k].View() == Aps[k];
      if s != null {
        assert s in Nodes;
        var j :| 0 <= j < |Nodes| && Nodes[j] == s;
        assert Nodes[j].View() == Aps[j];
      }
    }

    /** Copy the frame's elements into the k-th entry. */
    method FillEntry(ap: ApInfo, b: Beacon, now: int, ghost k: nat)
      requires Valid() && k < |Nodes| && Nodes[k] == ap && ap.addr == b.bssid
      modifies this`Aps, Repr`rates, Repr`erp, Repr`channel, Repr`ht, Repr`lastBeacon
      ensures Valid() && ap.View() == Refresh(old(Aps)[k].channel, b, now)
      ensures Aps == old(Aps)[k := ap.View()]
    {
      hide HashOk, ListOk, Refresh;
      assert ap in Repr && ap.View() == Aps[k];
      ap.Fill(b, now);
      Aps := Aps[k := ap.View()];
    }

    /** Unlink a known entry and add it again at the head. */
    method MoveToFront(ap: ApInfo, ghost k: nat)
      requires Valid() && k < |Nodes| && Nodes[k] == ap
      modifies this`apList, this`Nodes, this`Aps, Repr`next, Repr`prev
      ensures Valid() && Aps == [old(Aps)[k]] + RemoveAt(old(Aps), k)
    {
      hide HashOk, ListOk, Shows;
      InUse(k);
      ShowsWithout(Nodes, Repr, Aps, k);
      ShowsWithFront(ap, RemoveAt(Nodes, k), Repr - {ap}, RemoveAt(Aps, k));
      ListDel(ap, k, Repr);
      ListAdd(ap, Repr - {ap});
      assert Repr - {ap} + {ap} == Repr;
      Aps := [Aps[k]] + RemoveAt(Aps, k);
    }

    /** ap_list_beacon_olbc */
    method BeaconOlbc(ap: ApInfo) returns (legacy: bool)
      ensures legacy == Legacy(conf, ap.View())
      ensures legacy <==>
        && conf.modeG && conf.channel == ap.channel
        && ((ap.erp >= 0 && ap.erp % 2 == 1)
            || forall i :: 0 <= i < |ap.rates| ==>
                 ap.rates[i] % 128 != 12 && ap.rates[i] % 128 != 18 && ap.rates[i] % 128 <= 22)
    {
      LegacyMeans(conf, ap.View());
      if !conf.modeG || conf.channel != ap.channel {
        return false;
      }
      if ap.erp >= 0 && BitAnd(ap.erp, 1) == 1 {
        return true;
      }
      for i := 0 to |ap.rates|
        invariant forall j :: 0 <= j < i ==> !FastRate(ap.rates[j])
      {
        var rate := BitAnd(ap.rates[i], 0x7f) * 5;
        if rate == 60 || rate == 90 || rate > 110 {
          assert ap.rates[i] in ap.rates;
          return false;
        }
      }
      return true;
    }

    /** Last part of ap_list_process_beacon: raise the protection flags. */
    method RaiseFlags(ap: ApInfo) returns (setBeacon: bool)
      modifies this`olbc, this`olbcHt
      ensures olbc == (old(olbc) || Legacy(conf, ap.View()))
      ensures olbcHt == (old(olbcHt) || LegacyHt(conf, ap.View()))
      ensures olbcHt <==> old(olbcHt) || (!ap.ht && ap.channel in {0, conf.channel, conf.channel + 4 * conf.secondary})
      ensures setBeacon <==> olbc != old(olbc) || olbcHt != old(olbcHt)
    {
      setBeacon := false;
      if !olbc {
        var legacy := BeaconOlbc(ap);
        if legacy {
          olbc, setBeacon := true, true;
        }
      }
      if !olbcHt && !ap.ht &&
         (ap.channel == 0 || ap.channel == conf.channel || ap.channel == conf.channel + conf.secondary * 4) {
        olbcHt, setBeacon := true, true;
      }
    }

    /** Start of ap_list_process_beacon: the sender's entry, added when there is none. */
    method FindOrAdd(addr: Mac) returns (ap: ApInfo, newAp: bool, ghost k: nat)
      requires Valid()
      modifies this`apList, this`numAp, this`Repr, this`Nodes, this`Chains, this`Aps, apHash
      modifies Repr`next, Repr`prev, Repr`hnext
      ensures Valid() && fresh(Repr - old(Repr)) && k < |Nodes| && Nodes[k] == ap && ap.addr == addr
      ensures newAp <==> Find(old(Aps), addr) == |old(Aps)|
      ensures newAp ==> k == 0 && Aps[0].channel == 0 && Aps[1..] == Rest(conf, old(Aps), addr)
      ensures !newAp ==> k == Find(Aps, addr) && Aps == old(Aps) && (ap == apList ==> k == 0)
    {
      hide HashOk, ListOk, Shows;
      var found := Get(addr);
      LookupAgrees(addr, found);
      newAp := found == null;
      if newAp {
        ap := AddAp(addr);
        k := 0;
      } else {
        ap, k := found, Find(Aps, addr);
      }
    }

    /** ap_list_process_beacon up to the flags: the sender's entry, brought up to date and moved to the head. */
    method Refreshed(b: Beacon, now: int) returns (ap: ApInfo)
      requires Valid()
      modifies this`apList, this`numAp, this`Repr, this`Nodes, this`Chains, this`Aps, apHash, Repr
      ensures Valid() && fresh(Repr - old(Repr))
      ensures ap.View() == HeardEntry(old(Aps), b, now) && Aps == [ap.View()] + Rest(conf, old(Aps), b.bssid)
    {
      hide HashOk, ListOk, Shows, Refresh;
      var newAp;
      ghost var k;
      ap, newAp, k := FindOrAdd(b.bssid);
      FillEntry(ap, b, now, k);
      if !newAp && ap != apList {
        MoveToFront(ap, k);
      }
    }

    /** ap_list_process_beacon; the result tells whether our own beacons have to be updated. */
    method ProcessBeacon(b: Beacon, now: int) returns (setBeacon: bool)
      requires Valid()
      modifies this, apHash, Repr
      ensures Valid() && fresh(Repr - old(Repr))
      ensures Abs() == ApSpec.ProcessBeacon(conf, old(Abs()), b, now)
      ensures setBeacon <==> olbc != old(olbc) || olbcHt != old(olbcHt)
    {
      hide HashOk, ListOk, Shows, Legacy, LegacyHt, HeardEntry, Rest;
      if conf.maxSize < 1 {
        return false;
      }
      var ap := Refreshed(b, now);
      setBeacon := RaiseFlags(ap);
    }

    /** The tail is the head's prev. */
    method Tail() returns (ap: ApInfo)
      requires Valid() && apList != null
      ensures |Nodes| > 0 && ap == Nodes[|Nodes| - 1] && ap.View() == Aps[|Aps| - 1]
    {
      ap := apList.prev;
      assert apList == Nodes[0];
      assert ap == Nodes[|Nodes| - 1];
    }

    /** The rescan of ap_list_timer, which stops as soon as both kinds have been seen. */
    method ScanFlags() returns (someLegacy: bool, someNonHt: bool)
      requires Valid()
      ensures someLegacy == SomeLegacy(conf, Aps) && someNonHt == SomeNonHt(Aps)
    {
      someLegacy, someNonHt := false, false;
      var ap := apList;
      ghost var i := 0;
      while ap != null && (!someLegacy || !someNonHt)
        invariant 0 <= i <= |Nodes| && ap == At(Nodes, i)
        invariant someLegacy == SomeLegacy(conf, Aps[..i])
        invariant someNonHt == SomeNonHt(Aps[..i])
        decreases |Nodes| - i
      {
        assert Aps[..i + 1] == Aps[..i] + [ap.View()];
        var legacy := BeaconOlbc(ap);
        if legacy { someLegacy := true; }
        if !ap.ht { someNonHt := true; }
        ap := ap.next;
        i := i + 1;
      }
    }

    /** First half of ap_list_timer: free expired entries from the tail up to the first fresh one. */
    method ExpireTail(now: int)
      requires Valid()
      modifies this`apList, this`numAp, this`Repr, this`Nodes, this`Chains, this`Aps, apHash
      modifies Repr`next, Repr`prev, Repr`hnext
      ensures Valid() && Repr <= old(Repr) && Aps == DropExpiredTail(conf, old(Aps), now)
    {
      hide HashOk, Shows, Expired;
      while apList != null
        invariant Valid() && Repr <= old(Repr)
        invariant DropExpiredTail(conf, Aps, now) == DropExpiredTail(conf, old(Aps), now)
        decreases |Nodes|
      {
        var ap := Tail();
        if !Expired(now, ap.lastBeacon, conf.expirationSecs) {
          break;
        }
        ghost var aps := Aps;
        FreeAp(ap, |Nodes| - 1);
        assert Aps == aps[..|aps| - 1];
      }
    }

    lemma {:induction false} EmptyIff()
      requires Valid()
      ensures apList == null <==> Aps == []
    {
      hide HashOk, Shows;
    }

    /** ap_list_timer; the result tells whether our own beacons have to be updated. */
    method Timer(now: int) returns (setBeacon: bool)
      requires Valid()
      modifies this, apHash, Repr
      ensures Valid() && Repr <= old(Repr)
      ensures Abs() == ApSpec.Timer(conf, old(Abs()), now)
      ensures setBeacon <==> olbc != old(olbc) || olbcHt != old(olbcHt)
    {
      hide HashOk, ListOk, Shows, SomeLegacy, SomeNonHt, DropExpiredTail;
      EmptyIff();
      setBeacon := false;
      if apList == null {
        return;
      }
      ExpireTail(now);
      if olbc || olbcHt {
        var someLegacy, someNonHt := ScanFlags();
        if !someLegacy && olbc {
          olbc, setBeacon := false, true;
        }
        if !someNonHt && olbcHt {
          olbcHt, setBeacon := false, true;
        }
      }
    }

    /** hostapd_free_aps: free every entry from the head. */
    method FreeAll()
      requires Valid()
      modifies this`apList, this`numAp, this`Repr, this`Nodes, this`Chains, this`Aps, apHash
      modifies Repr`next, Repr`prev, Repr`hnext
      ensures Valid() && Aps == [] && Repr == {} && apList == null && numAp == 0
    {
      hide HashOk;
      var ap := apList;
      while ap != null
        invariant Valid() && Repr <= old(Repr) && ap == apList
        decreases |Nodes|
      {
        var prev := ap;
        ap := ap.next;
        FreeAp(prev, 0);
        assert ap == apList;
      }
      assert forall n :: n in Repr ==> n in Nodes;
      apList := null;
    }
  }
}
