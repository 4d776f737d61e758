/** MAC access lists: maintenance from list files (config_file.c) and lookup by binary search (ap_config.c). */
module MacList {
  import opened MacAddress

  datatype Entry = Entry(addr: Mac, vlan: int)

  /** One line of a list file after parsing. */
  datatype Line = Ignored | Add(entry: Entry) | Remove(addr: Mac) | Invalid

  predicate Sorted(acl: seq<Entry>) {
    forall i, j :: 0 <= i < j < |acl| ==> Num(acl[i].addr) <= Num(acl[j].addr)
  }

  ghost function Entries(acl: seq<Entry>): set<Entry> {
    set e | e in acl
  }

  /** What the lines make of a set of entries. */
  ghost function After(S: set<Entry>, lines: seq<Line>): set<Entry>
    decreases |lines|
  {
    if lines == [] then S
    else
      var T := After(S, lines[..|lines| - 1]);
      match lines[|lines| - 1]
      case Add(e) => T + {e}
      case Remove(a) => set e | e in T && e.addr != a
      case _ => T
  }

  /** Line i of the files added e, and no later line removed e's address. */
  ghost predicate AddedFor(lines: seq<Line>, e: Entry, i: nat) {
    i < |lines| && lines[i] == Add(e) && forall j :: i < j < |lines| ==> lines[j] != Remove(e.addr)
  }

  /** Exactly the entries added and not removed since are on the list. */
  lemma {:induction false} AfterExact(lines: seq<Line>, e: Entry)
    ensures e in After({}, lines) <==> exists i: nat :: AddedFor(lines, e, i)
    decreases |lines|
  {
    if lines != [] {
      var n := |lines| - 1;
      AfterExact(lines[..n], e);
      if e in After({}, lines) {
        if lines[n] == Add(e) {
          assert AddedFor(lines, e, n);
        } else {
          var i: nat :| AddedFor(lines[..n], e, i);
          assert AddedFor(lines, e, i);
        }
      }
      if exists i: nat :: AddedFor(lines, e, i) {
        var i: nat :| AddedFor(lines, e, i);
        if i < n { assert AddedFor(lines[..n], e, i); }
      }
    }
  }

  /** The last line mentioning addr, or -1. */
  function LastMention(lines: seq<Line>, addr: Mac): (r: int)
    ensures -1 <= r < |lines|
    ensures r >= 0 ==> Mentions(lines[r], addr)
    ensures forall j :: r < j < |lines| ==> !Mentions(lines[j], addr)
    decreases |lines|
  {
    if lines == [] then -1
    else if Mentions(lines[|lines| - 1], addr) then |lines| - 1
    else LastMention(lines[..|lines| - 1], addr)
  }

  predicate Mentions(l: Line, addr: Mac) {
    (l.Add? && l.entry.addr == addr) || l == Remove(addr)
  }

  /** An address is on the list exactly when the last line that mentions it is an addition. */
  lemma {:induction false} ListedIffLastAdded(lines: seq<Line>, addr: Mac)
    ensures (exists e :: e in After({}, lines) && e.addr == addr) <==>
      (LastMention(lines, addr) >= 0 && lines[LastMention(lines, addr)].Add?)
  {
    var r := LastMention(lines, addr);
    if r >= 0 && lines[r].Add? {
      var e := lines[r].entry;
      assert AddedFor(lines, e, r);
      AfterExact(lines, e);
    }
    if exists e :: e in After({}, lines) && e.addr == addr {
      var e :| e in After({}, lines) && e.addr == addr;
      AfterExact(lines, e);
      var i: nat :| AddedFor(lines, e, i);
      assert Mentions(lines[i], addr);
    }
  }

  /** Reading file after file is like reading one long file. */
  lemma {:induction false} AfterConcat(S: set<Entry>, a: seq<Line>, b: seq<Line>)
    ensures After(S, a + b) == After(After(S, a), b)
    decreases |b|
  {
    if b == [] {
      assert a + b == a;
    } else {
      AfterConcat(S, a, b[..|b| - 1]);
      assert (a + b)[..|a + b| - 1] == a + b[..|b| - 1];
    }
  }

  function Flatten(files: seq<seq<Line>>): seq<Line>
    decreases |files|
  {
    if files == [] then [] else Flatten(files[..|files| - 1]) + files[|files| - 1]
  }

  predicate Has(list: seq<Entry>, addr: Mac) {
    exists i :: 0 <= i < |list| && list[i].addr == addr
  }


  /** hostapd_maclist_found: binary search. */
  method Found(list: seq<Entry>, addr: Mac) returns (found: bool, vlan: int)
    requires Sorted(list)
    ensures found <==> exists e :: e in list && e.addr == addr
    ensures found ==> Entry(addr, vlan) in list
  {
    hide Num, MemCmp;
    found, vlan := false, 0;
    var start, end := 0, |list| - 1;
    while start <= end
      invariant 0 <= start <= end + 1 <= |list|
      invariant forall i :: 0 <= i < |list| && !(start <= i <= end) ==> list[i].addr != addr
      decreases end - start
    {
      var middle := (start + end) / 2;
      var res := MemCmp(list[middle].addr, addr);
      MemCmpIsOrder(list[middle].addr, addr);
      if res == 0 {
        return true, list[middle].vlan;
      }
      if res < 0 {
        start := middle + 1;
      } else {
        end := middle - 1;
      }
    }
  }

  class MacAcl {
    var acl: seq<Entry>

    constructor ()
      ensures acl == []
    {
      acl := [];
    }

    /** The removal loop: delete every entry with the address, closing up the list each time. */
    method RemoveAll(addr: Mac)
      modifies this
      ensures Entries(acl) == set e | e in old(Entries(acl)) && e.addr != addr
    {
      var i := 0;
      while i < |acl|
        invariant 0 <= i <= |acl|
        invariant forall k :: 0 <= k < i ==> acl[k].addr != addr
        invariant forall e: Entry :: e.addr != addr ==> (e in acl <==> e in old(acl))
        decreases |acl| - i
      {
        if acl[i].addr == addr {
          ghost var was := acl;
          acl := acl[..i] + acl[i + 1..];
          assert forall e :: e in was <==> e in was[..i] || e == was[i] || e in was[i + 1..];
        } else {
          i := i + 1;
        }
      }
    }

    /** qsort by address: some sorted rearrangement. */
    method Sort()
      modifies this
      ensures Sorted(acl) && multiset(acl) == multiset(old(acl))
    {
      var sorted: seq<Entry> := [];
      for i := 0 to |acl|
        invariant acl == old(acl)
        invariant Sorted(sorted) && multiset(sorted) == multiset(acl[..i])
      {
        assert acl[..i + 1] == acl[..i] + [acl[i]];
        sorted := Insert(sorted, acl[i]);
      }
      assert acl[..|acl|] == acl;
      acl := sorted;
    }

    static lemma {:induction false} AppendSorted(s: seq<Entry>, x: Entry)
      requires Sorted(s) && forall y :: y in s ==> Num(y.addr) <= Num(x.addr)
      ensures Sorted(s + [x])
    {
    }

    static function Insert(s: seq<Entry>, e: Entry): (r: seq<Entry>)
      requires Sorted(s)
      ensures Sorted(r) && multiset(r) == multiset(s) + multiset{e}
      ensures forall x :: x in r ==> x in s || x == e
      decreases |s|
    {
      hide Num;
      if s == [] then [e]
      else
        var n := |s| - 1;
        assert s == s[..n] + [s[n]];
        if Num(s[n].addr) <= Num(e.addr) then
          AppendSorted(s, e);
          s + [e]
        else
          var r := Insert(s[..n], e);
          AppendSorted(r, s[n]);
          r + [s[n]]
    }

    /** hostapd_config_read_maclist; an invalid address stops it with an error and the list half updated. */
    method ReadMacList(lines: seq<Line>) returns (ok: bool)
      modifies this
      ensures ok <==> Invalid !in lines
      ensures ok ==> Sorted(acl) && Entries(acl) == After(old(Entries(acl)), lines)
    {
      hide Num;
      for i := 0 to |lines|
        invariant Entries(acl) == After(old(Entries(acl)), lines[..i])
        invariant Invalid !in lines[..i]
      {
        assert lines[..i + 1][..i] == lines[..i];
        match lines[i] {
          case Ignored =>
          case Invalid => return false;
          case Remove(a) => RemoveAll(a);
          case Add(e) => acl := acl + [e];
        }
      }
      assert lines[..|lines|] == lines;
      ghost var S := Entries(acl);
      ghost var was := acl;
      Sort();
      assert forall e :: e in acl <==> e in multiset(acl);
      assert forall e :: e in was <==> e in multiset(was);
      return true;
    }
  }

  /** Reading any number of list files and then searching: the last word on an address decides. */
  method ReadAndSearch(files: seq<seq<Line>>, addr: Mac) returns (ok: bool, found: bool, vlan: int)
    ensures ok <==> forall f :: f in files ==> Invalid !in f
    ensures ok ==> var lines := Flatten(files);
      var r := LastMention(lines, addr);
      && (found <==> r >= 0 && lines[r].Add?)
      && (found ==> exists i: nat :: AddedFor(lines, Entry(addr, vlan), i))
  {
    hide Num, LastMention, Sorted;
    found, vlan := false, 0;
    var list := new MacAcl();
    assert Entries(list.acl) == {};
    EmptySorted();
    for k := 0 to |files|
      invariant Entries(list.acl) == After({}, Flatten(files[..k])) && Sorted(list.acl)
      invariant forall f :: f in files[..k] ==> Invalid !in f
    {
      assert files[..k + 1][..k] == files[..k];
      AfterConcat({}, Flatten(files[..k]), files[k]);
      ok := list.ReadMacList(files[k]);
      if !ok {
        return;
      }
    }
    assert files[..|files|] == files;
    ok := true;
    found, vlan := Found(list.acl, addr);
    ListedIffLastAdded(Flatten(files), addr);
    AfterExact(Flatten(files), Entry(addr, vlan));
    assert forall e :: e in list.acl <==> e in Entries(list.acl);
  }

  lemma {:induction false} EmptySorted()
    ensures Sorted([])
  {
  }
}
