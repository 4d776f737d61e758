/** Octet counters and session identifiers of accounting.c (sections 5.1 and 5.2 of RFC 2869). */
module Accounting {
  import opened Options
  import opened Bits

  const GIGA: nat := 0x1_0000_0000

  const TWO64: nat := 0x1_0000_0000_0000_0000

  /** Width of the driver's byte counter. */
  datatype Width = Bits32 | Bits64

  function Modulus(w: Width): (r: nat)
    ensures r > 0
  {
    if w.Bits32? then GIGA else TWO64
  }

  /** One direction of a station: the counter as last read and the wraps seen (a u32). */
  datatype Counter = Counter(last: nat, gigawords: nat)

  /** The two attributes reported; a missing Gigawords attribute means 0. */
  datatype Report = Report(octets: nat, gigawords: Option<nat>)

  const START: Counter := Counter(0, 0)

  /** One read of the driver's counter. */
  function Poll(c: Counter, reading: nat): Counter {
    Counter(reading, if c.last > reading then (c.gigawords + 1) % GIGA else c.gigawords)
  }

  /** What is reported right after a read; build64 tells whether unsigned long has 64 bits. */
  function ReportOf(c: Counter, build64: bool): (r: Report)
    ensures r.octets < GIGA && (r.gigawords.Some? ==> 0 < r.gigawords.value < GIGA)
  {
    var g := (c.gigawords + if build64 then c.last / GIGA else 0) % GIGA;
    Report(c.last % GIGA, if g == 0 then None else Some(g))
  }

  /** The total that a RADIUS server works out. */
  function Total(r: Report): nat {
    (if r.gigawords.Some? then r.gigawords.value else 0) * GIGA + r.octets
  }

  /** Reading the counter at these true totals, one after the other. */
  function PollAll(totals: seq<nat>, w: Width): Counter {
    if totals == [] then START
    else Poll(PollAll(totals[..|totals| - 1], w), totals[|totals| - 1] % Modulus(w))
  }

  /** The true total at the last read. */
  function LastOf(totals: seq<nat>): nat {
    if totals == [] then 0 else totals[|totals| - 1]
  }

  /** Totals never fall, and fewer than gap bytes pass between two reads or before the first. */
  predicate History(totals: seq<nat>, gap: nat) {
    totals == [] || (
      && History(totals[..|totals| - 1], gap)
      && LastOf(totals[..|totals| - 1]) <= LastOf(totals) < LastOf(totals[..|totals| - 1]) + gap)
  }

  /** Comparing two readings of a 32-bit counter counts the wraps between them exactly when less than 2^32 passed. */
  lemma WrapSeen(t: nat, u: nat)
    requires t <= u
    ensures u / GIGA - t / GIGA == (if t % GIGA > u % GIGA then 1 else 0) <==> u - t < GIGA
  {
  }

  lemma WrapsCounted(t: nat, u: nat, g: nat)
    requires t <= u < t + GIGA && g == t / GIGA % GIGA
    ensures (if t % GIGA > u % GIGA then (g + 1) % GIGA else g) == u / GIGA % GIGA
  {
    WrapSeen(t, u);
    AddMod(t / GIGA, 1, GIGA);
  }

  /** A 32-bit counter: Gigawords holds the total's upper half, the reading its lower half. */
  lemma {:induction false} Polled32(totals: seq<nat>)
    requires History(totals, GIGA)
    ensures PollAll(totals, Bits32) == Counter(LastOf(totals) % GIGA, LastOf(totals) / GIGA % GIGA)
    decreases |totals|
  {
    if totals != [] {
      var before := totals[..|totals| - 1];
      Polled32(before);
      WrapsCounted(LastOf(before), LastOf(totals), LastOf(before) / GIGA % GIGA);
    }
  }

  lemma SplitTotal(t: nat)
    ensures t / GIGA % GIGA * GIGA + t % GIGA == t % TWO64
  {
    ModProduct(t, GIGA, GIGA);
  }

  lemma {:induction false} ReportIs(last: nat, gigawords: nat, build64: bool)
    requires last < GIGA && gigawords < GIGA
    ensures Total(ReportOf(Counter(last, gigawords), build64)) == gigawords * GIGA + last
  {
  }

  /** With a 32-bit counter either build reports the true total, modulo the 2^64 that the attributes can hold. */
  lemma {:induction false} Reported32(totals: seq<nat>, build64: bool)
    requires History(totals, GIGA)
    ensures Total(ReportOf(PollAll(totals, Bits32), build64)) == LastOf(totals) % TWO64
    ensures LastOf(totals) < TWO64 ==> Total(ReportOf(PollAll(totals, Bits32), build64)) == LastOf(totals)
  {
    hide PollAll, ReportOf, Total;
    Polled32(totals);
    var t := LastOf(totals);
    ReportIs(t % GIGA, t / GIGA % GIGA, build64);
    SplitTotal(t);
    if t < TWO64 { Small(t, TWO64); }
  }

  /** Totals never fall. */
  predicate NeverFalls(totals: seq<nat>) {
    totals == [] || (NeverFalls(totals[..|totals| - 1]) && LastOf(totals[..|totals| - 1]) <= LastOf(totals))
  }

  /** How many times a read finds the 32-bit counter lower than the one before. */
  function WrapsSeen(totals: seq<nat>): nat {
    if totals == [] then 0
    else
      var before := totals[..|totals| - 1];
      WrapsSeen(before) + if LastOf(before) % GIGA > LastOf(totals) % GIGA then 1 else 0
  }

  lemma WrapsMissed(t: nat, u: nat)
    requires t <= u
    ensures u / GIGA - t / GIGA >= if t % GIGA > u % GIGA then 1 else 0
  {
  }

  /** Reads miss wraps, never invent them, and miss none exactly when fewer than 2^32 bytes pass between any two. */
  lemma {:induction false} WrapsSeenExact(totals: seq<nat>)
    requires NeverFalls(totals)
    ensures WrapsSeen(totals) <= LastOf(totals) / GIGA
    ensures WrapsSeen(totals) == LastOf(totals) / GIGA <==> History(totals, GIGA)
    decreases |totals|
  {
    if totals != [] {
      var before := totals[..|totals| - 1];
      WrapsSeenExact(before);
      WrapsMissed(LastOf(before), LastOf(totals));
      WrapSeen(LastOf(before), LastOf(totals));
    }
  }

  lemma {:induction false} PolledWraps(totals: seq<nat>)
    ensures PollAll(totals, Bits32) == Counter(LastOf(totals) % GIGA, WrapsSeen(totals) % GIGA)
    decreases |totals|
  {
    if totals != [] {
      var before := totals[..|totals| - 1];
      PolledWraps(before);
      AddMod(WrapsSeen(before), 1, GIGA);
    }
  }

  /**
   * With a 32-bit counter and a total that the attributes can hold, the report is the true total if and only if
   * fewer than 2^32 bytes passed between any two reads, on either build.
   */
  lemma {:induction false} Exact32(totals: seq<nat>, build64: bool)
    requires NeverFalls(totals) && LastOf(totals) < TWO64
    ensures Total(ReportOf(PollAll(totals, Bits32), build64)) == LastOf(totals) <==> History(totals, GIGA)
  {
    hide PollAll, ReportOf, Total, History, NeverFalls, WrapsSeen;
    WrapsSeenExact(totals);
    PolledWraps(totals);
    var t, w := LastOf(totals), WrapsSeen(totals);
    HighHalf(t);
    Small(w, GIGA);
    ReportIs(t % GIGA, w, build64);
  }

  lemma HighHalf(t: nat)
    requires t < TWO64
    ensures t / GIGA < GIGA && t == t / GIGA * GIGA + t % GIGA
  {
  }

  /** 2^32 bytes before the first read: the counter is back at 0 and nothing is reported. */
  lemma {:induction false} FastTraffic32(build64: bool)
    ensures NeverFalls([GIGA]) && !History([GIGA], GIGA)
    ensures Total(ReportOf(PollAll([GIGA], Bits32), build64)) == 0
  {
    assert [GIGA][..0] == [] && LastOf([]) == 0 && LastOf([GIGA]) == GIGA;
    assert WrapsSeen([]) == 0 && WrapsSeen([GIGA]) == 0;
    PolledWraps([GIGA]);
    ReportIs(0, 0, build64);
  }

  /** One wrap of a counter modulo m, seen by comparing two readings less than m apart. */
  lemma OneWrap(t: nat, u: nat, m: nat)
    requires m > 0 && t <= u < t + m
    ensures u / m == t / m + if t % m > u % m then 1 else 0
  {
    var q, r, d := t / m, t % m, u - t;
    if r + d < m {
      DivUnique(u, m, q, r + d);
    } else {
      assert u == (q + 1) * m + (r + d - m);
      DivUnique(u, m, q + 1, r + d - m);
    }
  }

  /** A 64-bit counter: each of its own wraps, of 2^64, adds one gigaword. */
  lemma {:induction false} Polled64(totals: seq<nat>)
    requires History(totals, TWO64)
    ensures PollAll(totals, Bits64) == Counter(LastOf(totals) % TWO64, LastOf(totals) / TWO64 % GIGA)
    decreases |totals|
  {
    if totals != [] {
      var before := totals[..|totals| - 1];
      var t, u := LastOf(before), LastOf(totals);
      Polled64(before);
      OneWrap(t, u, TWO64);
      AddMod(t / TWO64, 1, GIGA);
    }
  }

  lemma {:induction false} ReportIs64(reading: nat, wraps: nat)
    requires reading < TWO64 && wraps < GIGA
    ensures Total(ReportOf(Counter(reading, wraps), true)) == (wraps + reading / GIGA) % GIGA * GIGA + reading % GIGA
    ensures Total(ReportOf(Counter(reading, wraps), true)) == reading <==> wraps == 0
  {
    var g := reading / GIGA;
    assert reading == g * GIGA + reading % GIGA && g < GIGA;
    RemainderKept(g, wraps);
  }

  lemma RemainderKept(g: nat, w: nat)
    requires g < GIGA && w < GIGA
    ensures (w + g) % GIGA == g <==> w == 0
  {
  }

  /**
   * On a 64-bit build a 64-bit counter is reported right, modulo the 2^64 that the attributes can hold, if and only
   * if the number of its wraps is a multiple of 2^32: a wrap is taken for one of 32 bits.
   */
  lemma {:induction false} Reported64(totals: seq<nat>)
    requires History(totals, TWO64)
    ensures var total := Total(ReportOf(PollAll(totals, Bits64), true));
      && (total == LastOf(totals) % TWO64 <==> LastOf(totals) / TWO64 % GIGA == 0)
      && (total == LastOf(totals) <==> LastOf(totals) < TWO64)
  {
    hide PollAll, ReportOf, Total, History;
    Polled64(totals);
    var t := LastOf(totals);
    ReportIs64(t % TWO64, t / TWO64 % GIGA);
    TotalBound(ReportOf(PollAll(totals, Bits64), true), t % TWO64, t / TWO64 % GIGA);
    if t < TWO64 { Small(t, TWO64); }
  }

  lemma {:induction false} TotalBound(r: Report, reading: nat, wraps: nat)
    requires r == ReportOf(Counter(reading, wraps), true)
    ensures Total(r) < TWO64
  {
  }

  lemma LowHalf(t: nat)
    ensures t % TWO64 % GIGA == t % GIGA
  {
    SplitTotal(t);
    DivUnique(t % TWO64, GIGA, t / GIGA % GIGA, t % GIGA);
  }

  /** What each wrap costs: the upper half is too high by the number of wraps, modulo 2^32. */
  lemma {:induction false} Misreport64(totals: seq<nat>)
    requires History(totals, TWO64)
    ensures var t := LastOf(totals);
      Total(ReportOf(PollAll(totals, Bits64), true))
      == (t / TWO64 % GIGA + t % TWO64 / GIGA) % GIGA * GIGA + t % GIGA
  {
    hide PollAll, ReportOf, Total, History;
    Polled64(totals);
    var t := LastOf(totals);
    ReportIs64(t % TWO64, t / TWO64 % GIGA);
    LowHalf(t);
  }

  /** Two reads around the first wrap: 2^64 bytes are reported as 2^32. */
  lemma {:induction false} Wrapped64()
    ensures History([TWO64 - 1, TWO64], TWO64)
    ensures Total(ReportOf(PollAll([TWO64 - 1, TWO64], Bits64), true)) == GIGA
  {
    var a, b: nat := TWO64 - 1, TWO64;
    assert [a, b][..1] == [a] && [a][..0] == [];
    assert History([], TWO64) && LastOf([]) == 0 && LastOf([a]) == a && LastOf([a, b]) == b;
    assert History([a], TWO64);
    assert History([a, b], TWO64);
    hide History, PollAll, ReportOf, Total;
    Misreport64([a, b]);
  }

  /** A station's two counters. */
  class Station {
    var lastRx: nat
    var lastTx: nat
    var inputGigawords: nat
    var outputGigawords: nat

    ghost function Rx(): Counter
      reads this
    {
      Counter(lastRx, inputGigawords)
    }

    ghost function Tx(): Counter
      reads this
    {
      Counter(lastTx, outputGigawords)
    }

    constructor ()
      ensures Rx() == START && Tx() == START
    {
      lastRx, lastTx, inputGigawords, outputGigawords := 0, 0, 0, 0;
    }

    /** The counters' part of accounting_sta_start. */
    method Start()
      modifies this
      ensures Rx() == START && Tx() == START
    {
      lastRx, lastTx := 0, 0;
      inputGigawords, outputGigawords := 0, 0;
    }

    /** accounting_sta_update_stats; data is None where the driver cannot be read. */
    method UpdateStats(data: Option<(nat, nat)>) returns (ok: bool)
      modifies this
      ensures ok == data.Some?
      ensures Rx() == if ok then Poll(old(Rx()), data.value.0) else old(Rx())
      ensures Tx() == if ok then Poll(old(Tx()), data.value.1) else old(Tx())
    {
      if data.None? {
        return false;
      }
      if lastRx > data.value.0 {
        inputGigawords := (inputGigawords + 1) % GIGA;
      }
      if lastTx > data.value.1 {
        outputGigawords := (outputGigawords + 1) % GIGA;
      }
      lastRx := data.value.0;
      lastTx := data.value.1;
      return true;
    }

    /** The octet and gigaword attributes of accounting_sta_report. */
    method ReportSta(data: Option<(nat, nat)>, build64: bool) returns (r: Option<(Report, Report)>)
      modifies this
      ensures r.Some? <==> data.Some?
      ensures r.Some? ==> Rx() == Poll(old(Rx()), data.value.0) && Tx() == Poll(old(Tx()), data.value.1)
      ensures r.Some? ==> r.value == (ReportOf(Rx(), build64), ReportOf(Tx(), build64))
      ensures r.None? ==> Rx() == old(Rx()) && Tx() == old(Tx())
    {
      var ok := UpdateStats(data);
      if !ok {
        return None;
      }
      var g := inputGigawords;
      if build64 {
        g := g + data.value.0 / GIGA;
      }
      g := g % GIGA;
      var rx := Report(data.value.0 % GIGA, if g == 0 then None else Some(g));
      g := outputGigawords;
      if build64 {
        g := g + data.value.1 / GIGA;
      }
      g := g % GIGA;
      var tx := Report(data.value.1 % GIGA, if g == 0 then None else Some(g));
      return Some((rx, tx));
    }
  }

  /* Session identifiers. */

  datatype Id = Id(hi: nat, lo: nat)

  /**
   * One assignment: the identifier given and the allocator's new state. The low half is read before the increment,
   * the high half after it.
   */
  function Assign(s: Id): (Id, Id) {
    var lo := (s.lo + 1) % GIGA;
    var hi := if lo == 0 then (s.hi + 1) % GIGA else s.hi;
    (Id(hi, s.lo), Id(hi, lo))
  }

  function StateAfter(s: Id, n: nat): Id {
    if n == 0 then s else Assign(StateAfter(s, n - 1)).1
  }

  /** The n-th identifier, counted from 0. */
  function Assigned(s: Id, n: nat): Id {
    Assign(StateAfter(s, n)).0
  }

  predicate IsId(s: Id) {
    s.hi < GIGA && s.lo < GIGA
  }

  lemma CarryStep(x: nat, h: nat)
    ensures (x % GIGA + 1) % GIGA == (x + 1) % GIGA
    ensures (h + (x + 1) / GIGA) % GIGA
         == if (x + 1) % GIGA == 0 then ((h + x / GIGA) % GIGA + 1) % GIGA else (h + x / GIGA) % GIGA
  {
    AddMod(x, 1, GIGA);
    AddMod(h + x / GIGA, 1, GIGA);
  }

  lemma {:induction false} StateIs(s: Id, n: nat)
    requires IsId(s)
    ensures StateAfter(s, n) == Id((s.hi + (s.lo + n) / GIGA) % GIGA, (s.lo + n) % GIGA)
  {
    if n > 0 {
      StateIs(s, n - 1);
      CarryStep(s.lo + n - 1, s.hi);
    }
  }

  /** The n-th identifier in closed form; just before a carry the high half is already the next one. */
  lemma {:induction false} AssignedIs(s: Id, n: nat)
    requires IsId(s)
    ensures Assigned(s, n) == Id((s.hi + (s.lo + n + 1) / GIGA) % GIGA, (s.lo + n) % GIGA)
  {
    StateIs(s, n);
    CarryStep(s.lo + n, s.hi);
  }

  lemma SameHalves(x: nat, y: nat, h: nat)
    requires x <= y
    ensures (x % GIGA == y % GIGA && (h + (x + 1) / GIGA) % GIGA == (h + (y + 1) / GIGA) % GIGA)
       <==> (y - x) % TWO64 == 0
  {
    SameRemainder(x, y, GIGA);
    Halves(y - x);
    if x % GIGA == y % GIGA {
      var d := (y - x) / GIGA;
      CarriesDiffer(x, d);
      SameRemainder(h + (x + 1) / GIGA, h + (x + 1) / GIGA + d, GIGA);
    }
  }

  /** A number is a multiple of 2^64 exactly when both its low half and what remains above it are 0 modulo 2^32. */
  lemma Halves(n: nat)
    ensures n % TWO64 == 0 <==> n % GIGA == 0 && n / GIGA % GIGA == 0
  {
    SplitTotal(n);
    var hi, lo := n / GIGA % GIGA, n % GIGA;
    assert hi * GIGA + lo == 0 <==> hi == 0 && lo == 0;
  }

  lemma CarriesDiffer(x: nat, d: nat)
    ensures (x + d * GIGA + 1) / GIGA == (x + 1) / GIGA + d
  {
  }

  /** Two assignments give the same identifier exactly when a multiple of 2^64 lies between them. */
  lemma {:induction false} IdsRepeat(s: Id, i: nat, j: nat)
    requires IsId(s) && i <= j
    ensures Assigned(s, i) == Assigned(s, j) <==> (j - i) % TWO64 == 0
  {
    AssignedIs(s, i);
    AssignedIs(s, j);
    SameHalves(s.lo + i, s.lo + j, s.hi);
  }

  /** Any 2^64 consecutive assignments give different identifiers. */
  lemma {:induction false} IdsDistinct(s: Id, i: nat, j: nat)
    requires IsId(s) && i < j < i + TWO64
    ensures Assigned(s, i) != Assigned(s, j)
  {
    IdsRepeat(s, i, j);
    Small(j - i, TWO64);
  }

  /** The identifier fields of a BSS. */
  class Allocator {
    var hi: nat
    var lo: nat

    ghost function State(): Id
      reads this
    {
      Id(hi, lo)
    }

    constructor (hi: nat, lo: nat)
      requires IsId(Id(hi, lo))
      ensures State() == Id(hi, lo)
    {
      this.hi, this.lo := hi, lo;
    }

    /** accounting_sta_get_id */
    method GetId() returns (id: Id)
      requires IsId(State())
      modifies this
      ensures IsId(State()) && (id, State()) == Assign(old(State()))
    {
      var low := lo;
      lo := (lo + 1) % GIGA;
      if lo == 0 {
        hi := (hi + 1) % GIGA;
      }
      return Id(hi, low);
    }
  }
}
