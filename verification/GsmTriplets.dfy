/** The GSM triplet list of hlr_auc_gw.c and the cursor that shares its triplets out. */
module GsmTriplets {
  import opened Options
  import opened Bits

  datatype Triplet = Triplet(imsi: string, kc: seq<int>, sres: seq<int>, rand: seq<int>)

  predicate Matches(db: seq<Triplet>, imsi: string, j: int) {
    0 <= j < |db| && db[j].imsi == imsi
  }

  /** How many triplets of the IMSI lie before position p. */
  function Rank(db: seq<Triplet>, imsi: string, p: nat): nat
    requires p <= |db|
  {
    if p == 0 then 0 else Rank(db, imsi, p - 1) + if Matches(db, imsi, p - 1) then 1 else 0
  }

  /** How many triplets the IMSI has. */
  function Count(db: seq<Triplet>, imsi: string): nat {
    Rank(db, imsi, |db|)
  }

  /** The first match from lo on and below hi. */
  function FirstIn(db: seq<Triplet>, imsi: string, lo: nat, hi: nat): (r: Option<nat>)
    requires lo <= hi <= |db|
    ensures r.Some? ==> lo <= r.value < hi && Matches(db, imsi, r.value)
    ensures r.Some? ==> Rank(db, imsi, r.value) == Rank(db, imsi, lo)
    ensures r.None? ==> Rank(db, imsi, hi) == Rank(db, imsi, lo)
    decreases hi - lo
  {
    if lo == hi then None
    else if Matches(db, imsi, lo) then Some(lo)
    else FirstIn(db, imsi, lo + 1, hi)
  }

  /** The position handed out: the first match from the cursor on, else the first before it. */
  function Pick(db: seq<Triplet>, imsi: string, pos: nat): Option<nat>
    requires pos <= |db|
  {
    var later := FirstIn(db, imsi, pos, |db|);
    if later.Some? then later else FirstIn(db, imsi, 0, pos)
  }

  lemma {:induction false} RankMono(db: seq<Triplet>, imsi: string, p: nat, q: nat)
    requires p <= q <= |db|
    ensures Rank(db, imsi, p) <= Rank(db, imsi, q)
    ensures p < q && Matches(db, imsi, p) ==> Rank(db, imsi, p) < Rank(db, imsi, q)
    decreases q
  {
    if p < q { RankMono(db, imsi, p, q - 1); }
  }

  /** Nothing is handed out exactly when the IMSI has no triplet; else the match of the cursor's rank is. */
  lemma {:induction false} PickRank(db: seq<Triplet>, imsi: string, pos: nat)
    requires pos <= |db|
    ensures Pick(db, imsi, pos).None? <==> Count(db, imsi) == 0
    ensures Pick(db, imsi, pos).None? <==> forall j :: 0 <= j < |db| ==> !Matches(db, imsi, j)
    ensures Pick(db, imsi, pos).Some? ==>
      var j := Pick(db, imsi, pos).value;
      && Matches(db, imsi, j)
      && Rank(db, imsi, j) == Rank(db, imsi, pos) % Count(db, imsi)
      && Rank(db, imsi, j + 1) == Rank(db, imsi, j) + 1
  {
    RankMono(db, imsi, pos, |db|);
    RankMono(db, imsi, 0, pos);
    forall j: nat | j < |db| && Matches(db, imsi, j) ensures Count(db, imsi) > 0 {
      RankMono(db, imsi, j, |db|);
    }
    var j := Pick(db, imsi, pos);
    if j.Some? {
      RankMono(db, imsi, j.value, |db|);
      AtMost(Rank(db, imsi, pos), Count(db, imsi));
    }
  }

  lemma AtMost(r: nat, m: nat)
    requires r <= m && m > 0
    ensures r % m == if r == m then 0 else r
  {
    if r < m { Small(r, m); }
  }

  /** The cursor after a call. */
  function AfterCall(db: seq<Triplet>, imsi: string, pos: nat): (r: nat)
    requires pos <= |db|
    ensures r <= |db|
  {
    var j := Pick(db, imsi, pos);
    if j.Some? then j.value + 1 else pos
  }

  /** The cursor after n calls for the IMSI, no call for another coming between. */
  function Cursor(db: seq<Triplet>, imsi: string, pos: nat, n: nat): (r: nat)
    requires pos <= |db|
    ensures r <= |db|
  {
    if n == 0 then pos else AfterCall(db, imsi, Cursor(db, imsi, pos, n - 1))
  }

  /** The n-th call, counted from 0. */
  function Call(db: seq<Triplet>, imsi: string, pos: nat, n: nat): Option<nat>
    requires pos <= |db|
  {
    Pick(db, imsi, Cursor(db, imsi, pos, n))
  }

  /** The n-th call hands out the match whose rank is n places further round the circle. */
  lemma {:induction false} CallRank(db: seq<Triplet>, imsi: string, pos: nat, n: nat)
    requires pos <= |db| && Count(db, imsi) > 0
    ensures Call(db, imsi, pos, n).Some? && Matches(db, imsi, Call(db, imsi, pos, n).value)
    ensures Rank(db, imsi, Call(db, imsi, pos, n).value) == (Rank(db, imsi, pos) + n) % Count(db, imsi)
    decreases n
  {
    hide Rank, Count, Pick;
    PickRank(db, imsi, Cursor(db, imsi, pos, n));
    if n > 0 {
      CallRank(db, imsi, pos, n - 1);
      PickRank(db, imsi, Cursor(db, imsi, pos, n - 1));
      var r := Rank(db, imsi, pos) + (n - 1);
      AddMod(r, 1, Count(db, imsi));
    }
  }

  /** Matches with the same rank are the same. */
  lemma {:induction false} RankInjective(db: seq<Triplet>, imsi: string, i: nat, j: nat)
    requires Matches(db, imsi, i) && Matches(db, imsi, j) && Rank(db, imsi, i) == Rank(db, imsi, j)
    ensures i == j
  {
    if i < j {
      RankMono(db, imsi, i, j);
    } else if j < i {
      RankMono(db, imsi, j, i);
    }
  }

  /** The only step below m that takes r to t on a circle of m places. */
  function Steps(r: nat, t: nat, m: nat): (n: nat)
    requires t < m
    ensures n < m
  {
    if r % m <= t then t - r % m else t + m - r % m
  }

  lemma {:induction false} StepsUnique(r: nat, t: nat, m: nat, n: nat)
    requires t < m && n < m
    ensures (r + n) % m == t <==> n == Steps(r, t, m)
  {
    var s := r % m;
    if s + n < m {
      DivUnique(r + n, m, r / m, s + n);
    } else {
      assert r + n == (r / m + 1) * m + (s + n - m);
      DivUnique(r + n, m, r / m + 1, s + n - m);
    }
  }

  /**
   * Fairness: among m consecutive calls for an IMSI with m triplets, from any cursor position, each of its triplets
   * is handed out by exactly one call, and nothing else is.
   */
  lemma {:induction false} EachExactlyOnce(db: seq<Triplet>, imsi: string, pos: nat, j: nat)
    requires pos <= |db| && Matches(db, imsi, j)
    ensures exists n: nat :: n < Count(db, imsi) && Call(db, imsi, pos, n) == Some(j)
    ensures forall n: nat, k: nat :: n < k < Count(db, imsi) ==>
      Call(db, imsi, pos, n) != Some(j) || Call(db, imsi, pos, k) != Some(j)
    ensures forall n: nat :: n < Count(db, imsi) ==>
      Call(db, imsi, pos, n).Some? && Matches(db, imsi, Call(db, imsi, pos, n).value)
  {
    RankMono(db, imsi, j, |db|);
    hide Rank, Pick, Cursor, Call;
    var m, r, t := Count(db, imsi), Rank(db, imsi, pos), Rank(db, imsi, j);
    forall n: nat | n < m
      ensures Call(db, imsi, pos, n).Some? && Matches(db, imsi, Call(db, imsi, pos, n).value)
      ensures Call(db, imsi, pos, n) == Some(j) <==> n == Steps(r, t, m)
    {
      CallRank(db, imsi, pos, n);
      StepsUnique(r, t, m, n);
      if n == Steps(r, t, m) { RankInjective(db, imsi, Call(db, imsi, pos, n).value, j); }
    }
    assert Call(db, imsi, pos, Steps(r, t, m)) == Some(j);
  }

  /* Calls for several IMSIs share the cursor. */

  /** The cursor after calls for these IMSIs, one after the other. */
  function CursorAfter(db: seq<Triplet>, pos: nat, calls: seq<string>): (r: nat)
    requires pos <= |db|
    ensures r <= |db|
    decreases |calls|
  {
    if calls == [] then pos else CursorAfter(db, AfterCall(db, calls[0], pos), calls[1..])
  }

  /** What the calls for one IMSI are handed out among these. */
  function Handed(db: seq<Triplet>, pos: nat, calls: seq<string>, imsi: string): seq<Option<nat>>
    requires pos <= |db|
    decreases |calls|
  {
    if calls == [] then []
    else
      (if calls[0] == imsi then [Pick(db, imsi, pos)] else [])
        + Handed(db, AfterCall(db, calls[0], pos), calls[1..], imsi)
  }

  /** Every triplet of the IMSI is handed out by exactly one of the calls, and nothing else is. */
  ghost predicate Fair(db: seq<Triplet>, imsi: string, out: seq<Option<nat>>) {
    && (forall i, k :: 0 <= i < k < |out| ==> out[i] != out[k])
    && (forall i :: 0 <= i < |out| ==> out[i].Some? && Matches(db, imsi, out[i].value))
    && (forall j: nat :: Matches(db, imsi, j) ==> Some(j) in out)
  }

  /** Whatever calls came before and whatever calls come between, as many calls as the IMSI has triplets are fair. */
  ghost predicate AlwaysFair(db: seq<Triplet>, imsi: string, pos: nat)
    requires pos <= |db|
  {
    forall before: seq<string>, calls: seq<string> ::
      var out := Handed(db, CursorAfter(db, pos, before), calls, imsi);
      |out| == Count(db, imsi) ==> Fair(db, imsi, out)
  }

  /** A call for an IMSI without triplets leaves the cursor alone. */
  lemma {:induction false} IdleCall(db: seq<Triplet>, imsi: string, pos: nat)
    requires pos <= |db| && forall j :: 0 <= j < |db| ==> db[j].imsi != imsi
    ensures AfterCall(db, imsi, pos) == pos
  {
    PickRank(db, imsi, pos);
  }

  /** Where every triplet is the IMSI's own, calls for others do not show. */
  lemma {:induction false} HandedAlone(db: seq<Triplet>, imsi: string, pos: nat, calls: seq<string>, n: nat, start: nat)
    requires start <= |db| && pos == Cursor(db, imsi, start, n)
    requires forall j :: 0 <= j < |db| ==> db[j].imsi == imsi
    ensures forall i :: 0 <= i < |Handed(db, pos, calls, imsi)| ==>
      Handed(db, pos, calls, imsi)[i] == Call(db, imsi, start, n + i)
    decreases |calls|
  {
    hide Pick, AfterCall;
    if calls != [] {
      if calls[0] == imsi {
        HandedAlone(db, imsi, AfterCall(db, imsi, pos), calls[1..], n + 1, start);
        assert Cursor(db, imsi, start, n + 1) == AfterCall(db, imsi, pos);
      } else {
        IdleCall(db, calls[0], pos);
        HandedAlone(db, imsi, pos, calls[1..], n, start);
      }
    }
  }

  lemma {:induction false} RankBelow(db: seq<Triplet>, imsi: string, p: nat)
    requires p <= |db|
    ensures Rank(db, imsi, p) <= p
    ensures Rank(db, imsi, p) == p <==> forall j :: 0 <= j < p ==> db[j].imsi == imsi
  {
    if p > 0 { RankBelow(db, imsi, p - 1); }
  }

  lemma {:induction false} CountAll(db: seq<Triplet>, imsi: string)
    ensures Count(db, imsi) <= |db|
    ensures Count(db, imsi) == |db| <==> forall j :: 0 <= j < |db| ==> db[j].imsi == imsi
  {
    RankBelow(db, imsi, |db|);
  }

  lemma {:induction false} HandedMatches(db: seq<Triplet>, imsi: string, pos: nat, calls: seq<string>)
    requires pos <= |db| && Count(db, imsi) > 0
    ensures forall i :: 0 <= i < |Handed(db, pos, calls, imsi)| ==>
      var r := Handed(db, pos, calls, imsi)[i];
      r.Some? && Matches(db, imsi, r.value)
    decreases |calls|
  {
    hide Pick, Rank, AfterCall;
    if calls != [] {
      PickRank(db, imsi, pos);
      HandedMatches(db, imsi, AfterCall(db, calls[0], pos), calls[1..]);
    }
  }

  /** Fair when the IMSI has all triplets. */
  lemma {:induction false} AloneIsFair(db: seq<Triplet>, imsi: string, pos: nat, calls: seq<string>)
    requires pos <= |db| && Count(db, imsi) == |db| && |Handed(db, pos, calls, imsi)| == Count(db, imsi)
    ensures Fair(db, imsi, Handed(db, pos, calls, imsi))
  {
    hide Handed, Call, Count;
    CountAll(db, imsi);
    HandedAlone(db, imsi, pos, calls, 0, pos);
    var out := Handed(db, pos, calls, imsi);
    forall i: nat | i < |out| ensures out[i].Some? && Matches(db, imsi, out[i].value) {
      CallRank(db, imsi, pos, i);
    }
    forall j: nat | Matches(db, imsi, j) ensures Some(j) in out {
      EachExactlyOnce(db, imsi, pos, j);
      var n: nat :| n < Count(db, imsi) && Call(db, imsi, pos, n) == Some(j);
      assert out[n] == Some(j);
    }
    forall i: nat, k: nat | i < k < |out| ensures out[i] != out[k] {
      CallsDiffer(db, imsi, pos, i, k);
    }
  }

  lemma {:induction false} CallsDiffer(db: seq<Triplet>, imsi: string, pos: nat, i: nat, k: nat)
    requires pos <= |db| && i < k < Count(db, imsi)
    ensures Call(db, imsi, pos, i) != Call(db, imsi, pos, k)
  {
    hide Call, Rank, Count;
    CallRank(db, imsi, pos, i);
    EachExactlyOnce(db, imsi, pos, Call(db, imsi, pos, i).value);
  }

  /** Fair when it has at most one. */
  lemma {:induction false} OneIsFair(db: seq<Triplet>, imsi: string, pos: nat, calls: seq<string>)
    requires pos <= |db| && Count(db, imsi) <= 1 && |Handed(db, pos, calls, imsi)| == Count(db, imsi)
    ensures Fair(db, imsi, Handed(db, pos, calls, imsi))
  {
    hide Handed;
    var out := Handed(db, pos, calls, imsi);
    forall j: nat | Matches(db, imsi, j) ensures Rank(db, imsi, j) == 0 && Count(db, imsi) == 1 {
      RankMono(db, imsi, j, |db|);
    }
    if Count(db, imsi) == 1 {
      HandedMatches(db, imsi, pos, calls);
      forall j: nat | Matches(db, imsi, j) ensures out[0] == Some(j) {
        RankInjective(db, imsi, j, out[0].value);
      }
    }
  }

  function Repeat(imsi: string, n: nat): (r: seq<string>)
    ensures |r| == n
  {
    if n == 0 then [] else [imsi] + Repeat(imsi, n - 1)
  }

  lemma {:induction false} CursorConcat(db: seq<Triplet>, pos: nat, a: seq<string>, b: seq<string>, imsi: string)
    requires pos <= |db|
    ensures CursorAfter(db, pos, a + b) == CursorAfter(db, CursorAfter(db, pos, a), b)
    ensures Handed(db, pos, a + b, imsi)
         == Handed(db, pos, a, imsi) + Handed(db, CursorAfter(db, pos, a), b, imsi)
    decreases |a|
  {
    hide Pick, AfterCall;
    if a == [] {
      assert a + b == b;
    } else {
      var next := AfterCall(db, a[0], pos);
      CursorConcat(db, next, a[1..], b, imsi);
      assert (a + b)[1..] == a[1..] + b && (a + b)[0] == a[0];
      var h := if a[0] == imsi then [Pick(db, imsi, pos)] else [];
      var x, y := Handed(db, next, a[1..], imsi), Handed(db, CursorAfter(db, next, a[1..]), b, imsi);
      assert Handed(db, pos, a + b, imsi) == h + (x + y);
      assert h + (x + y) == (h + x) + y;
    }
  }

  lemma {:induction false} RepeatCursor(db: seq<Triplet>, pos: nat, imsi: string, n: nat, start: nat, m: nat)
    requires start <= |db| && pos == Cursor(db, imsi, start, m)
    ensures CursorAfter(db, pos, Repeat(imsi, n)) == Cursor(db, imsi, start, m + n)
    decreases n
  {
    hide Pick, AfterCall;
    if n > 0 {
      var r := Repeat(imsi, n);
      assert r[0] == imsi && r[1..] == Repeat(imsi, n - 1);
      assert Cursor(db, imsi, start, m + 1) == AfterCall(db, imsi, pos);
      RepeatCursor(db, AfterCall(db, imsi, pos), imsi, n - 1, start, m + 1);
    }
  }

  lemma {:induction false} RepeatHands(db: seq<Triplet>, pos: nat, imsi: string, n: nat, other: string)
    requires pos <= |db|
    ensures |Handed(db, pos, Repeat(imsi, n), imsi)| == n
    ensures other != imsi ==> Handed(db, pos, Repeat(imsi, n), other) == []
    decreases n
  {
    hide Pick, AfterCall;
    if n > 0 {
      var r := Repeat(imsi, n);
      assert r[0] == imsi && r[1..] == Repeat(imsi, n - 1);
      RepeatHands(db, AfterCall(db, imsi, pos), imsi, n - 1, other);
    }
  }

  /** Enough calls for the IMSI of entry j, from anywhere, leave the cursor right behind j. */
  lemma {:induction false} ReachBehind(db: seq<Triplet>, pos: nat, j: nat) returns (n: nat)
    requires pos <= |db| && j < |db|
    ensures CursorAfter(db, pos, Repeat(db[j].imsi, n)) == j + 1
  {
    hide Pick, Count, Rank, CursorAfter, Repeat;
    var other := db[j].imsi;
    assert Matches(db, other, j);
    EachExactlyOnce(db, other, pos, j);
    var k: nat :| k < Count(db, other) && Call(db, other, pos, k) == Some(j);
    n := k + 1;
    assert Cursor(db, other, pos, n) == AfterCall(db, other, Cursor(db, other, pos, k)) == j + 1;
    RepeatCursor(db, pos, other, n, pos, 0);
  }

  /** With two triplets or more and a foreign one, some run hands the same triplet out twice in a row. */
  lemma {:induction false} ForeignIsUnfair(db: seq<Triplet>, imsi: string, pos: nat)
    returns (before: seq<string>, calls: seq<string>)
    requires pos <= |db| && 2 <= Count(db, imsi) < |db|
    ensures var out := Handed(db, CursorAfter(db, pos, before), calls, imsi);
      |out| == Count(db, imsi) && out[0] == out[1]
  {
    hide Handed, CursorAfter, Count, Repeat, Pick;
    CountAll(db, imsi);
    var j: nat :| j < |db| && db[j].imsi != imsi;
    var other := db[j].imsi;
    var n := ReachBehind(db, pos, j);
    before := Repeat(other, n);
    PickRank(db, imsi, j + 1);
    var p := Pick(db, imsi, j + 1);
    var back := ReachBehind(db, p.value + 1, j);
    var m := Count(db, imsi);
    calls := [imsi] + Repeat(other, back) + Repeat(imsi, m - 1);
    TwiceInARow(db, imsi, other, j, back, m - 1);
  }

  lemma {:induction false} TwiceInARow(db: seq<Triplet>, imsi: string, other: string, j: nat, back: nat, rest: nat)
    requires j < |db| && imsi != other && rest >= 1 && Pick(db, imsi, j + 1).Some?
    requires CursorAfter(db, Pick(db, imsi, j + 1).value + 1, Repeat(other, back)) == j + 1
    ensures var out := Handed(db, j + 1, [imsi] + Repeat(other, back) + Repeat(imsi, rest), imsi);
      |out| == rest + 1 && out[0] == out[1]
  {
    var p := Pick(db, imsi, j + 1).value + 1;
    assert AfterCall(db, imsi, j + 1) == p;
    hide Pick, AfterCall;
    var first, tail := [imsi], Repeat(other, back) + Repeat(imsi, rest);
    assert [imsi] + Repeat(other, back) + Repeat(imsi, rest) == first + tail;
    CursorConcat(db, j + 1, first, tail, imsi);
    CursorConcat(db, p, Repeat(other, back), Repeat(imsi, rest), imsi);
    RepeatHands(db, p, other, back, imsi);
    RepeatHands(db, j + 1, imsi, rest, other);
    assert first[1..] == [];
    assert Handed(db, j + 1, first, imsi) == [Pick(db, imsi, j + 1)];
    assert CursorAfter(db, j + 1, first) == p;
    assert Repeat(imsi, rest)[0] == imsi;
    assert Handed(db, j + 1, Repeat(imsi, rest), imsi)[0] == Pick(db, imsi, j + 1);
  }

  /**
   * Fairness with the shared cursor, from any cursor position: it survives every interleaving with other IMSIs if
   * and only if the IMSI has at most one triplet or all of them.
   */
  lemma {:induction false} FairIffAlone(db: seq<Triplet>, imsi: string, pos: nat)
    requires pos <= |db|
    ensures AlwaysFair(db, imsi, pos) <==> Count(db, imsi) <= 1 || Count(db, imsi) == |db|
  {
    CountAll(db, imsi);
    hide Count, Handed, CursorAfter;
    if Count(db, imsi) <= 1 || Count(db, imsi) == |db| {
      forall before: seq<string>, calls: seq<string>
        | |Handed(db, CursorAfter(db, pos, before), calls, imsi)| == Count(db, imsi)
        ensures Fair(db, imsi, Handed(db, CursorAfter(db, pos, before), calls, imsi))
      {
        var c := CursorAfter(db, pos, before);
        if Count(db, imsi) <= 1 { OneIsFair(db, imsi, c, calls); } else { AloneIsFair(db, imsi, c, calls); }
      }
    } else {
      var before, calls := ForeignIsUnfair(db, imsi, pos);
      var out := Handed(db, CursorAfter(db, pos, before), calls, imsi);
      assert !Fair(db, imsi, out);
    }
  }

  /** An instance: two IMSIs taking turns, and the first triplet of one is passed over for ever. */
  lemma {:induction false} InterleavingStarves(a1: Triplet, b: Triplet, a2: Triplet, n: nat)
    requires a1.imsi == a2.imsi != b.imsi
    ensures var db := [a1, b, a2];
      Alternate(db, b.imsi, a1.imsi, 1, n) == 3 || n == 0
    ensures var db := [a1, b, a2];
      Pick(db, a1.imsi, AfterCall(db, b.imsi, Alternate(db, b.imsi, a1.imsi, 1, n))) == Some(2)
  {
    var db := [a1, b, a2];
    assert FirstIn(db, b.imsi, 3, 3) == None;
    assert FirstIn(db, b.imsi, 1, 3) == Some(1);
    assert FirstIn(db, b.imsi, 0, 3) == FirstIn(db, b.imsi, 1, 3);
    assert FirstIn(db, a1.imsi, 2, 3) == Some(2);
    if n > 0 { InterleavingStarves(a1, b, a2, n - 1); }
  }

  /** The cursor after n pairs of calls, one for each IMSI. */
  function Alternate(db: seq<Triplet>, first: string, second: string, pos: nat, n: nat): (r: nat)
    requires pos <= |db|
    ensures r <= |db|
  {
    if n == 0 then pos
    else AfterCall(db, second, AfterCall(db, first, Alternate(db, first, second, pos, n - 1)))
  }

  class GsmDb {
    const db: seq<Triplet>
    var pos: nat

    /** Position |db| stands for a cursor that is NULL. */
    ghost predicate Valid()
      reads this
    {
      pos <= |db|
    }

    constructor (db: seq<Triplet>)
      ensures Valid() && this.db == db && pos == |db|
    {
      this.db := db;
      pos := |db|;
    }

    /** get_gsm_triplet */
    method GetGsmTriplet(imsi: string) returns (r: Option<Triplet>)
      requires Valid()
      modifies this`pos
      ensures Valid()
      ensures r.None? <==> Pick(db, imsi, old(pos)).None?
      ensures r.Some? ==> r.value == db[Pick(db, imsi, old(pos)).value]
      ensures pos == AfterCall(db, imsi, old(pos))
      ensures r.None? <==> forall j :: 0 <= j < |db| ==> db[j].imsi != imsi
    {
      PickRank(db, imsi, pos);
      hide Rank, Count;
      var g := pos;
      while g < |db|
        invariant pos <= g <= |db| && pos == old(pos)
        invariant FirstIn(db, imsi, pos, |db|) == FirstIn(db, imsi, g, |db|)
      {
        if db[g].imsi == imsi {
          pos := g + 1;
          return Some(db[g]);
        }
        g := g + 1;
      }
      g := 0;
      while g < |db| && g != pos
        invariant g <= pos && pos == old(pos)
        invariant FirstIn(db, imsi, 0, pos) == FirstIn(db, imsi, g, pos)
      {
        if db[g].imsi == imsi {
          pos := g + 1;
          return Some(db[g]);
        }
        g := g + 1;
      }
      assert forall j :: 0 <= j < |db| ==> (Matches(db, imsi, j) <==> db[j].imsi == imsi);
      return None;
    }
  }
}
