/** Channel state and channel choice of dfs.c, and why re-selection settles and radar channels stay blocked. */
module DfsSpec {
  import opened Options

  datatype DfsState = Unknown | Usable | Unavailable | Available

  datatype Channel = Channel(freq: int, chan: int, disabled: bool, radar: bool, dfs: DfsState)

  datatype Width = UseHt | Mhz80 | Mhz160 | Mhz80p80 | OtherWidth

  datatype Range = Range(min: int, max: int)

  datatype Conf = Conf(n: bool, ac: bool, secondary: int, width: Width,
                       channel: int, seg0: int, seg1: int, chanlist: seq<Range>)

  /** dfs_get_used_n_chans: 20 MHz channels used by the (first) segment. */
  function UsedChans(c: Conf): (n: nat)
    ensures n in {1, 2, 4, 8}
    ensures c.ac && c.width == Mhz160 ==> 20 * n == 160
    ensures c.ac && c.width in {Mhz80, Mhz80p80} ==> 20 * n == 80
    ensures !c.ac || c.width in {UseHt, OtherWidth} ==> 20 * n == if c.n && c.secondary != 0 then 40 else 20
  {
    if c.ac && c.width == Mhz80 then 4
    else if c.ac && c.width == Mhz160 then 8
    else if c.ac && c.width == Mhz80p80 then 4
    else if c.n && c.secondary != 0 then 2
    else 1
  }

  /** dfs_channel_available */
  predicate ChannelAvailable(ch: Channel, skipRadar: bool) {
    && !(skipRadar && ch.radar && ch.dfs != Available)
    && !ch.disabled
    && !(ch.radar && ch.dfs == Unavailable)
  }

  const ALLOWED_40 := [36, 44, 52, 60, 100, 108, 116, 124, 132, 149, 157, 184, 192]
  const ALLOWED_80 := [36, 52, 100, 116, 132, 149]
  const ALLOWED_160 := [36, 100]

  /** dfs_is_chan_allowed */
  predicate ChanAllowed(ch: Channel, n: nat) {
    (n == 2 && ch.chan in ALLOWED_40) || (n == 4 && ch.chan in ALLOWED_80) || (n == 8 && ch.chan in ALLOWED_160)
  }

  /** dfs_get_chan_data: the first channel at this frequency from index i on. */
  function ChanData(chs: seq<Channel>, freq: int, i: nat): (r: Option<nat>)
    requires i <= |chs|
    ensures r.Some? ==> i <= r.value < |chs| && chs[r.value].freq == freq
    ensures r.None? ==> forall k :: i <= k < |chs| ==> chs[k].freq != freq
    decreases |chs| - i
  {
    if i == |chs| then None
    else if chs[i].freq == freq then Some(i)
    else ChanData(chs, freq, i + 1)
  }

  /** The channel found k times 20 MHz above channel i. */
  function SubChannel(chs: seq<Channel>, i: nat, k: nat): (r: Option<nat>)
    requires i < |chs|
    ensures r.Some? ==> i <= r.value < |chs|
  {
    ChanData(chs, chs[i].freq + k * 20, i)
  }

  /** Sub-channel k of the range that starts at channel i exists and is available. */
  predicate SubAvailable(chs: seq<Channel>, i: nat, k: nat, skipRadar: bool)
    requires i < |chs|
  {
    var r := SubChannel(chs, i, k);
    r.Some? && ChannelAvailable(chs[r.value], skipRadar)
  }

  /** dfs_chan_range_available */
  predicate RangeAvailable(chs: seq<Channel>, i: nat, n: nat, skipRadar: bool)
    requires i < |chs|
  {
    i + n <= |chs| && forall k :: 0 <= k < n ==> SubAvailable(chs, i, k, skipRadar)
  }

  /** is_in_chanlist */
  predicate InChanlist(c: Conf, ch: Channel) {
    c.chanlist == [] || exists r :: r in c.chanlist && r.min <= ch.chan <= r.max
  }

  /** The tests that the counting and the picking pass of dfs_find_channel apply to channel i. */
  predicate Candidate(c: Conf, chs: seq<Channel>, i: nat, skipRadar: bool)
    requires i < |chs|
  {
    && (c.n && c.secondary != 0 ==> ChanAllowed(chs[i], UsedChans(c)))
    && RangeAvailable(chs, i, UsedChans(c), skipRadar)
    && InChanlist(c, chs[i])
  }

  /** All candidates among the first m channels, in table order. */
  function Candidates(c: Conf, chs: seq<Channel>, skipRadar: bool, m: nat): (r: seq<nat>)
    requires m <= |chs|
    ensures forall k :: 0 <= k < |r| ==> r[k] < m && Candidate(c, chs, r[k], skipRadar)
  {
    if m == 0 then []
    else Candidates(c, chs, skipRadar, m - 1) + if Candidate(c, chs, m - 1, skipRadar) then [m - 1] else []
  }

  /** The list holds every candidate exactly once, in increasing order. */
  lemma {:induction false} CandidatesComplete(c: Conf, chs: seq<Channel>, skipRadar: bool, m: nat)
    requires m <= |chs|
    ensures var r := Candidates(c, chs, skipRadar, m);
      && (forall i :: 0 <= i < m ==> (i in r <==> Candidate(c, chs, i, skipRadar)))
      && (forall j, k :: 0 <= j < k < |r| ==> r[j] < r[k])
    decreases m
  {
    hide Candidate;
    if m > 0 { CandidatesComplete(c, chs, skipRadar, m - 1); }
  }

  /** The channel configuration written back after channel i has been chosen. */
  function Retune(c: Conf, ch: Channel): Conf {
    var sec := if c.secondary != 0 then 1 else 0;
    var seg0 :=
      if !c.ac then 0
      else match c.width
        case UseHt => (if sec == 1 then ch.chan + 2 else ch.chan) % 256
        case Mhz80 => (ch.chan + 6) % 256
        case Mhz160 => (ch.chan + 14) % 256
        case _ => 0;
    c.(channel := ch.chan, secondary := sec, seg0 := seg0, seg1 := 0)
  }

  /** Channel number that dfs_get_start_chan_idx looks for, and that of the second segment. */
  function StartNo(c: Conf): int {
    if !c.ac || c.width == UseHt then c.channel - (if c.n && c.secondary == -1 then 4 else 0)
    else match c.width
      case Mhz80 => c.seg0 - 6
      case Mhz160 => c.seg0 - 14
      case Mhz80p80 => c.seg0 - 6
      case _ => -1
  }

  function Seg1No(c: Conf): int {
    if c.ac && c.width == Mhz80p80 then c.seg1 - 6 else -1
  }

  function ChanIndex(chs: seq<Channel>, no: int, i: nat): (r: Option<nat>)
    requires i <= |chs|
    ensures r.Some? ==> i <= r.value < |chs| && chs[r.value].chan == no
    ensures r.Some? ==> forall k :: i <= k < r.value ==> chs[k].chan != no
    ensures r.None? ==> forall k :: i <= k < |chs| ==> chs[k].chan != no
    decreases |chs| - i
  {
    if i == |chs| then None
    else if chs[i].chan == no then Some(i)
    else ChanIndex(chs, no, i + 1)
  }

  /** dfs_get_start_chan_idx; None stands for -1. */
  function StartIdx(c: Conf, chs: seq<Channel>): (r: Option<nat>)
    ensures r.Some? ==> r.value < |chs| && chs[r.value].chan == StartNo(c)
  {
    var r := ChanIndex(chs, StartNo(c), 0);
    if r.Some? && Seg1No(c) > -1 && ChanIndex(chs, Seg1No(c), 0).None? then None else r
  }

  predicate SomeRadar(chs: seq<Channel>, s: nat, n: nat)
    requires s + n <= |chs|
  {
    exists i :: s <= i < s + n && chs[i].radar
  }

  /** dfs_check_chans_available */
  predicate AllAvailable(chs: seq<Channel>, s: nat, n: nat)
    requires s + n <= |chs|
  {
    forall i :: s <= i < s + n ==> !chs[i].disabled && (chs[i].radar ==> chs[i].dfs == Available)
  }

  /** dfs_check_chans_unavailable finds something. */
  predicate SomeUnavailable(chs: seq<Channel>, s: nat, n: nat)
    requires s + n <= |chs|
  {
    exists i :: s <= i < s + n && (chs[i].disabled || chs[i].dfs == Unavailable)
  }

  datatype Verdict = BadChannel | Proceed | StartCac | Reselect

  /** The configured range lies inside the channel table; the source reads it without a bounds check. */
  predicate InTable(c: Conf, chs: seq<Channel>) {
    StartIdx(c, chs).Some? ==> StartIdx(c, chs).value + UsedChans(c) <= |chs|
  }

  /** One pass of the loop of hostapd_handle_dfs. */
  function Pass(c: Conf, chs: seq<Channel>): Verdict
    requires InTable(c, chs)
  {
    if StartIdx(c, chs).None? then BadChannel
    else
      var s, n := StartIdx(c, chs).value, UsedChans(c);
      if !SomeRadar(chs, s, n) then Proceed
      else if AllAvailable(chs, s, n) then Proceed
      else if SomeUnavailable(chs, s, n) then Reselect
      else StartCac
  }

  // ---- re-selection settles ----

  /** Frequencies rise in steps of at least 20 MHz. */
  predicate FreqOk(chs: seq<Channel>) {
    forall i, j :: 0 <= i < j < |chs| ==> chs[i].freq + 20 * (j - i) <= chs[j].freq
  }

  /** Channel numbers are distinct and leave room for the centre offset in an octet. */
  predicate NumbersOk(chs: seq<Channel>) {
    && (forall i :: 0 <= i < |chs| ==> 0 < chs[i].chan < 242)
    && (forall i, j :: 0 <= i < j < |chs| ==> chs[i].chan != chs[j].chan)
  }

  /** Only channels that require radar detection are ever marked unavailable. */
  predicate MarksOk(chs: seq<Channel>) {
    forall i :: 0 <= i < |chs| ==> chs[i].dfs == Unavailable ==> chs[i].radar
  }

  predicate TableOk(chs: seq<Channel>) {
    FreqOk(chs) && NumbersOk(chs) && MarksOk(chs)
  }

  /** The sub-channels that the search finds by frequency are the next ones of the table. */
  lemma {:induction false} FrequencyIsIndex(chs: seq<Channel>, i: nat, n: nat, k: nat)
    requires FreqOk(chs) && i < |chs| && i + n <= |chs| && k < n
    requires forall l :: 0 <= l < n ==> SubChannel(chs, i, l).Some?
    ensures SubChannel(chs, i, k) == Some(i + k)
    decreases k
  {
    var r := SubChannel(chs, i, k);
    assert r.value <= i + k;
    if k > 0 { FrequencyIsIndex(chs, i, n, k - 1); }
  }

  lemma {:induction false} RangeByIndex(chs: seq<Channel>, i: nat, n: nat, skipRadar: bool)
    requires FreqOk(chs) && i < |chs| && RangeAvailable(chs, i, n, skipRadar)
    ensures forall m :: i <= m < i + n ==>
      ChannelAvailable(chs[m], skipRadar) && chs[m].freq == chs[i].freq + (m - i) * 20
  {
    forall m | i <= m < i + n
      ensures ChannelAvailable(chs[m], skipRadar) && chs[m].freq == chs[i].freq + (m - i) * 20
    {
      assert forall l :: 0 <= l < n && !SubChannel(chs, i, l).Some? ==> !SubAvailable(chs, i, l, skipRadar);
      FrequencyIsIndex(chs, i, n, m - i);
      assert SubAvailable(chs, i, m - i, skipRadar);
    }
  }

  /** The test that the search applies, on the table's entries: a run of usable channels at 20 MHz steps. */
  predicate Selectable(c: Conf, chs: seq<Channel>, m: nat, skipRadar: bool) {
    var n := UsedChans(c);
    && m + n <= |chs|
    && (forall k :: m <= k < m + n ==>
          && chs[k].freq == chs[m].freq + 20 * (k - m)
          && !chs[k].disabled
          && !(chs[k].radar && chs[k].dfs == Unavailable)
          && !(skipRadar && chs[k].radar && chs[k].dfs != Available))
    && (c.n && c.secondary != 0 ==>
          match n
          case 2 => chs[m].chan in {36, 44, 52, 60, 100, 108, 116, 124, 132, 149, 157, 184, 192}
          case 4 => chs[m].chan in {36, 52, 100, 116, 132, 149}
          case _ => chs[m].chan in {36, 100})
    && (c.chanlist == [] ||
          exists j :: 0 <= j < |c.chanlist| && c.chanlist[j].min <= chs[m].chan <= c.chanlist[j].max)
  }

  lemma {:induction false} ChanDataAt(chs: seq<Channel>, i: nat, j: nat)
    requires FreqOk(chs) && i <= j < |chs|
    ensures ChanData(chs, chs[j].freq, i) == Some(j)
  {
    hide ChanData;
    var r := ChanData(chs, chs[j].freq, i);
    assert r.Some? && !(r.value < j) && !(j < r.value);
  }

  /** What makes a channel a candidate, said of the entries alone. */
  lemma {:induction false} CandidateIsSelectable(c: Conf, chs: seq<Channel>, m: nat, skipRadar: bool)
    requires FreqOk(chs) && m < |chs|
    ensures Candidate(c, chs, m, skipRadar) <==> Selectable(c, chs, m, skipRadar)
  {
    hide ChanData;
    var n := UsedChans(c);
    if RangeAvailable(chs, m, n, skipRadar) { RangeByIndex(chs, m, n, skipRadar); }
    if Selectable(c, chs, m, skipRadar) {
      forall k | 0 <= k < n ensures SubAvailable(chs, m, k, skipRadar) {
        ChanDataAt(chs, m, m + k);
        assert chs[m + k].freq == chs[m].freq + 20 * (m + k - m);
      }
    }
    ListedByIndex(c, chs[m]);
    hide RangeAvailable, FreqOk, InChanlist;
  }

  lemma {:induction false} ListedByIndex(c: Conf, ch: Channel)
    ensures InChanlist(c, ch) <==>
      (c.chanlist == [] || exists j :: 0 <= j < |c.chanlist| && c.chanlist[j].min <= ch.chan <= c.chanlist[j].max)
  {
    if InChanlist(c, ch) && c.chanlist != [] {
      var r :| r in c.chanlist && r.min <= ch.chan <= r.max;
      var j :| 0 <= j < |c.chanlist| && c.chanlist[j] == r;
    }
  }

  /** Re-tuning: the control channel is the chosen one, the centre the middle of the range that begins there. */
  lemma {:induction false} RetuneMeans(c: Conf, ch: Channel)
    requires 0 < ch.chan < 242
    ensures var c' := Retune(c, ch);
      && c'.channel == ch.chan && (c'.secondary == if c.secondary == 0 then 0 else 1) && c'.seg1 == 0
      && (c'.n, c'.ac, c'.width, c'.chanlist) == (c.n, c.ac, c.width, c.chanlist)
      && (c.ac && c.width == Mhz80 ==> 2 * c'.seg0 == ch.chan + (ch.chan + 3 * 4))
      && (c.ac && c.width == Mhz160 ==> 2 * c'.seg0 == ch.chan + (ch.chan + 7 * 4))
      && (c.ac && c.width == UseHt && c.secondary != 0 ==> 2 * c'.seg0 == ch.chan + (ch.chan + 4))
      && (c.ac && c.width == UseHt && c.secondary == 0 ==> c'.seg0 == ch.chan)
  {
  }

  /** Where a configured range begins: the centre is its middle, and for HT40- the control channel its top. */
  lemma {:induction false} StartMeans(c: Conf)
    ensures c.ac && c.width in {Mhz80, Mhz80p80} ==> 2 * c.seg0 == StartNo(c) + (StartNo(c) + 3 * 4)
    ensures c.ac && c.width == Mhz160 ==> 2 * c.seg0 == StartNo(c) + (StartNo(c) + 7 * 4)
    ensures !c.ac || c.width == UseHt ==> c.channel == StartNo(c) + if c.n && c.secondary == -1 then 4 else 0
    ensures c.ac && c.width == Mhz80p80 ==> 2 * c.seg1 == Seg1No(c) + (Seg1No(c) + 3 * 4)
  {
  }

  /** Where the range is found: the first channel of that number, if for 80+80 MHz the second segment exists as well. */
  lemma {:induction false} StartFound(c: Conf, chs: seq<Channel>)
    ensures var r := StartIdx(c, chs);
      && (r.Some? <==>
            && (exists i :: 0 <= i < |chs| && chs[i].chan == StartNo(c))
            && (c.ac && c.width == Mhz80p80 && c.seg1 >= 6 ==> exists j :: 0 <= j < |chs| && chs[j].chan + 6 == c.seg1))
      && (r.Some? ==> forall k :: 0 <= k < r.value ==> chs[k].chan != StartNo(c))
  {
    hide ChanIndex, StartNo;
    if c.ac && c.width == Mhz80p80 {
      assert forall j :: 0 <= j < |chs| ==> (chs[j].chan + 6 == c.seg1 <==> chs[j].chan == Seg1No(c));
    }
  }

  /** The new configuration's range starts at the chosen channel, unless it is 80+80 MHz, which finds no channel. */
  lemma {:induction false} RetunedStart(c: Conf, chs: seq<Channel>, i: nat)
    requires NumbersOk(chs) && i < |chs|
    ensures UsedChans(Retune(c, chs[i])) == UsedChans(c)
    ensures StartIdx(Retune(c, chs[i]), chs) == if c.ac && c.width in {Mhz80p80, OtherWidth} then None else Some(i)
  {
  }

  /**
   * The range of channel i needs a CAC and holds a non-radar channel that carries a stale unavailable mark; the
   * widths that find no channel after re-selection do not come to that.
   */
  predicate Stale(c: Conf, chs: seq<Channel>, i: nat) {
    var n := UsedChans(c);
    && i + n <= |chs| && !(c.ac && c.width in {Mhz80p80, OtherWidth})
    && SomeRadar(chs, i, n) && !AllAvailable(chs, i, n)
    && exists k :: i <= k < i + n && !chs[k].radar && chs[k].dfs == Unavailable
  }

  /** With channel i chosen, the next pass re-selects again exactly when its range is stale. */
  lemma {:induction false} ReselectAgain(c: Conf, chs: seq<Channel>, i: nat, skipRadar: bool)
    requires FreqOk(chs) && NumbersOk(chs) && i < |chs| && Candidate(c, chs, i, skipRadar)
    ensures InTable(Retune(c, chs[i]), chs)
    ensures Pass(Retune(c, chs[i]), chs) == Reselect <==> Stale(c, chs, i)
  {
    RetunedStart(c, chs, i);
    RangeByIndex(chs, i, UsedChans(c), skipRadar);
    hide FreqOk, NumbersOk, Retune, StartIdx;
  }

  /** With only radar channels marked, one re-selection always suffices. */
  lemma {:induction false} ReselectSettles(c: Conf, chs: seq<Channel>, i: nat, skipRadar: bool)
    requires TableOk(chs) && i < |chs| && Candidate(c, chs, i, skipRadar)
    ensures InTable(Retune(c, chs[i]), chs) && Pass(Retune(c, chs[i]), chs) != Reselect
  {
    hide InTable, Pass, Retune, StartIdx, SomeRadar, AllAvailable, FreqOk, NumbersOk, UsedChans;
    ReselectAgain(c, chs, i, skipRadar);
  }

  // ---- the whole loop ----

  /** Left with a verdict, still re-selecting when the random numbers are used up, or reading outside the table. */
  datatype Outcome = Settled(verdict: Verdict, conf: Conf) | Reselecting(conf: Conf) | Outside(conf: Conf)

  /** The loop of hostapd_handle_dfs, each re-selection taking the next random number. */
  function Loop(c: Conf, chs: seq<Channel>, modeA: bool, draws: seq<nat>): Outcome
    decreases |draws|
  {
    if !InTable(c, chs) then Outside(c)
    else if Pass(c, chs) != Reselect then Settled(Pass(c, chs), c)
    else
      var r := Candidates(c, chs, false, |chs|);
      if !modeA || r == [] then Settled(BadChannel, c)
      else if draws == [] then Reselecting(c)
      else Loop(Retune(c, chs[r[draws[0] % |r|]]), chs, modeA, draws[1..])
  }

  /** Re-tuning changes nothing that candidates or stale ranges depend on. */
  lemma {:induction false} RetuneKeeps(c: Conf, chs: seq<Channel>, ch: Channel, i: nat, skipRadar: bool)
    requires i < |chs|
    ensures Candidate(Retune(c, ch), chs, i, skipRadar) <==> Candidate(c, chs, i, skipRadar)
    ensures Stale(Retune(c, ch), chs, i) <==> Stale(c, chs, i)
  {
    hide RangeAvailable, ChanAllowed, SomeRadar, AllAvailable;
    assert UsedChans(Retune(c, ch)) == UsedChans(c);
  }

  lemma {:induction false} CandidatesKept(c: Conf, chs: seq<Channel>, ch: Channel, skipRadar: bool, m: nat)
    requires m <= |chs|
    ensures Candidates(Retune(c, ch), chs, skipRadar, m) == Candidates(c, chs, skipRadar, m)
    decreases m
  {
    hide Candidate, Retune, Stale;
    if m > 0 {
      CandidatesKept(c, chs, ch, skipRadar, m - 1);
      RetuneKeeps(c, chs, ch, m - 1, skipRadar);
    }
  }

  /** The candidate that a random number picks. */
  function Drawn(r: seq<nat>, d: nat): nat
    requires r != []
  {
    r[d % |r|]
  }

  /** The loop is still running after these draws exactly when it began and every draw picked a stale candidate. */
  lemma {:induction false} LoopExact(c: Conf, chs: seq<Channel>, modeA: bool, draws: seq<nat>)
    requires FreqOk(chs) && NumbersOk(chs) && InTable(c, chs)
    ensures !Loop(c, chs, modeA, draws).Outside?
    ensures var r := Candidates(c, chs, false, |chs|);
      Loop(c, chs, modeA, draws).Reselecting? <==>
        (Pass(c, chs) == Reselect && modeA && r != []
        && forall k :: 0 <= k < |draws| ==> Stale(c, chs, Drawn(r, draws[k])))
    decreases |draws|
  {
    hide Candidate, Candidates, Pass, InTable, Retune, Stale, FreqOk, NumbersOk;
    var r := Candidates(c, chs, false, |chs|);
    if Pass(c, chs) == Reselect && modeA && r != [] && draws != [] {
      var i := Drawn(r, draws[0]);
      var c', tail := Retune(c, chs[i]), draws[1..];
      ReselectAgain(c, chs, i, false);
      CandidatesKept(c, chs, chs[i], false, |chs|);
      LoopExact(c', chs, modeA, tail);
      forall k | 0 <= k < |tail|
        ensures tail[k] == draws[k + 1]
        ensures Stale(c', chs, Drawn(r, tail[k])) <==> Stale(c, chs, Drawn(r, tail[k]))
      {
        RetuneKeeps(c, chs, chs[i], Drawn(r, tail[k]), false);
      }
      assert forall k :: 1 <= k < |draws| ==> draws[k] == tail[k - 1];
    }
  }

  lemma {:induction false} EveryDraw(r: seq<nat>, k: nat)
    requires k < |r|
    ensures Drawn(r, k) == r[k]
  {
    assert k % |r| == k;
  }

  ghost predicate SomeStale(c: Conf, chs: seq<Channel>, r: seq<nat>) {
    exists k :: 0 <= k < |r| && Stale(c, chs, r[k])
  }

  ghost predicate AllStale(c: Conf, chs: seq<Channel>, r: seq<nat>) {
    forall k :: 0 <= k < |r| ==> Stale(c, chs, r[k])
  }

  /** One re-selection suffices whatever is drawn, if and only if none is due or no candidate is stale. */
  lemma {:induction false} SettlesInOne(c: Conf, chs: seq<Channel>, modeA: bool)
    requires FreqOk(chs) && NumbersOk(chs) && InTable(c, chs)
    ensures (forall d: nat :: Loop(c, chs, modeA, [d]).Settled?) <==>
      (Pass(c, chs) != Reselect || !modeA || !SomeStale(c, chs, Candidates(c, chs, false, |chs|)))
  {
    hide Candidate, Candidates, Pass, InTable, Retune, Stale, FreqOk, NumbersOk, Loop;
    var r := Candidates(c, chs, false, |chs|);
    forall d: nat ensures Loop(c, chs, modeA, [d]).Settled? <==>
      !(Pass(c, chs) == Reselect && modeA && r != [] && Stale(c, chs, Drawn(r, d)))
    {
      LoopExact(c, chs, modeA, [d]);
      assert [d][0] == d;
    }
    if Pass(c, chs) == Reselect && modeA && SomeStale(c, chs, r) {
      var k: nat :| k < |r| && Stale(c, chs, r[k]);
      EveryDraw(r, k);
      assert !Loop(c, chs, modeA, [k]).Settled?;
    }
  }

  /** No sequence of draws ends the loop, if and only if it starts re-selecting and all there is to pick is stale. */
  lemma {:induction false} NeverSettles(c: Conf, chs: seq<Channel>, modeA: bool)
    requires FreqOk(chs) && NumbersOk(chs) && InTable(c, chs)
    ensures var r := Candidates(c, chs, false, |chs|);
      (forall draws: seq<nat> :: Loop(c, chs, modeA, draws).Reselecting?) <==>
        (Pass(c, chs) == Reselect && modeA && r != [] && AllStale(c, chs, r))
  {
    hide Candidate, Candidates, Pass, InTable, Retune, Stale, FreqOk, NumbersOk, Loop;
    var r := Candidates(c, chs, false, |chs|);
    if Pass(c, chs) == Reselect && modeA && r != [] && AllStale(c, chs, r) {
      forall draws: seq<nat> ensures Loop(c, chs, modeA, draws).Reselecting? {
        LoopExact(c, chs, modeA, draws);
      }
    } else if Pass(c, chs) == Reselect && modeA && r != [] {
      var k: nat :| k < |r| && !Stale(c, chs, r[k]);
      EveryDraw(r, k);
      LoopExact(c, chs, modeA, [k]);
      assert [k][0] == k && !Loop(c, chs, modeA, [k]).Reselecting?;
    } else {
      LoopExact(c, chs, modeA, []);
      assert !Loop(c, chs, modeA, []).Reselecting?;
    }
  }

  /** With only radar channels marked the loop ends after at most one draw. */
  lemma {:induction false} TableOkSettles(c: Conf, chs: seq<Channel>, modeA: bool, draws: seq<nat>)
    requires TableOk(chs) && InTable(c, chs) && draws != []
    ensures Loop(c, chs, modeA, draws).Settled?
  {
    hide Candidate, Candidates, Pass, InTable, Retune, FreqOk, NumbersOk, Loop, Stale;
    LoopExact(c, chs, modeA, draws);
    var r := Candidates(c, chs, false, |chs|);
    if r != [] { NothingStale(c, chs, Drawn(r, draws[0])); }
  }

  lemma {:induction false} NothingStale(c: Conf, chs: seq<Channel>, i: nat)
    requires MarksOk(chs)
    ensures !Stale(c, chs, i)
  {
  }

  // ---- radar, CAC and NOP events ----

  datatype ChanWidth = W20 | W40 | W80 | W160 | WOther

  /** Where an event was reported: control frequency, width and centre frequency. */
  datatype Spot = Spot(freq: int, width: ChanWidth, cf1: int)

  function FirstFreq(e: Spot): int {
    match e.width
    case W20 => if e.freq == 0 then e.cf1 else e.freq
    case W40 => e.cf1 - 10
    case W80 => e.cf1 - 30
    case W160 => e.cf1 - 70
    case WOther => e.freq
  }

  function SpotChans(e: Spot): (n: nat) {
    match e.width case W40 => 2 case W80 => 4 case W160 => 8 case _ => 1
  }

  /** Frequency f is one of the n sub-channels from freq on. */
  predicate Within(freq: int, n: nat, f: int) {
    exists k :: 0 <= k < n && f == freq + k * 20
  }

  /**
   * A 20 MHz channel at frequency f lies in the event's band: for the wide ones inside w MHz around the centre, on the
   * grid of 20 MHz channels; for 20 MHz at the reported frequency, or at the centre when none is reported.
   */
  predicate InBand(e: Spot, f: int) {
    match e.width
    case W20 => f == if e.freq != 0 then e.freq else e.cf1
    case W40 => OnGrid(e.cf1, 40, f)
    case W80 => OnGrid(e.cf1, 80, f)
    case W160 => OnGrid(e.cf1, 160, f)
    case WOther => f == e.freq
  }

  predicate OnGrid(centre: int, w: int, f: int) {
    centre - w / 2 <= f - 10 && f + 10 <= centre + w / 2 && (f - (centre - w / 2 + 10)) % 20 == 0
  }

  /** The sub-channels counted up from the first are those of the band. */
  lemma {:induction false} BandIsRange(e: Spot, f: int)
    ensures Within(FirstFreq(e), SpotChans(e), f) <==> InBand(e, f)
  {
    hide Within, OnGrid;
    match e.width
    case W20 => OneChannel(FirstFreq(e), f);
    case W40 => GridRange(e.cf1, 40, 2, f);
    case W80 => GridRange(e.cf1, 80, 4, f);
    case W160 => GridRange(e.cf1, 160, 8, f);
    case WOther => OneChannel(FirstFreq(e), f);
  }

  lemma {:induction false} OneChannel(first: int, f: int)
    ensures Within(first, 1, f) <==> f == first
  {
    if f == first { assert f == first + 0 * 20; }
  }

  lemma {:induction false} GridRange(centre: int, w: int, n: nat, f: int)
    requires w == 20 * n && n > 0
    ensures Within(centre - w / 2 + 10, n, f) <==> OnGrid(centre, w, f)
  {
    hide Within;
    assert w / 2 == 10 * n;
    StepsOf20(centre - 10 * n + 10, n, f);
  }

  lemma {:induction false} StepsOf20(first: int, n: nat, f: int)
    requires n > 0
    ensures Within(first, n, f) <==> first <= f <= first + 20 * (n - 1) && (f - first) % 20 == 0
  {
    if first <= f <= first + 20 * (n - 1) && (f - first) % 20 == 0 {
      var k := (f - first) / 20;
      assert f == first + k * 20;
    }
  }

  function RadarAt(chs: seq<Channel>, freq: int, i: nat): (r: Option<nat>)
    requires i <= |chs|
    ensures r.Some? ==> i <= r.value < |chs| && chs[r.value].freq == freq && chs[r.value].radar
    ensures r.None? ==> forall k :: i <= k < |chs| ==> !(chs[k].freq == freq && chs[k].radar)
    decreases |chs| - i
  {
    if i == |chs| then None
    else if chs[i].freq == freq && chs[i].radar then Some(i)
    else RadarAt(chs, freq, i + 1)
  }

  /** set_dfs_state_freq: the first radar channel at this frequency takes the state. */
  function MarkFreq(chs: seq<Channel>, freq: int, st: DfsState): seq<Channel> {
    var r := RadarAt(chs, freq, 0);
    if r.Some? then chs[r.value := chs[r.value].(dfs := st)] else chs
  }

  /** The loop of set_dfs_state over n sub-channels. */
  function MarkRange(chs: seq<Channel>, freq: int, n: nat, st: DfsState): seq<Channel> {
    if n == 0 then chs else MarkFreq(MarkRange(chs, freq, n - 1, st), freq + (n - 1) * 20, st)
  }

  /** What marking does to each channel: radar channels in the range take the state, nothing else changes. */
  lemma {:induction false} MarkEffect(chs: seq<Channel>, freq: int, n: nat, st: DfsState)
    requires FreqOk(chs)
    ensures var r := MarkRange(chs, freq, n, st);
      && |r| == |chs| && FreqOk(r)
      && forall i :: 0 <= i < |chs| ==>
           r[i] == if chs[i].radar && Within(freq, n, chs[i].freq) then chs[i].(dfs := st) else chs[i]
    decreases n
  {
    hide FreqOk, MarkFreq, Within;
    WithinNone(freq);
    if n > 0 {
      MarkEffect(chs, freq, n - 1, st);
      var m, f := MarkRange(chs, freq, n - 1, st), freq + (n - 1) * 20;
      MarkOne(m, f, st);
      forall i | 0 <= i < |chs|
        ensures Within(freq, n, chs[i].freq) <==> Within(freq, n - 1, chs[i].freq) || chs[i].freq == f
      {
        WithinStep(freq, n, chs[i].freq);
      }
    }
  }

  lemma {:induction false} WithinNone(freq: int)
    ensures forall f :: !Within(freq, 0, f)
  {
  }

  lemma {:induction false} WithinStep(freq: int, n: nat, f: int)
    requires n > 0
    ensures Within(freq, n, f) <==> Within(freq, n - 1, f) || f == freq + (n - 1) * 20
  {
  }

  lemma {:induction false} MarkOne(m: seq<Channel>, f: int, st: DfsState)
    requires FreqOk(m)
    ensures var r := MarkFreq(m, f, st);
      && |r| == |m| && FreqOk(r)
      && forall i :: 0 <= i < |m| ==> r[i] == if m[i].radar && m[i].freq == f then m[i].(dfs := st) else m[i]
  {
    hide RadarAt;
  }

  /** Marking changes DFS states only, whatever the table. */
  lemma {:induction false} MarkKeepsTable(chs: seq<Channel>, freq: int, n: nat, st: DfsState)
    ensures SameTable(chs, MarkRange(chs, freq, n, st))
    decreases n
  {
    if n > 0 { MarkKeepsTable(chs, freq, n - 1, st); }
  }

  lemma {:induction false} SameStart(c: Conf, a: seq<Channel>, b: seq<Channel>)
    requires SameTable(a, b)
    ensures StartIdx(c, b) == StartIdx(c, a)
  {
    hide StartNo, Seg1No;
    SameIndex(a, b, StartNo(c));
    SameIndex(a, b, Seg1No(c));
  }

  lemma {:induction false} SameIndex(a: seq<Channel>, b: seq<Channel>, no: int)
    requires SameTable(a, b)
    ensures ChanIndex(b, no, 0) == ChanIndex(a, no, 0)
  {
    hide ChanIndex;
    var i, j := ChanIndex(a, no, 0), ChanIndex(b, no, 0);
    if i.Some? { assert b[i.value].chan == no; }
    if j.Some? { assert a[j.value].chan == no; }
  }

  /** Channel numbers as the 5 GHz band counts them. */
  predicate NumberedByFreq(chs: seq<Channel>) {
    forall i :: 0 <= i < |chs| ==> chs[i].freq == 5000 + 5 * chs[i].chan
  }

  /** The test of dfs_are_channels_overlapped on one of our channels, by channel number. */
  predicate NumberHit(ch: Channel, radarChan: int, n: nat) {
    ch.radar && exists j :: 0 <= j < n && ch.chan == radarChan + j * 4
  }

  /** Some of our radar sub-channels passes that test. */
  predicate Overlapped(c: Conf, chs: seq<Channel>, radarChan: int, n: nat)
    requires StartIdx(c, chs).Some? && InTable(c, chs)
  {
    var s := StartIdx(c, chs).value;
    exists i :: s <= i < s + UsedChans(c) && NumberHit(chs[i], radarChan, n)
  }

  /** The event's range holds the frequency of a radar sub-channel in use. */
  predicate Struck(c: Conf, chs: seq<Channel>, at: Spot)
    requires StartIdx(c, chs).Some? && InTable(c, chs)
  {
    var s := StartIdx(c, chs).value;
    exists i :: s <= i < s + UsedChans(c) && chs[i].radar && InBand(at, chs[i].freq)
  }

  /** Comparing channel numbers is comparing frequencies, so the test is positive exactly when we are struck. */
  lemma {:induction false} OverlapIsStrike(c: Conf, chs: seq<Channel>, at: Spot, radarChan: int)
    requires StartIdx(c, chs).Some? && InTable(c, chs)
    requires NumberedByFreq(chs) && FirstFreq(at) == 5000 + 5 * radarChan
    ensures Overlapped(c, chs, radarChan, SpotChans(at)) <==> Struck(c, chs, at)
  {
    hide StartIdx, UsedChans, FirstFreq, SpotChans, InBand;
    forall i | 0 <= i < |chs|
      ensures NumberHit(chs[i], radarChan, SpotChans(at)) <==>
        chs[i].radar && InBand(at, chs[i].freq)
    {
      BandIsRange(at, chs[i].freq);
      SameDistance(chs[i].chan, radarChan, chs[i].freq, FirstFreq(at), SpotChans(at));
    }
  }

  lemma {:induction false} SameDistance(chan: int, radarChan: int, f: int, first: int, n: nat)
    requires f == 5000 + 5 * chan && first == 5000 + 5 * radarChan
    ensures (exists j :: 0 <= j < n && chan == radarChan + j * 4) <==> Within(first, n, f)
  {
    if Within(first, n, f) {
      var k :| 0 <= k < n && f == first + k * 20;
      assert chan == radarChan + k * 4;
    }
    if exists j :: 0 <= j < n && chan == radarChan + j * 4 {
      var j :| 0 <= j < n && chan == radarChan + j * 4;
      assert f == first + j * 20;
    }
  }

  datatype Event = Radar(at: Spot) | CacDone(at: Spot, success: bool) | NopDone(at: Spot)

  /** What stays fixed over a run: DFS offloaded to the driver, 802.11h configured, 5 GHz mode. */
  datatype Env = Env(offload: bool, h: bool, modeA: bool)

  /** The state an event gives to the channels it covers, if it is processed at all. */
  function Marks(v: Env, e: Event): Option<DfsState> {
    if v.offload || !v.modeA then None
    else match e
      case Radar(_) => if v.h then Some(Unavailable) else None
      case CacDone(_, success) => if success then Some(Available) else None
      case NopDone(_) => Some(Usable)
  }

  function Step(v: Env, chs: seq<Channel>, e: Event): seq<Channel> {
    if Marks(v, e).None? then chs else MarkRange(chs, FirstFreq(e.at), SpotChans(e.at), Marks(v, e).value)
  }

  function Run(v: Env, chs: seq<Channel>, es: seq<Event>): seq<Channel>
    decreases |es|
  {
    if es == [] then chs else Step(v, Run(v, chs, es[..|es| - 1]), es[|es| - 1])
  }

  /** Everything about the table but the DFS states is fixed. */
  predicate SameTable(a: seq<Channel>, b: seq<Channel>) {
    |a| == |b| && forall i :: 0 <= i < |a| ==> a[i] == b[i].(dfs := a[i].dfs)
  }

  /** The state an event leaves a radar channel of its band in. */
  function StateAfter(v: Env, e: Event, was: DfsState): DfsState {
    if v.offload || !v.modeA then was
    else match e
      case Radar(_) => if v.h then Unavailable else was
      case CacDone(_, success) => if success then Available else was
      case NopDone(_) => Usable
  }

  /** One event: radar channels of its band take its state, nothing else changes, marks stay on radar channels. */
  lemma {:induction false} StepEffect(v: Env, chs: seq<Channel>, e: Event)
    requires FreqOk(chs)
    ensures SameTable(chs, Step(v, chs, e)) && FreqOk(Step(v, chs, e))
    ensures forall i :: 0 <= i < |chs| ==>
      Step(v, chs, e)[i].dfs ==
        if chs[i].radar && InBand(e.at, chs[i].freq) then StateAfter(v, e, chs[i].dfs) else chs[i].dfs
    ensures MarksOk(chs) ==> MarksOk(Step(v, chs, e))
  {
    hide Within, FreqOk, MarkRange, InBand, FirstFreq, SpotChans;
    if Marks(v, e).Some? { MarkEffect(chs, FirstFreq(e.at), SpotChans(e.at), Marks(v, e).value); }
    forall i | 0 <= i < |chs|
      ensures Within(FirstFreq(e.at), SpotChans(e.at), chs[i].freq) <==> InBand(e.at, chs[i].freq)
    {
      BandIsRange(e.at, chs[i].freq);
    }
  }

  /** Every run keeps the shape of the table, and with it everything re-selection relies on. */
  lemma {:induction false} RunKeepsTable(v: Env, chs: seq<Channel>, es: seq<Event>)
    requires FreqOk(chs)
    ensures SameTable(chs, Run(v, chs, es)) && FreqOk(Run(v, chs, es))
    ensures TableOk(chs) ==> TableOk(Run(v, chs, es))
    decreases |es|
  {
    if es != [] {
      RunKeepsTable(v, chs, es[..|es| - 1]);
      StepEffect(v, Run(v, chs, es[..|es| - 1]), es[|es| - 1]);
    }
  }

  /** Event k marked the radar channel at f, and no later event gives f another state. */
  ghost predicate Blocked(v: Env, es: seq<Event>, k: nat, f: int)
    requires k < |es|
  {
    && !v.offload && v.modeA && v.h && es[k].Radar? && InBand(es[k].at, f)
    && forall j :: k < j < |es| && (es[j].NopDone? || (es[j].CacDone? && es[j].success)) ==> !InBand(es[j].at, f)
  }

  lemma {:induction false} StaysMarked(v: Env, chs: seq<Channel>, es: seq<Event>, k: nat, i: nat)
    requires FreqOk(chs) && i < |chs| && chs[i].radar && k < |es| && Blocked(v, es, k, chs[i].freq)
    ensures SameTable(chs, Run(v, chs, es)) && Run(v, chs, es)[i].dfs == Unavailable
    decreases |es|
  {
    hide FreqOk, Within, MarkRange, InBand;
    var es', e := es[..|es| - 1], es[|es| - 1];
    RunKeepsTable(v, chs, es');
    StepEffect(v, Run(v, chs, es'), e);
    if k < |es'| {
      assert Blocked(v, es', k, chs[i].freq);
      StaysMarked(v, chs, es', k, i);
    }
  }

  /** Channel i chosen under configuration c puts a sub-channel on frequency f. */
  predicate Occupies(c: Conf, chs: seq<Channel>, i: nat, f: int)
    requires i < |chs|
  {
    Within(chs[i].freq, UsedChans(c), f)
  }

  /**
   * Radar safety over runs: from the radar event on, until a finished CAC or non-occupancy period covers the
   * frequency, no configuration makes the channel search return a channel set that includes it.
   */
  lemma {:induction false} RadarSafety(v: Env, chs: seq<Channel>, es: seq<Event>, k: nat, i: nat,
                                       c: Conf, m: nat, skipRadar: bool)
    requires FreqOk(chs) && i < |chs| && chs[i].radar && k < |es| && Blocked(v, es, k, chs[i].freq)
    requires m < |Run(v, chs, es)| && Candidate(c, Run(v, chs, es), m, skipRadar)
    ensures !Occupies(c, Run(v, chs, es), m, chs[i].freq)
  {
    StaysMarked(v, chs, es, k, i);
    RunKeepsTable(v, chs, es);
    var now := Run(v, chs, es);
    NotUnavailable(c, now, m, skipRadar, i);
  }

  /** A candidate's sub-channels are available, so it occupies no unavailable radar channel. */
  lemma {:induction false} NotUnavailable(c: Conf, chs: seq<Channel>, m: nat, skipRadar: bool, i: nat)
    requires FreqOk(chs) && m < |chs| && i < |chs| && Candidate(c, chs, m, skipRadar)
    ensures Occupies(c, chs, m, chs[i].freq) ==>
      && !chs[i].disabled && !(chs[i].radar && chs[i].dfs == Unavailable)
      && (skipRadar ==> !chs[i].radar || chs[i].dfs == Available)
  {
    RangeByIndex(chs, m, UsedChans(c), skipRadar);
    if Occupies(c, chs, m, chs[i].freq) {
      var k :| 0 <= k < UsedChans(c) && chs[i].freq == chs[m].freq + k * 20;
      assert chs[m + k].freq == chs[i].freq;
    }
  }
}
