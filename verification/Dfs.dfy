/** The DFS state machine of dfs.c: channel search, radar marks, and the handler's re-selection loop. */
module Dfs {
  import opened Options
  import opened DfsSpec

  /** dfs_find_channel: without a wanted position it counts the candidates, with one it picks that candidate. */
  method FindChannel(c: Conf, chs: seq<Channel>, want: Option<nat>, skipRadar: bool)
    returns (idx: nat, chosen: Option<nat>)
    ensures var r := Candidates(c, chs, skipRadar, |chs|);
      if want.Some? && want.value < |r|
      then idx == want.value && chosen == Some(r[want.value])
      else idx == |r| && chosen == None
  {
    hide Candidate;
    idx, chosen := 0, None;
    for i := 0 to |chs|
      invariant idx == |Candidates(c, chs, skipRadar, i)| && chosen == None
      invariant want.Some? ==> idx <= want.value
    {
      PrefixOfCandidates(c, chs, skipRadar, i + 1, |chs|);
      if !Candidate(c, chs, i, skipRadar) {
        continue;
      }
      if want == Some(idx) {
        chosen := Some(i);
        return;
      }
      idx := idx + 1;
    }
  }

  lemma {:induction false} PrefixOfCandidates(c: Conf, chs: seq<Channel>, skipRadar: bool, m: nat, n: nat)
    requires m <= n <= |chs|
    ensures Candidates(c, chs, skipRadar, m) <= Candidates(c, chs, skipRadar, n)
    decreases n
  {
    hide Candidate;
    if m < n { PrefixOfCandidates(c, chs, skipRadar, m, n - 1); }
  }

  /** dfs_get_valid_channel: a random candidate, or none when there is none or the mode is not 5 GHz. */
  method GetValidChannel(c: Conf, modeA: bool, chs: seq<Channel>, rnd: nat, skipRadar: bool)
    returns (chosen: Option<nat>)
    ensures chosen.Some? <==> modeA && exists i :: 0 <= i < |chs| && Candidate(c, chs, i, skipRadar)
    ensures chosen.Some? ==> var r := Candidates(c, chs, skipRadar, |chs|);
      && r != [] && chosen.value == r[rnd % |r|]
      && chosen.value < |chs| && Candidate(c, chs, chosen.value, skipRadar)
    ensures FreqOk(chs) ==>
      && (chosen.Some? ==> Selectable(c, chs, chosen.value, skipRadar))
      && (chosen.None? && modeA ==> forall i :: 0 <= i < |chs| ==> !Selectable(c, chs, i, skipRadar))
  {
    hide Candidate, FreqOk, Selectable;
    if FreqOk(chs) {
      forall i | 0 <= i < |chs| ensures Candidate(c, chs, i, skipRadar) <==> Selectable(c, chs, i, skipRadar) {
        CandidateIsSelectable(c, chs, i, skipRadar);
      }
    }
    if !modeA {
      return None;
    }
    CandidatesComplete(c, chs, skipRadar, |chs|);
    var count, none := FindChannel(c, chs, None, skipRadar);
    if count == 0 {
      return None;
    }
    var picked;
    picked, chosen := FindChannel(c, chs, Some(rnd % count), skipRadar);
  }

  datatype HandleResult = Code(value: int) | StillReselecting | OutsideTable

  class Iface {
    var conf: Conf
    var modeA: bool
    var channels: seq<Channel>
    var hasMode: bool
    var freq: int
    var cacStarted: bool
    const offload: bool
    const ieee80211h: bool

    constructor (conf: Conf, hasMode: bool, modeA: bool, channels: seq<Channel>, offload: bool, ieee80211h: bool)
      ensures this.conf == conf && this.channels == channels && this.hasMode == hasMode && this.modeA == modeA
      ensures this.offload == offload && this.ieee80211h == ieee80211h && !cacStarted
    {
      this.conf, this.hasMode, this.modeA, this.channels := conf, hasMode, modeA, channels;
      this.offload, this.ieee80211h := offload, ieee80211h;
      freq, cacStarted := 0, false;
    }

    /** What the events of a run see as fixed. */
    function Fixed(): Env
      reads this
    {
      Env(offload, ieee80211h, hasMode && modeA)
    }

    /** set_dfs_state_freq */
    method SetDfsStateFreq(freq: int, st: DfsState) returns (found: bool)
      modifies this`channels
      ensures channels == MarkFreq(old(channels), freq, st)
      ensures found <==> RadarAt(old(channels), freq, 0).Some?
    {
      for i := 0 to |channels|
        invariant channels == old(channels)
        invariant RadarAt(channels, freq, 0) == RadarAt(channels, freq, i)
      {
        if channels[i].freq == freq {
          if channels[i].radar {
            channels := channels[i := channels[i].(dfs := st)];
            return true;
          }
        }
      }
      return false;
    }

    /** set_dfs_state */
    method SetDfsState(at: Spot, st: DfsState) returns (count: nat)
      modifies this`channels
      ensures channels == if hasMode && modeA then MarkRange(old(channels), FirstFreq(at), SpotChans(at), st)
                          else old(channels)
      ensures hasMode && modeA && FreqOk(old(channels)) ==>
        && |channels| == |old(channels)|
        && forall i :: 0 <= i < |channels| ==>
             channels[i] == if old(channels)[i].radar && InBand(at, old(channels)[i].freq)
                            then old(channels)[i].(dfs := st) else old(channels)[i]
    {
      hide FreqOk, MarkFreq, InBand, FirstFreq, SpotChans, Within;
      ghost var was := channels;
      if FreqOk(was) {
        MarkEffect(was, FirstFreq(at), SpotChans(at), st);
        forall i | 0 <= i < |was|
          ensures Within(FirstFreq(at), SpotChans(at), was[i].freq) <==> InBand(at, was[i].freq)
        {
          BandIsRange(at, was[i].freq);
        }
      }
      count := 0;
      if !hasMode || !modeA {
        return;
      }
      var frequency := FirstFreq(at);
      for i := 0 to SpotChans(at)
        invariant frequency == FirstFreq(at) + i * 20
        invariant channels == MarkRange(old(channels), FirstFreq(at), i, st)
      {
        var found := SetDfsStateFreq(frequency, st);
        if found { count := count + 1; }
        frequency := frequency + 20;
      }
    }

    /** hostapd_dfs_complete_cac: a finished CAC makes the channels available. */
    method CompleteCac(at: Spot, success: bool, enabled: bool)
      modifies this`channels, this`cacStarted
      ensures channels == Step(Fixed(), old(channels), CacDone(at, success))
      ensures cacStarted == (old(cacStarted) && !(success && (!offload || enabled)))
    {
      if success {
        if offload {
          if enabled { cacStarted := false; }
        } else {
          var n := SetDfsState(at, Available);
          cacStarted := false;
        }
      }
    }

    /** hostapd_dfs_nop_finished: after the non-occupancy period the channels are usable again. */
    method NopFinished(at: Spot)
      modifies this`channels
      ensures channels == Step(Fixed(), old(channels), NopDone(at))
    {
      if !offload {
        var n := SetDfsState(at, Usable);
      }
    }

    /** Write a chosen channel back into the configuration. */
    method Apply(i: nat)
      requires i < |channels|
      modifies this`freq, this`conf
      ensures freq == channels[i].freq && conf == Retune(old(conf), channels[i])
      ensures NumbersOk(channels) ==>
        && UsedChans(conf) == UsedChans(old(conf))
        && StartIdx(conf, channels) == if conf.ac && conf.width in {Mhz80p80, OtherWidth} then None else Some(i)
    {
      if NumbersOk(channels) { RetunedStart(conf, channels, i); }
      freq := channels[i].freq;
      conf := Retune(conf, channels[i]);
    }

    /** Every sub-channel in use is free of radar detection duty or has been found available. */
    static predicate Ready(c: Conf, chs: seq<Channel>)
      requires InTable(c, chs)
    {
      && StartIdx(c, chs).Some?
      && var s := StartIdx(c, chs).value;
      forall i :: s <= i < s + UsedChans(c) ==> !chs[i].radar || chs[i].dfs == Available
    }

    /** Some sub-channel in use still has to be watched for radar, and none is disabled or unavailable. */
    static predicate NeedsCac(c: Conf, chs: seq<Channel>)
      requires InTable(c, chs)
    {
      && StartIdx(c, chs).Some?
      && var s := StartIdx(c, chs).value;
      && (exists i :: s <= i < s + UsedChans(c) && chs[i].radar && chs[i].dfs != Available)
      && (forall i :: s <= i < s + UsedChans(c) ==> !chs[i].disabled && chs[i].dfs != Unavailable)
    }

    static lemma {:induction false} PassMeaning(c: Conf, chs: seq<Channel>)
      requires InTable(c, chs)
      ensures Pass(c, chs) == Proceed ==> Ready(c, chs)
      ensures Pass(c, chs) == StartCac <==> NeedsCac(c, chs)
      ensures Pass(c, chs) == BadChannel <==> StartIdx(c, chs).None?
      ensures StartIdx(c, chs).Some? ==> var s, n := StartIdx(c, chs).value, UsedChans(c);
        && (Pass(c, chs) == Proceed <==>
              (forall i :: s <= i < s + n ==> !chs[i].radar)
              || (forall i :: s <= i < s + n ==> !chs[i].disabled && (chs[i].radar ==> chs[i].dfs == Available)))
        && (Pass(c, chs) == Reselect <==>
              && (exists i :: s <= i < s + n && chs[i].radar)
              && (exists i :: s <= i < s + n && (chs[i].disabled || (chs[i].radar && chs[i].dfs != Available)))
              && (exists i :: s <= i < s + n && (chs[i].disabled || chs[i].dfs == Unavailable)))
    {
      hide StartIdx, UsedChans;
    }

    /** The loop of hostapd_handle_dfs. */
    method Settle(draws: seq<nat>) returns (o: Outcome)
      modifies this`conf, this`freq
      ensures o == Loop(old(conf), channels, modeA, draws) && conf == o.conf
      ensures o.Settled? && o.verdict != BadChannel ==> InTable(conf, channels) && Pass(conf, channels) == o.verdict
    {
      hide Candidate, Pass, InTable, Retune, Candidates, NumbersOk, StartIdx, UsedChans;
      ghost var c0 := conf;
      var used := 0;
      while true
        invariant used <= |draws|
        invariant Loop(conf, channels, modeA, draws[used..]) == Loop(c0, channels, modeA, draws)
        decreases |draws| - used
      {
        if !InTable(conf, channels) {
          return Outside(conf);
        }
        var verdict := Pass(conf, channels);
        if verdict != Reselect {
          return Settled(verdict, conf);
        }
        CandidatesComplete(conf, channels, false, |channels|);
        var chosen := GetValidChannel(conf, modeA, channels, if used < |draws| then draws[used] else 0, false);
        if chosen.None? {
          return Settled(BadChannel, conf);
        }
        if used == |draws| {
          return Reselecting(conf);
        }
        assert draws[used..][0] == draws[used] && draws[used..][1..] == draws[used + 1..];
        Apply(chosen.value);
        used := used + 1;
      }
    }

    /**
     * hostapd_start_dfs_cac: 0 also where the driver knows no such call, but the flag is raised only when it starts
     * the check; accepts tells whether it does.
     */
    method StartDfsCac(supported: bool, accepts: bool) returns (res: int)
      modifies this`cacStarted
      ensures res == -1 <==> supported && (!ieee80211h || !accepts)
      ensures res == -1 || res == 0
      ensures cacStarted <==> old(cacStarted) || (supported && ieee80211h && accepts)
    {
      if !supported {
        return 0;
      }
      if !ieee80211h || !accepts {
        return -1;
      }
      cacStarted := true;
      return 0;
    }

    predicate CacRefused(supported: bool, accepts: bool) {
      supported && !(ieee80211h && accepts)
    }

    /**
     * hostapd_handle_dfs: 1 continue setup, 0 wait for the CAC, -1 error; draws are the random numbers it gets to
     * see, supported and accepts what the driver makes of the CAC. A CAC is noted as running exactly when one has
     * been started.
     */
    method HandleDfs(draws: seq<nat>, supported: bool, accepts: bool) returns (res: HandleResult)
      modifies this`conf, this`freq, this`cacStarted
      ensures !hasMode ==> res == Code(1) && conf == old(conf) && cacStarted == old(cacStarted)
      ensures hasMode ==> (cacStarted <==> res == Code(0) && supported)
      ensures hasMode ==> match Loop(old(conf), channels, modeA, draws)
        case Settled(v, c) =>
          conf == c && res == Code(if v == Proceed then 1
                                   else if v == StartCac && !CacRefused(supported, accepts) then 0 else -1)
        case Reselecting(c) => conf == c && res == StillReselecting
        case Outside(c) => conf == c && res == OutsideTable
      ensures hasMode && res == Code(1) ==> InTable(conf, channels) && Ready(conf, channels)
      ensures hasMode && res == Code(0) ==> InTable(conf, channels) && NeedsCac(conf, channels)
      ensures hasMode && TableOk(channels) && InTable(old(conf), channels) && draws != [] ==> res.Code?
    {
      hide InTable, TableOk, Ready, NeedsCac, Loop, Pass;
      if !hasMode {
        return Code(1);
      }
      cacStarted := false;
      if TableOk(channels) && InTable(conf, channels) && draws != [] {
        TableOkSettles(conf, channels, modeA, draws);
      }
      var o := Settle(draws);
      match o {
        case Outside(_) => return OutsideTable;
        case Reselecting(_) => return StillReselecting;
        case Settled(v, _) =>
          if v == BadChannel || v == Reselect {
            return Code(-1);
          }
          PassMeaning(conf, channels);
          if v == Proceed {
            return Code(1);
          }
          var started := StartDfsCac(supported, accepts);
          return Code(started);
      }
    }

    /** An 80+80 MHz configuration that has to be re-selected ends in the error exit. */
    static lemma {:induction false} EightyPlusEightyFails(c: Conf, chs: seq<Channel>, modeA: bool, draws: seq<nat>)
      requires NumbersOk(chs) && InTable(c, chs) && c.ac && c.width == Mhz80p80 && Pass(c, chs) == Reselect
      requires draws != []
      ensures Loop(c, chs, modeA, draws).Settled? && Loop(c, chs, modeA, draws).verdict == BadChannel
    {
      var r := Candidates(c, chs, false, |chs|);
      if r != [] { RetunedStart(c, chs, r[draws[0] % |r|]); }
      hide Candidates, Candidate, StartIdx, NumbersOk;
    }

    /** hostapd_dfs_start_cac: from now on radar is handled as radar during a CAC. */
    method BeginCac()
      modifies this`cacStarted
      ensures cacStarted
    {
      cacStarted := true;
    }

    /** dfs_are_channels_overlapped; radarChan is the channel number of the event's first frequency. */
    method ChannelsOverlapped(at: Spot, radarChan: int) returns (res: nat)
      requires StartIdx(conf, channels).Some? && InTable(conf, channels)
      ensures res > 0 <==> Overlapped(conf, channels, radarChan, SpotChans(at))
    {
      hide SpotChans;
      var start, n := StartIdx(conf, channels).value, UsedChans(conf);
      res := 0;
      if !SomeRadar(channels, start, n) {
        return;
      }
      for i := 0 to n
        invariant res > 0 <==> exists k :: start <= k < start + i && NumberHit(channels[k], radarChan, SpotChans(at))
      {
        var chan := channels[start + i];
        if !chan.radar {
          continue;
        }
        ghost var before := res;
        for j := 0 to SpotChans(at)
          invariant res >= before
          invariant res > before <==> exists l :: 0 <= l < j && chan.chan == radarChan + l * 4
        {
          if chan.chan == radarChan + j * 4 {
            res := res + 1;
          }
        }
        assert res > before <==> NumberHit(channels[start + i], radarChan, SpotChans(at));
      }
    }

    /**
     * hostapd_dfs_start_channel_switch and its variant for an active CAC: a channel that can be used at once is
     * preferred, one that needs a CAC is second, and with neither the interface is taken down; so it is when the
     * parameters for the switch to the preferred channel cannot be worked out.
     */
    method StartChannelSwitch(csa: bool, rnd: nat, rnd2: nat, paramsOk: bool, csaOk: bool)
      returns (target: Option<nat>, immediate: bool, stopped: bool)
      modifies this`conf, this`freq, this`cacStarted
      ensures stopped || target.Some? <==> !csa
      ensures cacStarted == (old(cacStarted) && csa)
      ensures target.Some? ==> modeA
      ensures target.Some? ==>
        !stopped && target.value < |channels| && Candidate(old(conf), channels, target.value, immediate)
      ensures target.Some? && !immediate && !old(cacStarted) ==>
        forall i :: 0 <= i < |channels| ==> !Candidate(old(conf), channels, i, true)
      ensures conf == if target.None? || (immediate && csaOk) then old(conf)
                      else Retune(old(conf), channels[target.value])
      ensures stopped && modeA && (paramsOk || old(cacStarted)) ==>
        forall i :: 0 <= i < |channels| ==> !Candidate(old(conf), channels, i, false)
      ensures stopped && modeA && (paramsOk || old(cacStarted)) && FreqOk(channels) ==>
        forall i :: 0 <= i < |channels| ==> !Selectable(old(conf), channels, i, false)
      ensures target.Some? && immediate ==> paramsOk
    {
      hide FreqOk, Selectable;
      hide Candidate, Retune, Candidates, StartIdx, UsedChans, NumbersOk;
      target, immediate, stopped := None, false, false;
      if csa {
        return;
      }
      if cacStarted {
        cacStarted := false;
        target := GetValidChannel(conf, modeA, channels, rnd, false);
      } else {
        immediate := true;
        target := GetValidChannel(conf, modeA, channels, rnd, true);
        if target.None? {
          immediate := false;
          target := GetValidChannel(conf, modeA, channels, rnd2, false);
        }
      }
      if target.None? || (immediate && !paramsOk) {
        return None, false, true;
      }
      if !(immediate && csaOk) {
        Apply(target.value);
      }
    }

    /**
     * hostapd_dfs_radar_detected. radarChan: the channel number of the event's first frequency; csa: a channel
     * switch is already in progress; rnd, rnd2: random numbers drawn; paramsOk: the parameters for a switch could be
     * worked out; csaOk: its announcement could be scheduled. The target, if any, is where the AP goes; immediate
     * says that it does so without a CAC; stopped that it cannot and the interface is taken down.
     */
    method RadarDetected(at: Spot, radarChan: int, csa: bool, rnd: nat, rnd2: nat, paramsOk: bool, csaOk: bool)
      returns (target: Option<nat>, immediate: bool, stopped: bool)
      requires !offload && ieee80211h ==> hasMode && StartIdx(conf, channels).Some? && InTable(conf, channels)
      modifies this`channels, this`conf, this`freq, this`cacStarted
      ensures channels == Step(Fixed(), old(channels), Radar(at))
      ensures stopped || target.Some? <==>
        !offload && ieee80211h && !csa && Overlapped(old(conf), old(channels), radarChan, SpotChans(at))
      ensures cacStarted == (old(cacStarted) && !stopped && target.None?)
      ensures target.Some? ==>
        !stopped && target.value < |channels| && Candidate(old(conf), channels, target.value, immediate)
      ensures target.Some? && FreqOk(old(channels)) ==>
        Clear(old(conf), channels, target.value, at, immediate)
        && Selectable(old(conf), channels, target.value, immediate)
      ensures conf == if target.None? || (immediate && csaOk) then old(conf)
                      else Retune(old(conf), channels[target.value])
      ensures stopped && modeA && (paramsOk || old(cacStarted)) ==>
        forall i :: 0 <= i < |channels| ==> !Candidate(old(conf), channels, i, false)
      ensures !offload && ieee80211h && !csa ==>
        (NumberedByFreq(old(channels)) && FirstFreq(at) == 5000 + 5 * radarChan ==>
          (stopped || target.Some? <==> Struck(old(conf), old(channels), at)))
    {
      hide Candidate, Clear, FreqOk, Retune, StartIdx, InTable, Overlapped, Struck;
      hide NumberedByFreq, FirstFreq, SpotChans, MarkRange, InBand, Selectable;
      target, immediate, stopped := None, false, false;
      if offload || !ieee80211h {
        return;
      }
      if NumberedByFreq(channels) && FirstFreq(at) == 5000 + 5 * radarChan {
        OverlapIsStrike(conf, channels, at, radarChan);
      }
      ghost var was := channels;
      var n := SetDfsState(at, Unavailable);
      MarkKeepsTable(was, FirstFreq(at), SpotChans(at), Unavailable);
      SameOverlap(conf, was, channels, radarChan, SpotChans(at));
      var overlapped := ChannelsOverlapped(at, radarChan);
      if overlapped == 0 {
        return;
      }
      target, immediate, stopped := StartChannelSwitch(csa, rnd, rnd2, paramsOk, csaOk);
      if target.Some? && FreqOk(was) {
        ClearAfterMark(old(conf), was, channels, target.value, at, immediate);
      }
    }
  }

  /** Channel m leaves the event's radar channels alone, and all it occupies is available. */
  predicate Clear(c: Conf, chs: seq<Channel>, m: nat, at: Spot, skipRadar: bool) {
    m < |chs| && forall i :: 0 <= i < |chs| && Occupies(c, chs, m, chs[i].freq) ==>
      && !chs[i].disabled && !(chs[i].radar && chs[i].dfs == Unavailable)
      && (skipRadar ==> !chs[i].radar || chs[i].dfs == Available)
      && !(chs[i].radar && InBand(at, chs[i].freq))
  }

  lemma {:induction false} ClearAfterMark(c: Conf, was: seq<Channel>, chs: seq<Channel>, m: nat, at: Spot,
                                          skipRadar: bool)
    requires FreqOk(was) && chs == MarkRange(was, FirstFreq(at), SpotChans(at), Unavailable)
    requires m < |chs| && Candidate(c, chs, m, skipRadar)
    ensures Clear(c, chs, m, at, skipRadar) && Selectable(c, chs, m, skipRadar)
  {
    hide Candidate, Occupies, FreqOk, Within, MarkRange, FirstFreq, SpotChans, InBand;
    MarkEffect(was, FirstFreq(at), SpotChans(at), Unavailable);
    CandidateIsSelectable(c, chs, m, skipRadar);
    hide Selectable;
    forall i | 0 <= i < |chs| && Occupies(c, chs, m, chs[i].freq)
      ensures !chs[i].disabled && !(chs[i].radar && chs[i].dfs == Unavailable)
      ensures skipRadar ==> !chs[i].radar || chs[i].dfs == Available
      ensures !(chs[i].radar && InBand(at, chs[i].freq))
    {
      BandIsRange(at, chs[i].freq);
      NotUnavailable(c, chs, m, skipRadar, i);
    }
  }

  lemma {:induction false} SameOverlap(c: Conf, a: seq<Channel>, b: seq<Channel>, radarChan: int, n: nat)
    requires SameTable(a, b) && StartIdx(c, a).Some? && InTable(c, a)
    ensures StartIdx(c, b).Some? && InTable(c, b)
    ensures Overlapped(c, a, radarChan, n) <==> Overlapped(c, b, radarChan, n)
  {
    SameStart(c, a, b);
    hide StartIdx, UsedChans;
    assert forall i :: 0 <= i < |a| ==> (NumberHit(a[i], radarChan, n) <==> NumberHit(b[i], radarChan, n));
  }

  // ---- why only radar channels may be marked ----

  const STALE := [Channel(5180, 36, false, true, Usable), Channel(5200, 40, false, false, Unavailable)]
  const HT40 := Conf(true, false, 1, UseHt, 36, 0, 0, [])

  lemma {:induction false} StaleCandidates()
    ensures Candidate(HT40, STALE, 0, false) && !Candidate(HT40, STALE, 1, false)
  {
    assert SubChannel(STALE, 0, 0) == Some(0) && SubChannel(STALE, 0, 1) == Some(1);
    assert !ChanAllowed(STALE[1], 2);
  }

  lemma {:induction false} StalePass()
    ensures FreqOk(STALE) && NumbersOk(STALE) && !MarksOk(STALE)
    ensures InTable(HT40, STALE) && Pass(HT40, STALE) == Reselect
  {
    assert StartIdx(HT40, STALE) == Some(0);
    assert STALE[0].radar && STALE[1].dfs == Unavailable;
  }

  /** A stale unavailable mark on a non-radar channel: whatever is drawn, the same channel is chosen for ever. */
  lemma {:induction false} StaleMarkLoops(draws: seq<nat>)
    ensures FreqOk(STALE) && NumbersOk(STALE) && !MarksOk(STALE) && InTable(HT40, STALE)
    ensures Loop(HT40, STALE, true, draws) == Reselecting(HT40)
    decreases |draws|
  {
    hide Candidate, Pass, InTable, FreqOk, NumbersOk, MarksOk;
    StalePass();
    StaleCandidates();
    assert Candidates(HT40, STALE, false, 1) == [0];
    assert Candidates(HT40, STALE, false, |STALE|) == [0];
    if draws != [] { StaleMarkLoops(draws[1..]); }
  }
}
