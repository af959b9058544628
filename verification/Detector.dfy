/** One round of the anticheat sampler: from a snapshot of the server to who is flagged. */
module Detector {
  import opened Words
  import opened Times
  import opened Routing
  import opened Sampler
  import Ids
  import Strikes
  import Window

  datatype Config = Config(
    thresholdPct: nat, minRecipients: nat, mutualityMaxPct: nat, strikesRequired: nat, listenMax: nat)

  function Max(a: nat, b: nat): nat {
    if a > b then a else b
  }

  predicate LowMutuality(cfg: Config, mutuality: nat) {
    mutuality != NOT_APPLICABLE && mutuality <= cfg.mutualityMaxPct
  }

  predicate HighReach(cfg: Config, reach: nat, active: nat) {
    reach >= cfg.minRecipients && reach * 100 >= active * cfg.thresholdPct
  }

  /** A sample is suspicious for wide one-way talk, for listening widely, or for its positions. */
  predicate Suspicious(
    cfg: Config, reachInstant: nat, reachWindow: nat, active: nat, mutuality: nat, listens: nat, positional: bool)
  {
    || (HighReach(cfg, Max(reachInstant, reachWindow), active) && LowMutuality(cfg, mutuality))
    || (cfg.listenMax > 0 && listens > cfg.listenMax)
    || positional
  }

  ghost function MutualityOf(snap: Snapshot, session: u32): nat
    requires session in snap.clients
  {
    var reached := ReachedSet(snap, session);
    if reached == {} then NOT_APPLICABLE else Share(|MutualSet(snap, session, reached)|, |reached|)
  }

  /** What the sampler looks at: the server, the window count, and whether the positions are suspicious. */
  datatype Sample = Sample(snap: Snapshot, windowReach: nat, positional: bool)

  /** The verdict on a client in terms of who it reaches, who targets it back and what it listens to. */
  ghost predicate Verdict(cfg: Config, x: Sample, session: u32)
    requires session in x.snap.clients
  {
    Suspicious(
      cfg, |ReachedSet(x.snap, session)|, x.windowReach, |x.snap.clients.Keys|, MutualityOf(x.snap, session),
      |ListenedBy(x.snap, x.snap.channels.Keys, session)|, x.positional)
  }

  function Required(cfg: Config): nat {
    Max(cfg.strikesRequired, 1)
  }

  /** What is on record about a client after a sample, and whether it is handed to the flagging routine. */
  datatype Record = Record(events: seq<Window.Event>, history: seq<bool>, flagged: bool)

  /** A sample adds to the log and to the verdicts, and flags by the strikes in those verdicts. */
  ghost function Sampled(
    cfg: Config, snap: Snapshot, session: u32, events: seq<Window.Event>, history: seq<bool>, positional: bool,
    now: Time, span: nat): Record
    requires session in snap.clients
  {
    var events' := events + [Window.Sample(now, span)];
    var history' := history + [Verdict(cfg, Sample(snap, |Window.Current(events')|, positional), session)];
    Record(events', history', Strikes.Flags(history', Required(cfg)))
  }

  /** What the anticheat keeps about one client: recent targets and strikes. */
  class Watch {
    var seen: map<u64, Time>
    var strikes: nat
    ghost var events: seq<Window.Event>
    ghost var history: seq<bool>

    /** The fields agree with everything registered and sampled so far. */
    ghost predicate Valid()
      reads this
    {
      strikes == Strikes.After(history) && seen == Window.Kept(events)
    }

    constructor ()
      ensures Valid() && events == [] && history == []
    {
      seen, strikes, events, history := map[], 0, [], [];
    }

    /** Registers targets, given by their keys; while the anticheat is off nothing is remembered. */
    method RecordTargets(enabled: bool, keys: seq<u64>, now: Time, span: nat, ghost targets: seq<Window.Target>)
      requires Valid() && keys == Window.Keys(targets)
      modifies this`seen, this`events
      ensures Valid()
      ensures events == if enabled then old(events) + [Window.Register(targets, now, span)] else old(events)
    {
      if !enabled {
        return;
      }
      for i := 0 to |keys|
        invariant seen == Window.Stamp(old(seen), keys[..i], now) && events == old(events)
      {
        assert keys[..i + 1][..i] == keys[..i];
        seen := seen[keys[i] := now];
      }
      assert keys[..|keys|] == keys;
      seen := Window.Prune(seen, now, span);
      Window.KeptNext(events, Window.Register(targets, now, span));
      events := events + [Window.Register(targets, now, span)];
    }

    /** The number of distinct targets still in the window, over all that was ever registered. */
    method CountRecent(now: Time, span: nat) returns (n: nat)
      requires Valid()
      modifies this`seen, this`events
      ensures Valid() && events == old(events) + [Window.Sample(now, span)]
      ensures n == |Window.Current(events)|
      ensures Window.Monotone(events) && Window.FixedSpan(events, span) ==> n == |Window.Recent(events, span)|
    {
      hide Window.Current, Window.Recent, Window.Monotone, Window.FixedSpan;
      seen := Window.Prune(seen, now, span);
      n := |seen|;
      Window.KeptNext(events, Window.Sample(now, span));
      events := events + [Window.Sample(now, span)];
      Window.WindowCountsCurrent(events);
      if Window.Monotone(events) && Window.FixedSpan(events, span) {
        Window.WindowCountsDistinct(events, span);
      }
    }

    /** Counts one sample up or down; `flagged` says that the client is handed to the flagging routine. */
    method Strike(suspicious: bool, required: nat) returns (flagged: bool)
      requires Valid()
      modifies this`strikes, this`history
      ensures Valid() && history == old(history) + [suspicious]
      ensures flagged == Strikes.Flags(history, required)
    {
      history := history + [suspicious];
      assert history[..|history| - 1] == old(history);
      flagged := false;
      if suspicious {
        strikes := strikes + 1;
        if strikes >= required {
          flagged := true;
        }
      } else {
        var current := strikes;
        if current > 0 {
          strikes := current - 1;
        }
      }
    }

    /** Evaluates the client in one snapshot. */
    method SampleClient(
      cfg: Config, snap: Snapshot, session: u32, members: map<u32, seq<u32>>, listens: map<u32, nat>, positional: bool,
      now: Time, span: nat)
      returns (flagged: bool)
      requires Valid()
      requires session in snap.clients && MembersOf(snap, members) && CountsListens(snap, snap.channels.Keys, listens)
      modifies this
      ensures Valid()
      ensures Record(events, history, flagged) == Sampled(cfg, snap, session, old(events), old(history), positional, now, span)
    {
      hide ReachedSet, Audience, MutualSet, ListenedBy, Share, Strikes.Flags, Window.Kept, Window.Current, Window.Recent;
      var reached, _ := Reach(snap, session, members);
      var windowReach := CountRecent(now, span);
      var mutuality := Mutuality(snap, session, reached);
      var suspicious := Suspicious(
        cfg, |reached|, windowReach, |snap.clients.Keys|, mutuality, CountOf(listens, session), positional);
      flagged := Strike(suspicious, Required(cfg));
    }
  }

  /** Every client has a record of its own. */
  ghost predicate Apart(snap: Snapshot, watches: map<u32, Watch>) {
    && snap.clients.Keys <= watches.Keys
    && forall s, t :: s in watches && t in watches && s != t ==> watches[s] != watches[t]
  }

  /** The clients of a snapshot, one after the other in some order. */
  method SampleEach(
    cfg: Config, snap: Snapshot, watches: map<u32, Watch>, members: map<u32, seq<u32>>, listens: map<u32, nat>,
    positional: set<u32>, now: Time, span: nat)
    returns (flagged: set<u32>)
    requires Apart(snap, watches) && forall s :: s in watches ==> watches[s].Valid()
    requires MembersOf(snap, members) && CountsListens(snap, snap.channels.Keys, listens)
    modifies watches.Values
    ensures forall s :: s in watches ==> watches[s].Valid()
    ensures forall s :: s in watches && s !in snap.clients ==> unchanged(watches[s])
    ensures flagged <= snap.clients.Keys
    ensures forall s :: s in snap.clients ==>
      Record(watches[s].events, watches[s].history, s in flagged) ==
      Sampled(cfg, snap, s, old(watches[s].events), old(watches[s].history), s in positional, now, span)
  {
    hide Sampled, Strikes.After, Window.Kept, MembersOf, CountsListens;
    flagged := {};
    var todo := snap.clients.Keys;
    while todo != {}
      invariant todo <= snap.clients.Keys && flagged <= snap.clients.Keys - todo
      invariant forall s :: s in watches ==> watches[s].Valid()
      invariant forall s :: s in watches && (s in todo || s !in snap.clients) ==> unchanged(watches[s])
      invariant forall s :: s in snap.clients && s !in todo ==>
        Record(watches[s].events, watches[s].history, s in flagged) ==
        Sampled(cfg, snap, s, old(watches[s].events), old(watches[s].history), s in positional, now, span)
      decreases todo
    {
      var s :| s in todo;
      todo := todo - {s};
      var flag := watches[s].SampleClient(cfg, snap, s, members, listens, s in positional, now, span);
      if flag {
        flagged := flagged + {s};
      }
    }
  }

  /** A whole round; nothing happens while the anticheat is off. */
  method SampleAll(
    cfg: Config, enabled: bool, snap: Snapshot, watches: map<u32, Watch>, positional: set<u32>, now: Time, span: nat)
    returns (flagged: set<u32>)
    requires Apart(snap, watches) && forall s :: s in watches ==> watches[s].Valid()
    modifies watches.Values
    ensures forall s :: s in watches ==> watches[s].Valid()
    ensures forall s :: s in watches && (!enabled || s !in snap.clients) ==> unchanged(watches[s])
    ensures flagged <= if enabled then snap.clients.Keys else {}
    ensures enabled ==> forall s :: s in snap.clients ==>
      Record(watches[s].events, watches[s].history, s in flagged) ==
      Sampled(cfg, snap, s, old(watches[s].events), old(watches[s].history), s in positional, now, span)
  {
    hide Sampled, Strikes.After, Window.Kept, MembersOf, CountsListens;
    flagged := {};
    if enabled {
      var members, listens := MembersByChannel(snap);
      flagged := SampleEach(cfg, snap, watches, members, listens, positional, now, span);
    }
  }

  // ----- What the detector promises -----

  /** `r` names the client's session or its channel in some slot. */
  ghost predicate NamesBack(snap: Snapshot, r: u32, session: u32)
    requires session in snap.clients
  {
    r in snap.clients && exists i :: 0 <= i < |snap.clients[r].targets| && SlotNames(snap, r, i, session)
  }

  predicate SlotNames(snap: Snapshot, r: u32, i: nat, session: u32)
    requires session in snap.clients && r in snap.clients && i < |snap.clients[r].targets|
  {
    var slot := snap.clients[r].targets[i];
    session in slot.sessions || snap.clients[session].channel in slot.channels
  }

  lemma {:induction false} BackIff(snap: Snapshot, r: u32, session: u32)
    requires session in snap.clients
    ensures TargetsBack(snap, r, session) <==> NamesBack(snap, r, session)
  {
    if r in snap.clients {
      var targets, c := snap.clients[r].targets, snap.clients[session].channel;
      if session in AllSessions(targets) {
        var i :| 0 <= i < |targets| && session in targets[i].sessions;
        assert SlotNames(snap, r, i, session);
      } else if c in AllChannels(targets) {
        var i :| 0 <= i < |targets| && c in targets[i].channels;
        assert SlotNames(snap, r, i, session);
      }
    }
  }

  /** Who is reached, who of them names the client back, and what it listens to, each by its meaning. */
  ghost predicate Describes(snap: Snapshot, session: u32, reached: set<u32>, mutual: set<u32>, listened: set<u32>)
    requires session in snap.clients
  {
    var targets := snap.clients[session].targets;
    && (forall r :: r in reached <==>
          r != session && exists i :: 0 <= i < |targets| && ReachesThrough(snap, targets, i, r))
    && (forall r :: r in mutual <==> r in reached && NamesBack(snap, r, session))
    && (forall c :: c in listened <==> c in snap.channels && session in snap.channels[c].listeners)
  }

  /** A rounded-down percentage is at most a limit exactly if the share is below the next percent. */
  lemma {:induction false} ShareAtMost(part: nat, whole: nat, limit: nat)
    requires whole > 0
    ensures Share(part, whole) <= limit <==> 100 * part < (limit + 1) * whole
  {
    var q, r := part * 100 / whole, part * 100 % whole;
    assert part * 100 == whole * q + r;
    if q <= limit {
      MulMonotone(whole, q, limit);
      assert whole * (limit + 1) == whole * limit + whole;
    } else {
      MulMonotone(whole, limit + 1, q);
    }
  }

  lemma {:induction false} MulMonotone(a: nat, x: int, y: int)
    requires x <= y
    ensures a * x <= a * y
  {
    assert a * y - a * x == a * (y - x);
  }

  /**
   * The verdict in numbers: the positions are suspicious; or the client listens to more channels than
   * allowed; or it reaches enough players, both in number and in percent of those connected, and fewer
   * than the allowed percentage of those it reaches name it back.
   */
  lemma {:induction false} VerdictIff(
    cfg: Config, x: Sample, session: u32, reached: set<u32>, mutual: set<u32>, listened: set<u32>)
    requires session in x.snap.clients && Describes(x.snap, session, reached, mutual, listened)
    ensures var n := if |reached| > x.windowReach then |reached| else x.windowReach;
      Verdict(cfg, x, session) <==>
        || x.positional
        || (cfg.listenMax > 0 && |listened| > cfg.listenMax)
        || (n >= cfg.minRecipients && 100 * n >= cfg.thresholdPct * |x.snap.clients.Keys| &&
            100 * |mutual| < (cfg.mutualityMaxPct + 1) * |reached|)
  {
    hide Describes, ReachedSet, MutualSet, ListenedBy, Share, Suspicious;
    DescribedSets(x.snap, session, reached, mutual, listened);
    MutualIsPart(x.snap, session, reached);
    assert |reached| == 0 <==> reached == {};
    SuspiciousIff(cfg, |reached|, x.windowReach, |x.snap.clients.Keys|, |mutual|, |listened|, x.positional);
  }

  lemma {:induction false} SuspiciousIff(
    cfg: Config, reached: nat, windowReach: nat, active: nat, mutual: nat, listens: nat, positional: bool)
    requires mutual <= reached
    ensures var n := if reached > windowReach then reached else windowReach;
      var mutuality := if reached == 0 then NOT_APPLICABLE else Share(mutual, reached);
      Suspicious(cfg, reached, windowReach, active, mutuality, listens, positional) <==>
        || positional
        || (cfg.listenMax > 0 && listens > cfg.listenMax)
        || (n >= cfg.minRecipients && 100 * n >= cfg.thresholdPct * active &&
            100 * mutual < (cfg.mutualityMaxPct + 1) * reached)
  {
    hide Share;
    if reached > 0 {
      ShareAtMost(mutual, reached, cfg.mutualityMaxPct);
      assert Share(mutual, reached) <= 100;
    } else {
      assert (cfg.mutualityMaxPct + 1) * reached == 0;
    }
    assert active * cfg.thresholdPct == cfg.thresholdPct * active;
  }

  lemma {:induction false} DescribedSets(snap: Snapshot, session: u32, reached: set<u32>, mutual: set<u32>, listened: set<u32>)
    requires session in snap.clients && Describes(snap, session, reached, mutual, listened)
    ensures reached == ReachedSet(snap, session) && mutual == MutualSet(snap, session, reached) && mutual <= reached
    ensures listened == ListenedBy(snap, snap.channels.Keys, session)
  {
    hide ReachedSet, TargetsBack, NamesBack, ReachesThrough;
    forall r
      ensures r in reached <==> r in ReachedSet(snap, session)
      ensures TargetsBack(snap, r, session) <==> NamesBack(snap, r, session)
    {
      ReachedIff(snap, session, r);
      BackIff(snap, r, session);
    }
    assert reached == ReachedSet(snap, session);
    assert mutual == MutualSet(snap, session, reached);
    assert listened == ListenedBy(snap, snap.channels.Keys, session);
  }

  /** The three sets of a client, to apply the above. */
  lemma {:induction false} Described(snap: Snapshot, session: u32)
    returns (reached: set<u32>, mutual: set<u32>, listened: set<u32>)
    requires session in snap.clients
    ensures Describes(snap, session, reached, mutual, listened)
    ensures reached == ReachedSet(snap, session)
  {
    hide ReachedSet, TargetsBack, NamesBack, ReachesThrough;
    reached := ReachedSet(snap, session);
    mutual := MutualSet(snap, session, reached);
    listened := ListenedBy(snap, snap.channels.Keys, session);
    forall r
      ensures TargetsBack(snap, r, session) <==> NamesBack(snap, r, session)
    {
      BackIff(snap, r, session);
    }
    forall r
      ensures r in reached <==>
        (r != session &&
         exists i :: 0 <= i < |snap.clients[session].targets| && ReachesThrough(snap, snap.clients[session].targets, i, r))
    {
      ReachedIff(snap, session, r);
    }
  }

  /** A crowd is not suspicious for talk: whoever is named back by all it reaches, unless the limit is 100 percent. */
  lemma {:induction false} CrowdIsNotSuspicious(
    cfg: Config, x: Sample, session: u32, reached: set<u32>, listened: set<u32>)
    requires session in x.snap.clients && Describes(x.snap, session, reached, reached, listened) && cfg.mutualityMaxPct < 100
    ensures Verdict(cfg, x, session) <==> x.positional || (cfg.listenMax > 0 && |listened| > cfg.listenMax)
  {
    hide Describes, Verdict;
    VerdictIff(cfg, x, session, reached, reached, listened);
    MulMonotone(|reached|, cfg.mutualityMaxPct + 1, 100);
  }

  /** Enough listeners, in number and in percent of those connected. */
  predicate Wide(cfg: Config, n: nat, active: nat) {
    n >= cfg.minRecipients && 100 * n >= cfg.thresholdPct * active
  }

  /** Fewer than the allowed percentage of those the client reaches name it back. */
  ghost predicate OneWay(cfg: Config, snap: Snapshot, session: u32)
    requires session in snap.clients
  {
    exists reached, mutual, listened :: Describes(snap, session, reached, mutual, listened) &&
      100 * |mutual| < (cfg.mutualityMaxPct + 1) * |reached|
  }

  lemma {:induction false} WideEnough(cfg: Config, x: Sample, session: u32, n: nat)
    requires session in x.snap.clients && OneWay(cfg, x.snap, session) && Wide(cfg, n, |x.snap.clients.Keys|)
    requires n <= |ReachedSet(x.snap, session)| || n <= x.windowReach
    ensures Verdict(cfg, x, session)
  {
    hide Describes, Verdict, ReachedSet;
    var reached, mutual, listened :| Describes(x.snap, session, reached, mutual, listened) &&
      100 * |mutual| < (cfg.mutualityMaxPct + 1) * |reached|;
    DescribedSets(x.snap, session, reached, mutual, listened);
    VerdictIff(cfg, x, session, reached, mutual, listened);
  }

  /** The client could talk to a wide audience through one slot while few of those it reaches name it back. */
  ghost predicate TalksWide(cfg: Config, snap: Snapshot, session: u32, slot: nat)
    requires session in snap.clients
  {
    && slot < |snap.clients[session].targets|
    && Wide(cfg, |WhisperSet(snap, snap.clients[session].targets[slot], session)|, |snap.clients.Keys|)
    && OneWay(cfg, snap, session)
  }

  /** Whoever the router would let talk wide is suspicious: the sampler never counts fewer than the router sends to. */
  lemma {:induction false} WideTalkIsSuspicious(cfg: Config, x: Sample, session: u32, slot: nat)
    requires session in x.snap.clients
    ensures TalksWide(cfg, x.snap, session, slot) ==> Verdict(cfg, x, session)
  {
    if TalksWide(cfg, x.snap, session, slot) {
      hide ReachedSet, WhisperSet, OneWay, Wide, Verdict;
      var heard := WhisperSet(x.snap, x.snap.clients[session].targets[slot], session);
      WhisperIsReached(x.snap, session, slot);
      Ids.SubsetSize(heard, ReachedSet(x.snap, session));
      WideEnough(cfg, x, session, |heard|);
    }
  }

  /** So is whoever registers enough distinct targets within the window, however it spreads them over time. */
  lemma {:induction false} ChunkedTalkIsSuspicious(
    cfg: Config, snap: Snapshot, positional: bool, session: u32, events: seq<Window.Event>, span: nat)
    requires session in snap.clients && Window.Monotone(events) && Window.FixedSpan(events, span)
    ensures Wide(cfg, |Window.Recent(events, span)|, |snap.clients.Keys|) && OneWay(cfg, snap, session) ==>
      Verdict(cfg, Sample(snap, |Window.Current(events)|, positional), session)
  {
    hide ReachedSet, OneWay, Wide, Verdict, Window.Recent, Window.Current, Window.Kept, Window.Monotone, Window.FixedSpan;
    Window.WindowCountsDistinct(events, span);
    var recent := |Window.Current(events)|;
    if Wide(cfg, recent, |snap.clients.Keys|) && OneWay(cfg, snap, session) {
      WideEnough(cfg, Sample(snap, recent, positional), session, recent);
    }
  }

  /**
   * When a sample flags: it is suspicious, and some stretch of samples ending with it has as many more
   * suspicious than clean ones as strikes are required.
   */
  lemma {:induction false} SampleFlagsIff(
    cfg: Config, snap: Snapshot, session: u32, events: seq<Window.Event>, history: seq<bool>, positional: bool,
    now: Time, span: nat)
    requires session in snap.clients
    ensures var r := Sampled(cfg, snap, session, events, history, positional, now, span);
      && r.history == history + [Verdict(cfg, Sample(snap, |Window.Current(r.events)|, positional), session)]
      && r.events == events + [Window.Sample(now, span)]
      && (r.flagged <==>
            r.history[|history|] &&
            exists k :: 0 <= k <= |r.history| && Strikes.Balance(r.history[k..]) >= cfg.strikesRequired)
  {
    hide Verdict, Window.Current;
    var h := Sampled(cfg, snap, session, events, history, positional, now, span).history;
    Strikes.FlagsIff(h, Required(cfg));
    if h[|history|] && cfg.strikesRequired == 0 {
      assert h[|history|..] == [true];
      assert Strikes.Balance([true]) == 1 by { assert [true][..0] == []; }
    }
  }

  /** The verdicts on a client in a sequence of samples. */
  ghost function Verdicts(cfg: Config, xs: seq<Sample>, session: u32): (vs: seq<bool>)
    requires forall i :: 0 <= i < |xs| ==> session in xs[i].snap.clients
    ensures |vs| == |xs|
    ensures forall i :: 0 <= i < |xs| ==> vs[i] == Verdict(cfg, xs[i], session)
  {
    seq(|xs|, i requires 0 <= i < |xs| => Verdict(cfg, xs[i], session))
  }

  /**
   * A client that can talk wide in each of the last `n` samples, through whatever slot each time, is
   * flagged at the last of them once `n` reaches the required number of strikes.
   */
  lemma {:induction false} PersistentTalkerIsFlagged(cfg: Config, xs: seq<Sample>, session: u32, slots: seq<nat>)
    requires forall i :: 0 <= i < |xs| ==> session in xs[i].snap.clients
    requires Required(cfg) <= |slots| <= |xs|
    requires forall i :: 0 <= i < |slots| ==>
      TalksWide(cfg, xs[|xs| - |slots| + i].snap, session, slots[i])
    ensures Strikes.Flags(Verdicts(cfg, xs, session), Required(cfg))
  {
    hide TalksWide, Verdict, Strikes.Flags;
    var vs, start := Verdicts(cfg, xs, session), |xs| - |slots|;
    forall i | start <= i < |xs|
      ensures vs[i]
    {
      assert TalksWide(cfg, xs[start + (i - start)].snap, session, slots[i - start]);
      WideTalkIsSuspicious(cfg, xs[i], session, slots[i - start]);
    }
    Strikes.PersistentIsFlagged(vs, |slots|, Required(cfg));
  }
}
