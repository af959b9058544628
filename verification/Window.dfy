/** Voice targets, and the sliding window of distinct targets that the anticheat counts. */
module Window {
  import opened Words
  import opened Times
  import opened Wrappers
  import opened Routing

  /** Something a client can address: a channel or a session. */
  datatype Target = ChannelTarget(id: u32) | SessionTarget(id: u32)

  /** The key under which a target is remembered: bit 40 tells sessions from channels. */
  function Key(t: Target): u64 {
    match t
    case ChannelTarget(id) => id
    case SessionTarget(id) => 0x100_0000_0000 + id
  }

  lemma {:induction false} KeysDiffer(t: Target, u: Target)
    requires t != u
    ensures Key(t) != Key(u)
  {
  }

  // ----- Registering a voice target -----

  datatype TargetItem = TargetItem(sessions: seq<u32>, channel: Option<u32>)

  /** Everything one item names, in the order in which it is registered. */
  function NamedBy(item: TargetItem): seq<Target> {
    seq(|item.sessions|, i requires 0 <= i < |item.sessions| => SessionTarget(item.sessions[i])) +
    (if item.channel.Some? then [ChannelTarget(item.channel.value)] else [])
  }

  function Named(items: seq<TargetItem>): seq<Target> {
    if items == [] then [] else Named(items[..|items| - 1]) + NamedBy(items[|items| - 1])
  }

  /** The items name session `id`, or channel `id`. */
  ghost predicate NamesSession(items: seq<TargetItem>, id: u32) {
    exists i :: 0 <= i < |items| && id in items[i].sessions
  }

  ghost predicate NamesChannel(items: seq<TargetItem>, id: u32) {
    exists i :: 0 <= i < |items| && items[i].channel == Some(id)
  }

  lemma {:induction false} NamedByIff(item: TargetItem, t: Target)
    ensures t in NamedBy(item) <==>
      match t
      case SessionTarget(id) => id in item.sessions
      case ChannelTarget(id) => item.channel == Some(id)
  {
    var sessions := seq(|item.sessions|, i requires 0 <= i < |item.sessions| => SessionTarget(item.sessions[i]));
    if t.SessionTarget? && t.id in item.sessions {
      var i :| 0 <= i < |item.sessions| && item.sessions[i] == t.id;
      assert sessions[i] == t;
    }
  }

  /** What is registered is what the items name. */
  lemma {:induction false} NamedIff(items: seq<TargetItem>, t: Target)
    ensures t in Named(items) <==>
      match t
      case SessionTarget(id) => NamesSession(items, id)
      case ChannelTarget(id) => NamesChannel(items, id)
  {
    hide NamedBy;
    if items != [] {
      var front, last := items[..|items| - 1], items[|items| - 1];
      NamedIff(front, t);
      NamedByIff(last, t);
      assert items == front + [last];
      assert forall i :: 0 <= i < |front| ==> items[i] == front[i];
      assert NamesSession(items, t.id) <==> NamesSession(front, t.id) || t.id in last.sessions;
      assert NamesChannel(items, t.id) <==> NamesChannel(front, t.id) || last.channel == Some(t.id);
    }
  }

  /** A slot filled from the items holds exactly the sessions and channels they name. */
  lemma {:induction false} FilledIff(items: seq<TargetItem>, id: u32)
    ensures id in SlotOf(Named(items)).sessions <==> NamesSession(items, id)
    ensures id in SlotOf(Named(items)).channels <==> NamesChannel(items, id)
  {
    hide Named, NamesSession, NamesChannel;
    NamedIff(items, SessionTarget(id));
    NamedIff(items, ChannelTarget(id));
    assert id in SlotOf(Named(items)).sessions <==> SessionTarget(id) in Named(items);
    assert id in SlotOf(Named(items)).channels <==> ChannelTarget(id) in Named(items);
  }

  lemma {:induction false} FillsExactly(items: seq<TargetItem>)
    ensures forall s :: s in SlotOf(Named(items)).sessions <==> NamesSession(items, s)
    ensures forall c :: c in SlotOf(Named(items)).channels <==> NamesChannel(items, c)
  {
    hide SlotOf, Named, NamesSession, NamesChannel;
    forall id
      ensures id in SlotOf(Named(items)).sessions <==> NamesSession(items, id)
      ensures id in SlotOf(Named(items)).channels <==> NamesChannel(items, id)
    {
      FilledIff(items, id);
    }
  }

  /** The keys of the items: a channel's is its id, a session's its id with bit 40 set. */
  lemma {:induction false} KeysIff(ts: seq<Target>, k: u64)
    ensures k in Keys(ts) <==>
      exists t :: t in ts && k == (if t.SessionTarget? then 0x100_0000_0000 + t.id else t.id)
  {
    if ts != [] {
      var front, last := ts[..|ts| - 1], ts[|ts| - 1];
      KeysIff(front, k);
      assert ts == front + [last];
      assert Keys(ts) == Keys(front) + [Key(last)];
      if t :| t in ts && k == (if t.SessionTarget? then 0x100_0000_0000 + t.id else t.id) {
        assert t in front || t == last;
      }
    }
  }

  /** The slot that holds exactly the targets of a list. */
  ghost function SlotOf(ts: seq<Target>): Slot {
    Slot(set t | t in ts && t.SessionTarget? :: t.id, set t | t in ts && t.ChannelTarget? :: t.id)
  }

  function Keys(ts: seq<Target>): (ks: seq<u64>)
    ensures |ks| == |ts|
  {
    if ts == [] then [] else Keys(ts[..|ts| - 1]) + [Key(ts[|ts| - 1])]
  }

  lemma {:induction false} SlotGrows(ts: seq<Target>, t: Target)
    ensures SlotOf(ts + [t]) ==
      if t.SessionTarget? then SlotOf(ts).(sessions := SlotOf(ts).sessions + {t.id})
      else SlotOf(ts).(channels := SlotOf(ts).channels + {t.id})
  {
    assert forall u :: u in ts + [t] <==> u in ts || u == t;
  }

  lemma {:induction false} KeysGrow(ts: seq<Target>, t: Target)
    ensures Keys(ts + [t]) == Keys(ts) + [Key(t)]
  {
    assert (ts + [t])[..|ts|] == ts;
  }

  /** Adds one item to a slot that holds the targets `before`. */
  method AddItem(slot: Slot, keys: seq<u64>, item: TargetItem, ghost before: seq<Target>)
    returns (slot': Slot, keys': seq<u64>)
    requires slot == SlotOf(before) && keys == Keys(before)
    ensures slot' == SlotOf(before + NamedBy(item)) && keys' == Keys(before + NamedBy(item))
  {
    hide SlotOf, Keys;
    slot', keys' := slot, keys;
    ghost var named := NamedBy(item);
    assert before + named[..0] == before;
    for i := 0 to |item.sessions|
      invariant slot' == SlotOf(before + named[..i]) && keys' == Keys(before + named[..i])
    {
      var t := SessionTarget(item.sessions[i]);
      assert named[..i + 1] == named[..i] + [t];
      Assoc(before, named[..i], [t]);
      SlotGrows(before + named[..i], t);
      KeysGrow(before + named[..i], t);
      slot' := slot'.(sessions := slot'.sessions + {item.sessions[i]});
      keys' := keys' + [Key(t)];
    }
    if item.channel.Some? {
      var t := ChannelTarget(item.channel.value);
      ghost var n := |item.sessions|;
      assert named == named[..n] + [t];
      Assoc(before, named[..n], [t]);
      SlotGrows(before + named[..n], t);
      KeysGrow(before + named[..n], t);
      slot' := slot'.(channels := slot'.channels + {item.channel.value});
      keys' := keys' + [Key(t)];
    } else {
      assert named == named[..|item.sessions|];
    }
  }

  /**
   * A client redefines one of its slots: the slot is emptied and refilled, and the keys of the new
   * targets are handed to the window. Slot ids outside 1 to 30 are refused.
   */
  method HandleVoiceTarget(targets: array<Slot>, id: u32, items: seq<TargetItem>) returns (ok: bool, keys: seq<u64>)
    requires targets.Length == SLOTS
    modifies targets
    ensures ok <==> 1 <= id <= 30
    ensures !ok ==> targets[..] == old(targets[..]) && keys == []
    ensures ok ==> targets[..] == old(targets[..])[id - 1 := SlotOf(Named(items))] && keys == Keys(Named(items))
    ensures ok ==> forall s :: s in targets[id - 1].sessions <==> NamesSession(items, s)
    ensures ok ==> forall c :: c in targets[id - 1].channels <==> NamesChannel(items, c)
  {
    keys := [];
    if id < 1 || id >= 31 {
      return false, keys;
    }
    targets[id - 1] := Slot({}, {});
    assert Slot({}, {}) == SlotOf([]);
    hide SlotOf, Keys, NamedBy, NamesSession, NamesChannel;
    var slot := Slot({}, {});
    for i := 0 to |items|
      invariant slot == SlotOf(Named(items[..i])) && keys == Keys(Named(items[..i]))
      invariant targets[..] == old(targets[..])[id - 1 := slot]
    {
      assert items[..i + 1][..i] == items[..i];
      slot, keys := AddItem(slot, keys, items[i], Named(items[..i]));
      targets[id - 1] := slot;
    }
    assert items[..|items|] == items;
    ok := true;
    FillsExactly(items);
  }

  // ----- The window -----

  function Prune(m: map<u64, Time>, now: Time, window: nat): map<u64, Time> {
    map k | k in m && Since(m[k], now) <= window :: m[k]
  }

  function Stamp(m: map<u64, Time>, keys: seq<u64>, now: Time): map<u64, Time> {
    if keys == [] then m else Stamp(m, keys[..|keys| - 1], now)[keys[|keys| - 1] := now]
  }

  // ----- The window against the full log -----

  /** What the window goes through; each event prunes by the window length then in force. */
  datatype Event = Register(targets: seq<Target>, now: Time, span: nat) | Sample(now: Time, span: nat)

  function Apply(m: map<u64, Time>, e: Event): map<u64, Time> {
    match e
    case Register(targets, now, span) => Prune(Stamp(m, Keys(targets), now), now, span)
    case Sample(now, span) => Prune(m, now, span)
  }

  /** The window after a sequence of events, as the server keeps it. */
  function Kept(events: seq<Event>): map<u64, Time> {
    if events == [] then map[] else Apply(Kept(events[..|events| - 1]), events[|events| - 1])
  }

  lemma {:induction false} KeptNext(events: seq<Event>, e: Event)
    ensures Kept(events + [e]) == Apply(Kept(events), e)
  {
    hide Apply;
    assert (events + [e])[..|events|] == events;
  }

  /** When a target was last registered, looking at the whole log. */
  function LastSeen(events: seq<Event>, t: Target): Option<Time> {
    if events == [] then None
    else
      var e := events[|events| - 1];
      if e.Register? && t in e.targets then Some(e.now) else LastSeen(events[..|events| - 1], t)
  }

  /** Since the target was last registered, some event found it older than the window then in force. */
  predicate Outlived(events: seq<Event>, t: Target) {
    events != [] &&
    (var front, e := events[..|events| - 1], events[|events| - 1];
     && !(e.Register? && t in e.targets)
     && (Outlived(front, t) || (LastSeen(front, t).Some? && Since(LastSeen(front, t).value, e.now) > e.span)))
  }

  predicate Monotone(events: seq<Event>) {
    forall i, j :: 0 <= i < j < |events| ==> events[i].now <= events[j].now
  }

  function Clock(events: seq<Event>): Time {
    if events == [] then 0 else events[|events| - 1].now
  }

  lemma {:induction false} StampIs(m: map<u64, Time>, ts: seq<Target>, now: Time)
    ensures var r := Stamp(m, Keys(ts), now);
      && (forall t :: t in ts ==> Key(t) in r && r[Key(t)] == now)
      && (forall k :: k in r ==> (exists t :: t in ts && k == Key(t)) || (k in m && r[k] == m[k]))
      && (forall t :: t !in ts ==> (Key(t) in r <==> Key(t) in m) && (Key(t) in m ==> r[Key(t)] == m[Key(t)]))
  {
    hide Key;
    if ts != [] {
      var front, last := ts[..|ts| - 1], ts[|ts| - 1];
      StampIs(m, front, now);
      var ks := Keys(ts);
      assert ks[..|ks| - 1] == Keys(front) && ks[|ks| - 1] == Key(last);
      assert ts == front + [last];
      forall t | t !in ts
        ensures Key(t) != Key(last)
      {
        KeysDiffer(t, last);
      }
    }
  }

  /** The kept window holds a target exactly when it was seen and has not outlived its window since, with its last time. */
  ghost predicate Agrees(events: seq<Event>) {
    var m := Kept(events);
    && (forall t :: Key(t) in m <==> LastSeen(events, t).Some? && !Outlived(events, t))
    && (forall t :: Key(t) in m ==> LastSeen(events, t) == Some(m[Key(t)]))
    && (forall k :: k in m ==> exists t :: k == Key(t))
  }

  /** Pruning at every step loses nothing but what has outlived its window. */
  lemma {:induction false} WindowAgrees(events: seq<Event>)
    ensures Agrees(events)
  {
    hide Key, Stamp;
    if events != [] {
      var front, e := events[..|events| - 1], events[|events| - 1];
      WindowAgrees(front);
      if e.Register? {
        StampIs(Kept(front), e.targets, e.now);
      }
    }
  }

  predicate FixedSpan(events: seq<Event>, span: nat) {
    forall i :: 0 <= i < |events| ==> events[i].span == span
  }

  lemma {:induction false} LastSeenBefore(events: seq<Event>, t: Target)
    requires Monotone(events) && LastSeen(events, t).Some?
    ensures LastSeen(events, t).value <= Clock(events)
  {
    if !(events[|events| - 1].Register? && t in events[|events| - 1].targets) {
      var front := events[..|events| - 1];
      LastSeenBefore(front, t);
      assert events[|front| - 1].now <= events[|events| - 1].now;
    }
  }

  /** With a window of fixed length a target outlives it exactly when it is too old now. */
  lemma {:induction false} OutlivedIff(events: seq<Event>, span: nat, t: Target)
    requires Monotone(events) && FixedSpan(events, span) && LastSeen(events, t).Some?
    ensures Outlived(events, t) <==> Since(LastSeen(events, t).value, Clock(events)) > span
  {
    var front, e := events[..|events| - 1], events[|events| - 1];
    if !(e.Register? && t in e.targets) {
      OutlivedIff(front, span, t);
      assert events[|front| - 1].now <= e.now;
    }
  }

  ghost function Mentioned(events: seq<Event>): set<Target> {
    set i, t | 0 <= i < |events| && events[i].Register? && t in events[i].targets :: t
  }

  /** The distinct targets registered and not outlived since. */
  ghost function Current(events: seq<Event>): set<Target> {
    set t | t in Mentioned(events) && LastSeen(events, t).Some? && !Outlived(events, t)
  }

  /** The distinct targets registered within the window of the given length that ends now. */
  ghost function Recent(events: seq<Event>, span: nat): set<Target> {
    set t | t in Mentioned(events) && LastSeen(events, t).Some? &&
            Since(LastSeen(events, t).value, Clock(events)) <= span
  }

  lemma {:induction false} SeenIsMentioned(events: seq<Event>, t: Target)
    requires LastSeen(events, t).Some?
    ensures t in Mentioned(events)
  {
    var last := |events| - 1;
    if events[last].Register? && t in events[last].targets {
    } else {
      SeenIsMentioned(events[..last], t);
      var i :| 0 <= i < last && events[..last][i].Register? && t in events[..last][i].targets;
      assert events[i].Register? && t in events[i].targets;
    }
  }

  ghost function KeysOf(ts: set<Target>): set<u64> {
    set t | t in ts :: Key(t)
  }

  lemma {:induction false} KeysOfSize(ts: set<Target>)
    ensures |KeysOf(ts)| == |ts|
  {
    if ts != {} {
      var t :| t in ts;
      KeysOfSize(ts - {t});
      forall u | u in ts - {t}
        ensures Key(u) != Key(t)
      {
        KeysDiffer(u, t);
      }
      assert KeysOf(ts) == KeysOf(ts - {t}) + {Key(t)};
    }
  }

  /** The size of the kept window is the number of distinct channels and sessions that have not outlived it. */
  lemma {:induction false} WindowCountsCurrent(events: seq<Event>)
    ensures |Kept(events)| == |Current(events)|
  {
    hide Key, Kept, LastSeen, Mentioned, Outlived;
    WindowAgrees(events);
    var m, current := Kept(events), Current(events);
    forall t | Key(t) in m
      ensures t in current
    {
      SeenIsMentioned(events, t);
    }
    assert m.Keys == KeysOf(current);
    KeysOfSize(current);
    assert |m| == |m.Keys|;
  }

  /**
   * With a window of fixed length and a clock that does not run backwards that is the number of
   * distinct channels and sessions registered within the window, however it was pruned on the way.
   */
  lemma {:induction false} WindowCountsDistinct(events: seq<Event>, span: nat)
    requires Monotone(events) && FixedSpan(events, span)
    ensures Current(events) == Recent(events, span)
    ensures |Kept(events)| == |Recent(events, span)|
  {
    hide Kept, LastSeen, Mentioned, Outlived, Monotone, FixedSpan;
    WindowCountsCurrent(events);
    forall t | LastSeen(events, t).Some?
      ensures Outlived(events, t) <==> Since(LastSeen(events, t).value, Clock(events)) > span
    {
      OutlivedIff(events, span, t);
    }
  }
}
