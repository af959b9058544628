/** Whom a voice packet reaches, and whom the anticheat sampler says it can reach. */
module Routing {
  import opened Words
  import opened Wrappers

  const SLOTS: nat := 30

  /** A whisper target: sessions and channels. */
  datatype Slot = Slot(sessions: set<u32>, channels: set<u32>)

  datatype ChannelMembers = ChannelMembers(clients: set<u32>, listeners: set<u32>)

  datatype ClientState = ClientState(channel: u32, targets: seq<Slot>)

  /** One moment of the server: who is connected, who sits in or listens to each channel. */
  datatype Snapshot = Snapshot(clients: map<u32, ClientState>, channels: map<u32, ChannelMembers>)

  predicate WellFormed(snap: Snapshot) {
    forall s :: s in snap.clients ==> |snap.clients[s].targets| == SLOTS
  }

  // ----- What each side means -----

  /** Everybody in or listening to one of the channels that exist. */
  ghost function Audience(snap: Snapshot, channels: set<u32>): set<u32> {
    set c, s | c in channels && c in snap.channels && s in snap.channels[c].clients + snap.channels[c].listeners :: s
  }

  /** The recipients of a whisper to a slot: connected target sessions and the audience of the target channels. */
  ghost function WhisperSet(snap: Snapshot, slot: Slot, speaker: u32): set<u32> {
    (slot.sessions * snap.clients.Keys + Audience(snap, slot.channels)) - {speaker}
  }

  /** All sessions and channels that a client has targeted in any slot. */
  ghost function AllSessions(targets: seq<Slot>): set<u32> {
    set i, s | 0 <= i < |targets| && s in targets[i].sessions :: s
  }

  ghost function AllChannels(targets: seq<Slot>): set<u32> {
    set i, c | 0 <= i < |targets| && c in targets[i].channels :: c
  }

  /** The reached set of the sampler: all target sessions, connected or not, and all audiences. */
  ghost function ReachedSet(snap: Snapshot, session: u32): set<u32>
    requires session in snap.clients
  {
    var targets := snap.clients[session].targets;
    (AllSessions(targets) + Audience(snap, AllChannels(targets))) - {session}
  }

  // ----- The detector never under-counts -----

  lemma {:induction false} WhisperIsReached(snap: Snapshot, session: u32, i: nat)
    requires session in snap.clients && i < |snap.clients[session].targets|
    ensures WhisperSet(snap, snap.clients[session].targets[i], session) <= ReachedSet(snap, session)
  {
    var targets := snap.clients[session].targets;
    assert targets[i].sessions <= AllSessions(targets);
    assert targets[i].channels <= AllChannels(targets);
    assert Audience(snap, targets[i].channels) <= Audience(snap, AllChannels(targets));
  }

  /**
   * Exactly what is over-counted: the reached set is the union of all whisper sets and the target
   * sessions that are not connected.
   */
  lemma {:induction false} ReachedIsExact(snap: Snapshot, session: u32, r: u32)
    requires session in snap.clients
    ensures var targets := snap.clients[session].targets;
      r in ReachedSet(snap, session) <==>
        || (exists i :: 0 <= i < |targets| && r in WhisperSet(snap, targets[i], session))
        || (r in AllSessions(targets) && r !in snap.clients && r != session)
  {
    var targets := snap.clients[session].targets;
    if exists i :: 0 <= i < |targets| && r in WhisperSet(snap, targets[i], session) {
      var i :| 0 <= i < |targets| && r in WhisperSet(snap, targets[i], session);
      WhisperIsReached(snap, session, i);
    }
    if r in ReachedSet(snap, session) {
      if r in AllSessions(targets) {
        var i :| 0 <= i < |targets| && r in targets[i].sessions;
        if r in snap.clients {
          assert r in WhisperSet(snap, targets[i], session);
        }
      } else {
        var c :| c in AllChannels(targets) && c in snap.channels &&
                 r in snap.channels[c].clients + snap.channels[c].listeners;
        var i :| 0 <= i < |targets| && c in targets[i].channels;
        assert r in Audience(snap, targets[i].channels);
        assert r in WhisperSet(snap, targets[i], session);
      }
    }
  }

  // ----- The router -----

  lemma {:induction false} AudienceGrows(snap: Snapshot, channels: set<u32>, c: u32)
    ensures Audience(snap, channels + {c}) ==
      Audience(snap, channels) +
      (if c in snap.channels then snap.channels[c].clients + snap.channels[c].listeners else {})
  {
  }

  method Collect(found: set<u32>, more: set<u32>) returns (all: set<u32>)
    ensures all == found + more
  {
    all := found;
    var todo := more;
    while todo != {}
      invariant todo <= more && all == found + (more - todo)
      decreases todo
    {
      var s :| s in todo;
      todo := todo - {s};
      all := all + {s};
    }
  }

  /** The recipients of a whisper, gathered session by session and channel by channel. */
  method CollectWhisper(snap: Snapshot, slot: Slot) returns (listening: set<u32>)
    ensures listening == slot.sessions * snap.clients.Keys + Audience(snap, slot.channels)
  {
    hide Audience;
    listening := {};
    var sessions := slot.sessions;
    while sessions != {}
      invariant sessions <= slot.sessions
      invariant listening == (slot.sessions - sessions) * snap.clients.Keys
      decreases sessions
    {
      var s :| s in sessions;
      sessions := sessions - {s};
      if s in snap.clients {
        listening := listening + {s};
      }
    }
    ghost var direct := listening;
    var channels := slot.channels;
    AudienceOfNone(snap);
    assert slot.channels - channels == {};
    while channels != {}
      invariant channels <= slot.channels
      invariant listening == direct + Audience(snap, slot.channels - channels)
      decreases channels
    {
      var c :| c in channels;
      AudienceGrows(snap, slot.channels - channels, c);
      assert slot.channels - (channels - {c}) == slot.channels - channels + {c};
      channels := channels - {c};
      if c in snap.channels {
        listening := Collect(listening, snap.channels[c].listeners);
        listening := Collect(listening, snap.channels[c].clients);
      }
    }
    assert slot.channels - channels == slot.channels;
  }

  lemma {:induction false} AudienceOfNone(snap: Snapshot)
    ensures Audience(snap, {}) == {}
  {
  }

  /** Who gets a packet of `speaker` addressed to `target`; 31 is the loopback. */
  ghost function RecipientSet(snap: Snapshot, speaker: u32, target: byte): set<u32>
    requires speaker in snap.clients && WellFormed(snap)
  {
    var c := snap.clients[speaker];
    if target == 0 then
      (if c.channel in snap.channels then snap.channels[c.channel].clients else {}) - {speaker}
    else if target <= 30 then WhisperSet(snap, c.targets[target - 1], speaker)
    else if target == 31 then {speaker}
    else {}
  }

  /** `r` sits in or listens to channel `c`. */
  predicate InAudience(snap: Snapshot, c: u32, r: u32) {
    c in snap.channels && (r in snap.channels[c].clients || r in snap.channels[c].listeners)
  }

  /** A whisper to the slot addresses `r`: by a session that is connected, or through a channel. */
  ghost predicate Addresses(snap: Snapshot, slot: Slot, r: u32) {
    (r in slot.sessions && r in snap.clients) || exists c :: c in slot.channels && InAudience(snap, c, r)
  }

  /** Who the recipients are, target by target. */
  lemma {:induction false} RecipientIff(snap: Snapshot, speaker: u32, target: byte, r: u32)
    requires speaker in snap.clients && WellFormed(snap)
    ensures target == 0 ==>
      var c := snap.clients[speaker].channel;
      (r in RecipientSet(snap, speaker, 0) <==> r != speaker && c in snap.channels && r in snap.channels[c].clients)
    ensures 1 <= target <= 30 ==>
      (r in RecipientSet(snap, speaker, target) <==>
         r != speaker && Addresses(snap, snap.clients[speaker].targets[target - 1], r))
    ensures target == 31 ==> RecipientSet(snap, speaker, target) == {speaker}
    ensures target > 31 ==> RecipientSet(snap, speaker, target) == {}
  {
    if 1 <= target <= 30 {
      var slot := snap.clients[speaker].targets[target - 1];
      WhisperIff(snap, slot, speaker, r);
    }
  }

  lemma {:induction false} WhisperIff(snap: Snapshot, slot: Slot, speaker: u32, r: u32)
    ensures r in WhisperSet(snap, slot, speaker) <==> r != speaker && Addresses(snap, slot, r)
  {
    AudienceIff(snap, slot.channels, r);
  }

  lemma {:induction false} AudienceIff(snap: Snapshot, channels: set<u32>, r: u32)
    ensures r in Audience(snap, channels) <==> exists c :: c in channels && InAudience(snap, c, r)
  {
    if r in Audience(snap, channels) {
      var c :| c in channels && c in snap.channels && r in snap.channels[c].clients + snap.channels[c].listeners;
      assert InAudience(snap, c, r);
    }
    if c :| c in channels && InAudience(snap, c, r) {
      assert r in snap.channels[c].clients + snap.channels[c].listeners;
    }
  }

  /** Through some slot of a client, connected or not, `r` can be addressed. */
  ghost predicate ReachesThrough(snap: Snapshot, targets: seq<Slot>, i: nat, r: u32)
    requires i < |targets|
  {
    r in targets[i].sessions || exists c :: c in targets[i].channels && InAudience(snap, c, r)
  }

  /** The sampler's reached set, slot by slot. */
  lemma {:induction false} ReachedIff(snap: Snapshot, session: u32, r: u32)
    requires session in snap.clients
    ensures var targets := snap.clients[session].targets;
      r in ReachedSet(snap, session) <==>
        r != session && exists i :: 0 <= i < |targets| && ReachesThrough(snap, targets, i, r)
  {
    var targets := snap.clients[session].targets;
    assert r in AllSessions(targets) <==> exists i :: 0 <= i < |targets| && r in targets[i].sessions;
    AudienceIff(snap, AllChannels(targets), r);
    hide Audience, InAudience;
    if r != session && exists i :: 0 <= i < |targets| && ReachesThrough(snap, targets, i, r) {
      var i :| 0 <= i < |targets| && ReachesThrough(snap, targets, i, r);
      if r !in targets[i].sessions {
        var c :| c in targets[i].channels && InAudience(snap, c, r);
        assert c in AllChannels(targets);
      }
    }
    if r in ReachedSet(snap, session) {
      if r in AllSessions(targets) {
        var i :| 0 <= i < |targets| && r in targets[i].sessions;
        assert ReachesThrough(snap, targets, i, r);
      } else {
        var c :| c in AllChannels(targets) && InAudience(snap, c, r);
        var i :| 0 <= i < |targets| && c in targets[i].channels;
        assert ReachesThrough(snap, targets, i, r);
      }
    }
  }

  /** The slot of target `id`; slots are numbered from one. */
  function GetTarget(targets: seq<Slot>, id: nat): Option<Slot>
    requires id >= 1
  {
    if id - 1 < |targets| then Some(targets[id - 1]) else None
  }

  method Recipients(snap: Snapshot, speaker: u32, target: byte) returns (listening: set<u32>)
    requires speaker in snap.clients && WellFormed(snap)
    ensures listening == RecipientSet(snap, speaker, target)
    ensures target != 31 ==> speaker !in listening
  {
    hide Audience;
    listening := {};
    if target == 0 {
      var channel := snap.clients[speaker].channel;
      if channel in snap.channels {
        listening := Collect(listening, snap.channels[channel].clients);
      }
    } else if target <= 30 {
      var slot := GetTarget(snap.clients[speaker].targets, target);
      if slot.Some? {
        listening := CollectWhisper(snap, slot.value);
      }
    } else if target == 31 {
      return {speaker};
    }
    listening := listening - {speaker};
  }

  /** Sends to each recipient that still exists and is not deaf; `sent` is in order of sending. */
  method Deliver(listening: set<u32>, alive: set<u32>, deaf: set<u32>) returns (sent: seq<u32>, recipients: nat)
    ensures forall s :: s in sent <==> s in listening && s in alive && s !in deaf
    ensures forall i, j :: 0 <= i < j < |sent| ==> sent[i] != sent[j]
    ensures recipients == |sent|
  {
    sent, recipients := [], 0;
    var todo := listening;
    while todo != {}
      invariant todo <= listening && recipients == |sent|
      invariant forall s :: s in sent <==> s in listening && s !in todo && s in alive && s !in deaf
      invariant forall i, j :: 0 <= i < j < |sent| ==> sent[i] != sent[j]
      decreases todo
    {
      var s :| s in todo;
      if s in alive && s !in deaf {
        recipients := recipients + 1;
        sent := sent + [s];
      }
      todo := todo - {s};
    }
  }

  lemma {:induction false} DistinctCount(xs: seq<u32>, all: set<u32>)
    requires forall i, j :: 0 <= i < j < |xs| ==> xs[i] != xs[j]
    requires forall i :: 0 <= i < |xs| ==> xs[i] in all
    ensures |xs| <= |all|
  {
    if xs != [] {
      var front, last := xs[..|xs| - 1], xs[|xs| - 1];
      assert forall i :: 0 <= i < |front| ==> front[i] == xs[i];
      DistinctCount(front, all - {last});
    }
  }

  /**
   * A whisper through any slot is sent exactly once to each listener that exists and is not deaf,
   * never back to the speaker, and to no more listeners than the sampler counts as reached.
   */
  method RouteWhisper(snap: Snapshot, speaker: u32, target: byte, alive: set<u32>, deaf: set<u32>)
    returns (sent: seq<u32>, recipients: nat)
    requires speaker in snap.clients && WellFormed(snap) && 1 <= target <= 30
    ensures forall s :: s in sent <==>
      s != speaker && Addresses(snap, snap.clients[speaker].targets[target - 1], s) && s in alive && s !in deaf
    ensures forall i, j :: 0 <= i < j < |sent| ==> sent[i] != sent[j]
    ensures forall i :: 0 <= i < |sent| ==> sent[i] != speaker && sent[i] in ReachedSet(snap, speaker)
    ensures recipients == |sent| <= |ReachedSet(snap, speaker)|
  {
    hide WhisperSet, ReachedSet, Addresses;
    var listening := Recipients(snap, speaker, target);
    forall s
      ensures s in listening <==> s != speaker && Addresses(snap, snap.clients[speaker].targets[target - 1], s)
    {
      RecipientIff(snap, speaker, target, s);
    }
    sent, recipients := Deliver(listening, alive, deaf);
    WhisperIsReached(snap, speaker, target - 1);
    DistinctCount(sent, ReachedSet(snap, speaker));
  }

  /**
   * Plain talk is sent exactly once to each member of the speaker's channel that exists and is not
   * deaf, and to nobody else; listeners from outside do not hear it.
   */
  method RouteTalk(snap: Snapshot, speaker: u32, alive: set<u32>, deaf: set<u32>)
    returns (sent: seq<u32>, recipients: nat)
    requires speaker in snap.clients && WellFormed(snap)
    ensures var c := snap.clients[speaker].channel;
      forall s :: s in sent <==>
        s != speaker && c in snap.channels && s in snap.channels[c].clients && s in alive && s !in deaf
    ensures forall i, j :: 0 <= i < j < |sent| ==> sent[i] != sent[j]
    ensures recipients == |sent|
  {
    hide RecipientSet;
    var listening := Recipients(snap, speaker, 0);
    sent, recipients := Deliver(listening, alive, deaf);
    ghost var c := snap.clients[speaker].channel;
    forall s
      ensures s in listening <==> s != speaker && c in snap.channels && s in snap.channels[c].clients
    {
      RecipientIff(snap, speaker, 0, s);
    }
  }
}
