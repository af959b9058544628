/** One pass of the anticheat sampler over a snapshot: reach, mutuality and listening counts. */
module Sampler {
  import opened Words
  import opened Wrappers
  import opened Routing

  /** The mutuality of somebody who reaches nobody. */
  const NOT_APPLICABLE: nat := 255

  // ----- Targets of one client -----

  /** The sessions and channels targeted in any slot. */
  method Targets(targets: seq<Slot>) returns (sessions: set<u32>, channels: set<u32>)
    ensures sessions == AllSessions(targets) && channels == AllChannels(targets)
  {
    sessions, channels := {}, {};
    for i := 0 to |targets|
      invariant sessions == AllSessions(targets[..i]) && channels == AllChannels(targets[..i])
    {
      TargetsGrow(targets, i);
      sessions := sessions + targets[i].sessions;
      channels := channels + targets[i].channels;
    }
    assert targets[..|targets|] == targets;
  }

  lemma {:induction false} TargetsGrow(targets: seq<Slot>, i: nat)
    requires i < |targets|
    ensures AllSessions(targets[..i + 1]) == AllSessions(targets[..i]) + targets[i].sessions
    ensures AllChannels(targets[..i + 1]) == AllChannels(targets[..i]) + targets[i].channels
  {
    var a, b := targets[..i], targets[..i + 1];
    assert b == a + [targets[i]];
    assert b[i] == targets[i];
    assert forall j :: 0 <= j < i ==> b[j] == a[j];
    forall s | s in AllSessions(a)
      ensures s in AllSessions(b)
    {
      var j :| 0 <= j < |a| && s in a[j].sessions;
      assert s in b[j].sessions;
    }
    forall c | c in AllChannels(a)
      ensures c in AllChannels(b)
    {
      var j :| 0 <= j < |a| && c in a[j].channels;
      assert c in b[j].channels;
    }
  }

  // ----- Members per channel, and who listens to how many -----

  /** The channels a session listens to from outside, among those given. */
  ghost function ListenedBy(snap: Snapshot, channels: set<u32>, s: u32): set<u32> {
    set c | c in channels && c in snap.channels && s in snap.channels[c].listeners
  }

  function CountOf(listens: map<u32, nat>, s: u32): nat {
    if s in listens then listens[s] else 0
  }

  /** The members of each visited channel, clients and listeners alike, are listed. */
  ghost predicate ListsMembers(snap: Snapshot, visited: set<u32>, members: map<u32, seq<u32>>) {
    forall c, s :: c in members && s in members[c] <==>
      c in visited && c in snap.channels && s in snap.channels[c].clients + snap.channels[c].listeners
  }

  ghost predicate CountsListens(snap: Snapshot, visited: set<u32>, listens: map<u32, nat>) {
    forall s :: CountOf(listens, s) == |ListenedBy(snap, visited, s)|
  }

  lemma {:induction false} ListsOneMore(
    snap: Snapshot, visited: set<u32>, members: map<u32, seq<u32>>, c: u32, list: seq<u32>)
    requires ListsMembers(snap, visited, members) && c in snap.channels
    requires forall s :: s in list <==> s in snap.channels[c].clients + snap.channels[c].listeners
    ensures ListsMembers(snap, visited + {c}, members[c := list])
  {
  }

  lemma {:induction false} CountsOneMore(
    snap: Snapshot, visited: set<u32>, before: map<u32, nat>, after: map<u32, nat>, c: u32)
    requires CountsListens(snap, visited, before) && c in snap.channels && c !in visited
    requires forall s :: CountOf(after, s) == CountOf(before, s) + if s in snap.channels[c].listeners then 1 else 0
    ensures CountsListens(snap, visited + {c}, after)
  {
    hide ListenedBy, CountOf;
    forall s: u32
      ensures CountOf(after, s) == |ListenedBy(snap, visited + {c}, s)|
    {
      ListenedGrows(snap, visited, c, s);
    }
  }

  lemma {:induction false} ListenedGrows(snap: Snapshot, visited: set<u32>, c: u32, s: u32)
    requires c in snap.channels && c !in visited
    ensures |ListenedBy(snap, visited + {c}, s)| ==
      |ListenedBy(snap, visited, s)| + if s in snap.channels[c].listeners then 1 else 0
  {
    var prior := ListenedBy(snap, visited, s);
    assert ListenedBy(snap, visited + {c}, s) == if s in snap.channels[c].listeners then prior + {c} else prior;
  }

  method MembersByChannel(snap: Snapshot) returns (members: map<u32, seq<u32>>, listens: map<u32, nat>)
    ensures MembersOf(snap, members) && CountsListens(snap, snap.channels.Keys, listens)
  {
    members, listens := map[], map[];
    var todo := snap.channels.Keys;
    ghost var visited: set<u32> := {};
    while todo != {}
      invariant todo <= snap.channels.Keys && visited == snap.channels.Keys - todo
      invariant ListsMembers(snap, visited, members)
      invariant CountsListens(snap, visited, listens)
      decreases todo
    {
      var c :| c in todo;
      todo := todo - {c};
      var list := Elements(snap.channels[c].clients);
      var heard := Elements(snap.channels[c].listeners);
      ListsOneMore(snap, visited, members, c, list + heard);
      members := members[c := list + heard];
      var more := CountEach(listens, snap.channels[c].listeners);
      CountsOneMore(snap, visited, listens, more, c);
      listens := more;
      visited := visited + {c};
    }
    assert visited == snap.channels.Keys;
  }

  /** The elements of a set in some order. */
  method Elements(xs: set<u32>) returns (list: seq<u32>)
    ensures forall x :: x in list <==> x in xs
  {
    list := [];
    var todo := xs;
    while todo != {}
      invariant todo <= xs
      invariant forall x :: x in list <==> x in xs && x !in todo
      decreases todo
    {
      var x :| x in todo;
      todo := todo - {x};
      list := list + [x];
    }
  }

  /** Adds one to the count of every listener. */
  method CountEach(listens: map<u32, nat>, listeners: set<u32>) returns (more: map<u32, nat>)
    ensures forall s :: CountOf(more, s) == CountOf(listens, s) + if s in listeners then 1 else 0
  {
    more := listens;
    var todo := listeners;
    while todo != {}
      invariant todo <= listeners
      invariant forall s :: CountOf(more, s) == CountOf(listens, s) + if s in listeners && s !in todo then 1 else 0
      decreases todo
    {
      var s :| s in todo;
      todo := todo - {s};
      more := more[s := CountOf(more, s) + 1];
    }
  }

  // ----- Reach -----

  ghost predicate MembersOf(snap: Snapshot, members: map<u32, seq<u32>>) {
    ListsMembers(snap, snap.channels.Keys, members)
  }

  /** Adds everybody in `list` but `self`. */
  method AddOthers(found: set<u32>, list: seq<u32>, self: u32) returns (all: set<u32>)
    ensures all == found + ((set s | s in list) - {self})
  {
    all := found;
    for i := 0 to |list|
      invariant all == found + ((set s | s in list[..i]) - {self})
    {
      assert list[..i + 1] == list[..i] + [list[i]];
      if list[i] != self {
        all := all + {list[i]};
      }
    }
    assert list[..|list|] == list;
  }

  /** The players reached through any slot, and those of them reached through channels. */
  method Reach(snap: Snapshot, session: u32, members: map<u32, seq<u32>>)
    returns (reached: set<u32>, reachedByChannel: set<u32>)
    requires session in snap.clients && MembersOf(snap, members)
    ensures reached == ReachedSet(snap, session)
    ensures reachedByChannel == Audience(snap, AllChannels(snap.clients[session].targets)) - {session}
  {
    var sessions, channels := Targets(snap.clients[session].targets);
    hide Audience, AllSessions, AllChannels;
    var direct := sessions - {session};
    reachedByChannel := {};
    var todo := channels;
    AudienceOfNone(snap);
    assert channels - todo == {};
    while todo != {}
      invariant todo <= channels
      invariant reachedByChannel == Audience(snap, channels - todo) - {session}
      decreases todo
    {
      var c :| c in todo;
      AudienceGrows(snap, channels - todo, c);
      assert channels - (todo - {c}) == channels - todo + {c};
      if c in members {
        ListedIsAudience(snap, members, c);
        reachedByChannel := AddOthers(reachedByChannel, members[c], session);
      } else {
        UnlistedIsEmpty(snap, members, c);
      }
      todo := todo - {c};
    }
    assert channels - todo == channels;
    reached := direct + reachedByChannel;
  }

  lemma {:induction false} ListedIsAudience(snap: Snapshot, members: map<u32, seq<u32>>, c: u32)
    requires MembersOf(snap, members) && c in members
    ensures (set s | s in members[c]) ==
      if c in snap.channels then snap.channels[c].clients + snap.channels[c].listeners else {}
  {
  }

  lemma {:induction false} UnlistedIsEmpty(snap: Snapshot, members: map<u32, seq<u32>>, c: u32)
    requires MembersOf(snap, members) && c !in members
    ensures c in snap.channels ==> snap.channels[c].clients + snap.channels[c].listeners == {}
  {
    assert c in snap.channels ==> forall s :: s !in snap.channels[c].clients + snap.channels[c].listeners;
  }

  // ----- Mutuality -----

  /** `r` targets `session` back, by its session or through its channel. */
  ghost predicate TargetsBack(snap: Snapshot, r: u32, session: u32)
    requires session in snap.clients
  {
    r in snap.clients &&
    (session in AllSessions(snap.clients[r].targets) ||
     snap.clients[session].channel in AllChannels(snap.clients[r].targets))
  }

  ghost function MutualSet(snap: Snapshot, session: u32, reached: set<u32>): set<u32>
    requires session in snap.clients
  {
    set r | r in reached && TargetsBack(snap, r, session)
  }

  function Share(part: nat, whole: nat): (percent: nat)
    requires whole > 0
    ensures part <= whole ==> percent <= 100
  {
    var q := part * 100 / whole;
    assert q * whole <= part * 100;
    assert part <= whole ==> (q - 100) * whole <= 0;
    q
  }

  /** The share, in percent, of the reached players who target back. */
  method Mutuality(snap: Snapshot, session: u32, reached: set<u32>) returns (percent: nat)
    requires session in snap.clients
    ensures reached == {} ==> percent == NOT_APPLICABLE
    ensures reached != {} ==> percent == Share(|MutualSet(snap, session, reached)|, |reached|) && percent <= 100
  {
    if reached == {} {
      return NOT_APPLICABLE;
    }
    var mutual := 0;
    var todo := reached;
    ghost var back: set<u32> := {};
    assert back == MutualSet(snap, session, reached - todo);
    hide MutualSet, AllSessions, AllChannels, Share;
    while todo != {}
      invariant todo <= reached && mutual == |back|
      invariant back == MutualSet(snap, session, reached - todo)
      decreases todo
    {
      var r :| r in todo;
      MutualGrows(snap, session, reached - todo, r);
      assert reached - (todo - {r}) == reached - todo + {r};
      todo := todo - {r};
      if r in snap.clients {
        var sessions, channels := Targets(snap.clients[r].targets);
        if session in sessions || snap.clients[session].channel in channels {
          mutual := mutual + 1;
          back := back + {r};
        }
      }
    }
    assert reached - todo == reached;
    MutualIsPart(snap, session, reached);
    percent := Share(mutual, |reached|);
  }

  lemma {:induction false} MutualGrows(snap: Snapshot, session: u32, seen: set<u32>, r: u32)
    requires session in snap.clients && r !in seen
    ensures MutualSet(snap, session, seen + {r}) ==
      MutualSet(snap, session, seen) + if TargetsBack(snap, r, session) then {r} else {}
    ensures r !in MutualSet(snap, session, seen)
  {
    hide AllSessions, AllChannels;
  }

  lemma {:induction false} MutualIsPart(snap: Snapshot, session: u32, reached: set<u32>)
    requires session in snap.clients
    ensures |MutualSet(snap, session, reached)| <= |reached|
  {
    var rest := reached - MutualSet(snap, session, reached);
    assert reached == MutualSet(snap, session, reached) + rest;
  }
}
