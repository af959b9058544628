/**
 * The server's indexes as values: connected clients, who has no UDP address yet, who owns which
 * address, and who sits in which channel. Each function is one whole method of the server state.
 */
module Server {
  import opened Words
  import opened Wrappers
  import opened Crypt
  import Ids
  import Ocb
  import Voice

  type Addr = nat

  const ROOT: u32 := 0

  /** The UTF-8 bytes of a channel name. */
  type Name = seq<byte>

  const ROOT_NAME: Name := [0x52, 0x6f, 0x6f, 0x74] // "Root"

  datatype ClientView = ClientView(addr: Option<Addr>, channel: u32, cipher: Ocb.Cipher, rx: Receiver)

  datatype ChannelView = ChannelView(name: Name, temporary: bool, members: set<u32>, listeners: set<u32>)

  datatype World = World(
    clients: map<u32, ClientView>,
    withoutUdp: set<u32>,
    bySocket: map<Addr, u32>,
    channels: map<u32, ChannelView>,
    sessionCount: u32,
    channelCount: u32)

  ghost function Initial(): World {
    World(map[], {}, map[], map[ROOT := ChannelView(ROOT_NAME, false, {}, {})], 1, 1)
  }

  // ----- The address index -----

  ghost predicate AllWellFormed(w: World) {
    forall s :: s in w.clients ==> WellFormed(w.clients[s].rx)
  }

  /** Address ownership is recorded on both sides, and who has no address is listed apart. */
  ghost predicate IndexInv(w: World) {
    && AllWellFormed(w)
    && (forall a :: a in w.bySocket ==> w.bySocket[a] in w.clients && w.clients[w.bySocket[a]].addr == Some(a))
    && (forall s :: s in w.clients && w.clients[s].addr.Some? ==>
          w.clients[s].addr.value in w.bySocket && w.bySocket[w.clients[s].addr.value] == s)
    && (forall s :: s in w.withoutUdp <==> s in w.clients && w.clients[s].addr == None)
  }

  ghost function AddClient(w: World, cipher: Ocb.Cipher, now: nat): World
    requires |w.clients.Keys| < TWO32
  {
    var free := Ids.FreeId(w.sessionCount, w.clients.Keys);
    w.(clients := w.clients[free.0 := ClientView(None, ROOT, cipher, Fresh(now))],
       withoutUdp := w.withoutUdp + {free.0},
       sessionCount := free.1)
  }

  ghost function WithClient(w: World, s: u32, c: ClientView): World {
    w.(clients := w.clients[s := c])
  }

  /** The old address is given up; the new one is taken unless somebody holds it. */
  ghost function SetSocket(w: World, s: u32, a: Addr): World
    requires s in w.clients
  {
    var prev := w.clients[s].addr;
    var freed := if prev.Some? then w.bySocket - {prev.value} else w.bySocket;
    WithClient(w, s, w.clients[s].(addr := Some(a))).(bySocket := if a in freed then freed else freed[a := s])
  }

  ghost function ResetCrypt(w: World, s: u32, now: nat): World
    requires s in w.clients
  {
    var prev := w.clients[s].addr;
    WithClient(w, s, w.clients[s].(addr := None, rx := Fresh(now))).(
      withoutUdp := w.withoutUdp + {s},
      bySocket := if prev.Some? then w.bySocket - {prev.value} else w.bySocket)
  }

  ghost function Trial(w: World, s: u32, d: seq<byte>, now: nat): World
    requires s in w.clients && WellFormed(w.clients[s].rx)
  {
    WithClient(w, s, w.clients[s].(rx := After(w.clients[s].cipher, w.clients[s].rx, d, now)))
  }

  ghost function TrialOutcome(w: World, s: u32, d: seq<byte>): Result<Voice.VoicePacket>
    requires s in w.clients && WellFormed(w.clients[s].rx)
  {
    Outcome(w.clients[s].cipher, Voice.ServerBound, w.clients[s].rx, d)
  }

  datatype Found = Nobody | Client(session: u32, packet: Voice.VoicePacket)

  /** Tries a datagram from an unknown address on the clients in `order`, up to the first that can read it. */
  ghost function FindClient(w: World, order: seq<u32>, d: seq<byte>, a: Addr, now: nat): (r: (World, Found))
    requires AllWellFormed(w)
    ensures r.0.clients.Keys == w.clients.Keys
    ensures r.1.Client? ==> r.1.session in w.clients
    decreases |order|
  {
    if order == [] then (w, Nobody)
    else if order[0] !in w.clients then FindClient(w, order[1..], d, a, now)
    else
      var s := order[0];
      var tried := Trial(w, s, d, now);
      match TrialOutcome(w, s, d)
      case Ok(p) =>
        var bound := SetSocket(tried, s, a);
        (bound.(withoutUdp := bound.withoutUdp - {s}), Client(s, p))
      case Err(_) => FindClient(tried, order[1..], d, a, now)
  }

  // ----- What the index operations keep -----

  lemma {:induction false} AddClientKeepsIndex(w: World, cipher: Ocb.Cipher, now: nat)
    requires IndexInv(w) && |w.clients.Keys| < TWO32
    ensures IndexInv(AddClient(w, cipher, now))
  {
  }

  /** Taking an address keeps the two sides inverse exactly when nobody else holds it. */
  lemma {:induction false} SetSocketInverseIff(w: World, s: u32, a: Addr)
    requires IndexInv(w) && s in w.clients
    ensures IndexInv(SetSocket(w, s, a).(withoutUdp := w.withoutUdp - {s})) <==>
      (a in w.bySocket ==> w.bySocket[a] == s)
  {
    hide WellFormed;
    var v := SetSocket(w, s, a).(withoutUdp := w.withoutUdp - {s});
    if a in w.bySocket && w.bySocket[a] != s {
      assert v.clients[s].addr == Some(a) && v.bySocket[a] != s;
    } else {
      SocketIsTaken(w, s, a);
    }
  }

  /** `v` is `w` with `s` at address `a` instead of where it was. */
  ghost predicate TakesAddress(w: World, v: World, s: u32, a: Addr) {
    && s in w.clients && v.clients.Keys == w.clients.Keys && v.withoutUdp == w.withoutUdp - {s}
    && v.clients[s].addr == Some(a) && v.clients[s].rx == w.clients[s].rx
    && (forall t :: t in w.clients && t != s ==> v.clients[t] == w.clients[t])
    && a in v.bySocket && v.bySocket[a] == s
    && (forall b :: b != a ==>
          (b in v.bySocket <==> b in w.bySocket && w.clients[s].addr != Some(b)) &&
          (b in v.bySocket ==> v.bySocket[b] == w.bySocket[b]))
  }

  lemma {:induction false} TakingKeepsIndex(w: World, v: World, s: u32, a: Addr)
    requires IndexInv(w) && TakesAddress(w, v, s, a) && (a in w.bySocket ==> w.bySocket[a] == s)
    ensures IndexInv(v)
  {
    hide WellFormed;
  }

  lemma {:induction false} SocketIsTaken(w: World, s: u32, a: Addr)
    requires IndexInv(w) && s in w.clients && (a in w.bySocket ==> w.bySocket[a] == s)
    ensures IndexInv(SetSocket(w, s, a).(withoutUdp := w.withoutUdp - {s}))
  {
    var v := SetSocket(w, s, a).(withoutUdp := w.withoutUdp - {s});
    assert a in w.bySocket ==> w.clients[s].addr == Some(a);
    assert TakesAddress(w, v, s, a) by { hide IndexInv; }
    hide SetSocket, TakesAddress, IndexInv;
    TakingKeepsIndex(w, v, s, a);
  }

  lemma {:induction false} ResetCryptKeepsIndex(w: World, s: u32, now: nat)
    requires IndexInv(w) && s in w.clients
    ensures IndexInv(ResetCrypt(w, s, now))
  {
  }

  lemma {:induction false} TrialKeepsIndex(w: World, s: u32, d: seq<byte>, now: nat)
    requires IndexInv(w) && s in w.clients
    ensures IndexInv(Trial(w, s, d, now))
  {
    hide After;
  }

  lemma {:induction false} FindClientKeepsIndex(w: World, order: seq<u32>, d: seq<byte>, a: Addr, now: nat)
    requires IndexInv(w) && a !in w.bySocket
    ensures IndexInv(FindClient(w, order, d, a, now).0)
    decreases |order|
  {
    hide After, Outcome;
    if order != [] {
      if order[0] !in w.clients {
        FindClientKeepsIndex(w, order[1..], d, a, now);
      } else {
        var s := order[0];
        var tried := Trial(w, s, d, now);
        TrialKeepsIndex(w, s, d, now);
        SetSocketInverseIff(tried, s, a);
        FindClientKeepsIndex(tried, order[1..], d, a, now);
      }
    }
  }

  /** Only who can read the datagram, or commits to it before failing to parse it, changes. */
  ghost predicate OnlyReadersChange(w: World, v: World, order: seq<u32>, d: seq<byte>)
    requires AllWellFormed(w)
  {
    && v.clients.Keys == w.clients.Keys
    && v.channels == w.channels && v.sessionCount == w.sessionCount && v.channelCount == w.channelCount
    && forall s :: s in w.clients ==>
         && v.clients[s].cipher == w.clients[s].cipher
         && v.clients[s].channel == w.clients[s].channel
         && (v.clients[s].rx == w.clients[s].rx || (s in order && Commits(w.clients[s].cipher, w.clients[s].rx, d)))
  }

  lemma {:induction false} TrialTouches(w: World, s: u32, d: seq<byte>, now: nat)
    requires AllWellFormed(w) && s in w.clients
    ensures AllWellFormed(Trial(w, s, d, now)) && OnlyReadersChange(w, Trial(w, s, d, now), [s], d)
  {
    hide Commits, Outcome, Commit;
  }

  /** Two searches, one after the other; who did not commit in the first is as before for the second. */
  lemma {:induction false} TouchesChain(w: World, u: World, v: World, s: u32, rest: seq<u32>, d: seq<byte>)
    requires AllWellFormed(w) && AllWellFormed(u)
    requires OnlyReadersChange(w, u, [s], d) && OnlyReadersChange(u, v, rest, d)
    ensures OnlyReadersChange(w, v, [s] + rest, d)
  {
    hide Commits, WellFormed;
  }

  lemma {:induction false} FindClientTouches(w: World, order: seq<u32>, d: seq<byte>, a: Addr, now: nat)
    requires AllWellFormed(w)
    ensures OnlyReadersChange(w, FindClient(w, order, d, a, now).0, order, d)
    decreases |order|
  {
    hide Trial, TrialOutcome, Commits, WellFormed;
    if order != [] {
      var s, rest := order[0], order[1..];
      assert order == [s] + rest;
      if s !in w.clients {
        FindClientTouches(w, rest, d, a, now);
      } else {
        var tried := Trial(w, s, d, now);
        TrialTouches(w, s, d, now);
        FindClientTouches(tried, rest, d, a, now);
        TouchesChain(w, tried, FindClient(tried, rest, d, a, now).0, s, rest, d);
      }
    }
  }

  predicate Distinct(order: seq<u32>) {
    forall i, j :: 0 <= i < j < |order| ==> order[i] != order[j]
  }

  /** The client found is the first in the order that can read the datagram; it now owns the address. */
  lemma {:induction false} FindClientResult(w: World, order: seq<u32>, d: seq<byte>, a: Addr, now: nat)
    requires AllWellFormed(w) && Distinct(order)
    ensures var r := FindClient(w, order, d, a, now);
      && (r.1.Nobody? ==>
            && r.0.bySocket == w.bySocket && r.0.withoutUdp == w.withoutUdp
            && (forall s :: s in w.clients ==> r.0.clients[s].addr == w.clients[s].addr)
            && (forall i :: 0 <= i < |order| && order[i] in w.clients ==> TrialOutcome(w, order[i], d).Err?))
      && (r.1.Client? ==>
            && r.1.session in order
            && TrialOutcome(w, r.1.session, d) == Ok(r.1.packet)
            && r.0.clients[r.1.session].addr == Some(a)
            && r.0.withoutUdp == w.withoutUdp - {r.1.session}
            && (forall i, j :: 0 <= i < j < |order| && order[j] == r.1.session && order[i] in w.clients ==>
                  TrialOutcome(w, order[i], d).Err?))
    decreases |order|
  {
    hide After, Outcome;
    if order != [] {
      var rest := order[1..];
      if order[0] !in w.clients {
        FindClientResult(w, rest, d, a, now);
      } else {
        var tried := Trial(w, order[0], d, now);
        FindClientResult(tried, rest, d, a, now);
      }
    }
  }

  /** Trying clients in two batches: the second batch is tried only if nobody in the first could read. */
  lemma {:induction false} FindClientAppend(w: World, first: seq<u32>, then': seq<u32>, d: seq<byte>, a: Addr, now: nat)
    requires AllWellFormed(w)
    ensures var r := FindClient(w, first, d, a, now);
      r.1.Nobody? ==> AllWellFormed(r.0) && FindClient(w, first + then', d, a, now) == FindClient(r.0, then', d, a, now)
    decreases |first|
  {
    hide After, Outcome, SetSocket;
    var r := FindClient(w, first, d, a, now);
    if first == [] {
      assert first + then' == then';
    } else {
      assert (first + then')[1..] == first[1..] + then';
      var v := if first[0] !in w.clients then w else Trial(w, first[0], d, now);
      FindClientAppend(v, first[1..], then', d, a, now);
    }
  }

  /** One more client. */
  lemma {:induction false} FindClientNext(w: World, done: seq<u32>, s: u32, d: seq<byte>, a: Addr, now: nat)
    requires AllWellFormed(w) && FindClient(w, done, d, a, now).1.Nobody? && s in w.clients
    ensures var v := FindClient(w, done, d, a, now).0;
      && AllWellFormed(v)
      && (TrialOutcome(v, s, d).Err? ==> FindClient(w, done + [s], d, a, now) == (Trial(v, s, d, now), Nobody))
      && (TrialOutcome(v, s, d).Ok? ==>
            var bound := SetSocket(Trial(v, s, d, now), s, a);
            FindClient(w, done + [s], d, a, now) ==
              (bound.(withoutUdp := bound.withoutUdp - {s}), Client(s, TrialOutcome(v, s, d).value)))
  {
    hide After, Outcome, SetSocket;
    FindClientAppend(w, done, [s], d, a, now);
    var v := FindClient(w, done, d, a, now).0;
    assert [s][1..] == [];
  }

  // ----- Channels -----

  /** A client is a member of its own channel only, except that a newcomer sits in Root unlisted. */
  ghost predicate MembersInv(w: World) {
    && ROOT in w.channels && !w.channels[ROOT].temporary
    && (forall c, s :: c in w.channels && s in w.channels[c].members ==> s in w.clients && w.clients[s].channel == c)
    && (forall s :: s in w.clients && w.clients[s].channel != ROOT ==>
          w.clients[s].channel in w.channels && s in w.channels[w.clients[s].channel].members)
  }

  ghost predicate NamesInv(w: World) {
    forall c, e :: c in w.channels && e in w.channels && c != e ==> w.channels[c].name != w.channels[e].name
  }

  /** Every temporary channel but `spared` has members. */
  ghost predicate NoEmptyTemporary(w: World, spared: Option<u32>) {
    forall c :: c in w.channels && w.channels[c].temporary && Some(c) != spared ==> w.channels[c].members != {}
  }

  ghost predicate ChannelInv(w: World) {
    MembersInv(w) && NamesInv(w) && NoEmptyTemporary(w, None)
  }

  ghost function WithMembers(w: World, c: u32, members: set<u32>): World
    requires c in w.channels
  {
    w.(channels := w.channels[c := w.channels[c].(members := members)])
  }

  /** Takes `s` out of a channel, and the channel out of the server if that leaves it temporary and empty. */
  ghost function LeaveChannel(w: World, s: u32, c: u32): World {
    if c !in w.channels then w
    else
      var v := WithMembers(w, c, w.channels[c].members - {s});
      if !v.channels[c].temporary || v.channels[c].members != {} then v else v.(channels := v.channels - {c})
  }

  /** Stores the new channel first; a channel that does not exist is noticed only after that. */
  ghost function SetChannel(w: World, s: u32, c: u32): World
    requires s in w.clients
  {
    var prev := w.clients[s].channel;
    var moved := WithClient(w, s, w.clients[s].(channel := c));
    if c !in w.channels then moved
    else
      var joined := WithMembers(moved, c, w.channels[c].members + {s});
      if prev == c then joined else LeaveChannel(joined, s, prev)
  }

  /** The tables of clients without `s`, before it has left its channel. */
  ghost function Dropped(w: World, s: u32): World
    requires s in w.clients
  {
    var c := w.clients[s];
    w.(
      clients := w.clients - {s},
      withoutUdp := w.withoutUdp - {s},
      bySocket := if c.addr.Some? then w.bySocket - {c.addr.value} else w.bySocket)
  }

  ghost function Disconnect(w: World, s: u32): World {
    if s !in w.clients then w
    else
      LeaveChannel(Dropped(w, s), s, w.clients[s].channel)
  }

  ghost function AddChannel(w: World, name: Name, temporary: bool): (r: (World, u32))
    requires |w.channels.Keys| < TWO32
    ensures r.1 !in w.channels
  {
    var free := Ids.FreeId(w.channelCount, w.channels.Keys);
    (w.(channels := w.channels[free.0 := ChannelView(name, temporary, {}, {})], channelCount := free.1), free.0)
  }

  /** The fields of a request to create a channel. */
  datatype ChannelRequest = ChannelRequest(
    hasId: bool, parent: Option<u32>, name: Option<Name>, temporary: bool)

  ghost predicate NameTaken(w: World, name: Name) {
    exists c :: c in w.channels && w.channels[c].name == name
  }

  ghost predicate Creates(w: World, r: ChannelRequest) {
    && !r.hasId && r.parent.Some? && r.name.Some? && r.temporary && |r.name.value| <= 512
    && r.parent.value in w.channels && !NameTaken(w, r.name.value)
  }

  /** Creates a temporary channel and moves its creator into it, if every guard passes. */
  ghost function CreateChannel(w: World, s: u32, r: ChannelRequest): World
    requires s in w.clients && |w.channels.Keys| < TWO32
  {
    if Creates(w, r) then
      var added := AddChannel(w, r.name.value, r.temporary);
      SetChannel(added.0, s, added.1)
    else w
  }

  /** The membership rules, except that `s` may still be listed in channel `p`. */
  ghost predicate MembersInvBut(w: World, s: u32, p: u32) {
    && ROOT in w.channels && !w.channels[ROOT].temporary
    && (forall c, t :: c in w.channels && t in w.channels[c].members && !(c == p && t == s) ==>
          t in w.clients && w.clients[t].channel == c)
    && (forall t :: t in w.clients && w.clients[t].channel != ROOT ==>
          w.clients[t].channel in w.channels && t in w.channels[w.clients[t].channel].members)
    && (s in w.clients ==> w.clients[s].channel != p)
  }

  /** What leaving does to each channel. */
  lemma {:induction false} LeaveShape(w: World, s: u32, p: u32)
    ensures var v := LeaveChannel(w, s, p);
      && v.clients == w.clients
      && (forall c :: c in v.channels ==>
            && c in w.channels && v.channels[c].temporary == w.channels[c].temporary
            && v.channels[c].members == if c == p then w.channels[c].members - {s} else w.channels[c].members)
      && (forall c :: c in w.channels && (c != p || !w.channels[c].temporary || w.channels[c].members - {s} != {}) ==>
            c in v.channels)
  {
  }

  lemma {:induction false} LeaveMembers(w: World, s: u32, p: u32)
    requires MembersInvBut(w, s, p)
    ensures MembersInv(LeaveChannel(w, s, p))
  {
    hide LeaveChannel;
    LeaveShape(w, s, p);
    var v := LeaveChannel(w, s, p);
    forall t | t in v.clients && v.clients[t].channel != ROOT
      ensures v.clients[t].channel in v.channels && t in v.channels[v.clients[t].channel].members
    {
      var c := v.clients[t].channel;
      assert t in w.channels[c].members;
      assert c == p ==> t in w.channels[c].members - {s};
    }
  }

  lemma {:induction false} LeaveNames(w: World, s: u32, p: u32)
    requires NamesInv(w)
    ensures NamesInv(LeaveChannel(w, s, p))
  {
  }

  lemma {:induction false} LeaveTemporary(w: World, s: u32, p: u32)
    requires NoEmptyTemporary(w, None)
    ensures NoEmptyTemporary(LeaveChannel(w, s, p), None)
  {
  }

  lemma {:induction false} JoinMembers(w: World, s: u32, c: u32)
    requires MembersInv(w) && s in w.clients && c in w.channels
    ensures MembersInv(SetChannel(w, s, c))
  {
    hide LeaveChannel;
    var prev := w.clients[s].channel;
    var joined := WithMembers(WithClient(w, s, w.clients[s].(channel := c)), c, w.channels[c].members + {s});
    if prev != c {
      assert MembersInvBut(joined, s, prev);
      LeaveMembers(joined, s, prev);
    }
  }

  lemma {:induction false} JoinNames(w: World, s: u32, c: u32)
    requires NamesInv(w) && s in w.clients
    ensures NamesInv(SetChannel(w, s, c))
  {
    hide LeaveChannel;
    if c in w.channels && w.clients[s].channel != c {
      var joined := WithMembers(WithClient(w, s, w.clients[s].(channel := c)), c, w.channels[c].members + {s});
      LeaveNames(joined, s, w.clients[s].channel);
    }
  }

  lemma {:induction false} JoinTemporary(w: World, s: u32, c: u32)
    requires NoEmptyTemporary(w, Some(c)) && s in w.clients && c in w.channels
    ensures NoEmptyTemporary(SetChannel(w, s, c), None)
  {
    hide LeaveChannel;
    var joined := WithMembers(WithClient(w, s, w.clients[s].(channel := c)), c, w.channels[c].members + {s});
    assert NoEmptyTemporary(joined, None);
    LeaveTemporary(joined, s, w.clients[s].channel);
  }

  /** Joining keeps the channel rules exactly when the channel exists. */
  lemma {:induction false} JoinKeepsChannelsIff(w: World, s: u32, c: u32)
    requires ChannelInv(w) && s in w.clients
    ensures ChannelInv(SetChannel(w, s, c)) <==> c in w.channels
  {
    if c in w.channels {
      JoinMembers(w, s, c);
      JoinNames(w, s, c);
      JoinTemporary(w, s, c);
    } else {
      assert SetChannel(w, s, c).clients[s].channel == c;
    }
  }

  ghost predicate Extends(v: World, w: World, id: u32, name: Name) {
    && v.clients == w.clients && v.channels.Keys == w.channels.Keys + {id} && id !in w.channels
    && v.channels[id].name == name && v.channels[id].members == {}
    && forall c :: c in w.channels ==> v.channels[c] == w.channels[c]
  }

  lemma {:induction false} NewChannelMembers(v: World, w: World, id: u32, name: Name)
    requires MembersInv(w) && Extends(v, w, id, name)
    ensures MembersInv(v)
  {
  }

  lemma {:induction false} NewChannelNames(v: World, w: World, id: u32, name: Name)
    requires NamesInv(w) && Extends(v, w, id, name) && !NameTaken(w, name)
    ensures NamesInv(v)
  {
    forall c | c in w.channels
      ensures w.channels[c].name != name
    {
    }
  }

  /** A new channel with a free name keeps every rule but one: it is still empty. */
  lemma {:induction false} AddChannelKeeps(w: World, name: Name, temporary: bool)
    requires ChannelInv(w) && |w.channels.Keys| < TWO32 && !NameTaken(w, name)
    ensures var r := AddChannel(w, name, temporary);
      MembersInv(r.0) && NamesInv(r.0) && NoEmptyTemporary(r.0, Some(r.1))
  {
    hide Ids.FreeId, MembersInv, NamesInv, NameTaken;
    var r := AddChannel(w, name, temporary);
    NewChannelMembers(r.0, w, r.1, name);
    NewChannelNames(r.0, w, r.1, name);
  }

  lemma {:induction false} CreateKeepsChannels(w: World, s: u32, r: ChannelRequest)
    requires ChannelInv(w) && s in w.clients && |w.channels.Keys| < TWO32
    ensures ChannelInv(CreateChannel(w, s, r))
  {
    hide SetChannel, MembersInv, NamesInv, NoEmptyTemporary;
    if Creates(w, r) {
      var added := AddChannel(w, r.name.value, r.temporary);
      AddChannelKeeps(w, r.name.value, r.temporary);
      JoinMembers(added.0, s, added.1);
      JoinNames(added.0, s, added.1);
      JoinTemporary(added.0, s, added.1);
    }
  }

  lemma {:induction false} DisconnectKeepsChannels(w: World, s: u32)
    requires ChannelInv(w)
    ensures ChannelInv(Disconnect(w, s))
  {
    hide LeaveChannel;
    if s in w.clients {
      var gone, p := Dropped(w, s), w.clients[s].channel;
      assert MembersInvBut(gone, s, p);
      LeaveMembers(gone, s, p);
      LeaveNames(gone, s, p);
      LeaveTemporary(gone, s, p);
    }
  }

  lemma {:induction false} DisconnectKeepsIndex(w: World, s: u32)
    requires IndexInv(w)
    ensures IndexInv(Disconnect(w, s))
  {
  }

  // ----- What changes and what does not -----

  ghost predicate SameOthers(w: World, v: World, s: u32) {
    && (forall t :: t in v.clients && t != s ==> t in w.clients)
    && (forall t :: t in w.clients && t != s ==> t in v.clients && v.clients[t] == w.clients[t])
  }

  /** The one channel that a departure of `s` deletes: temporary, and nobody else in it. */
  ghost predicate Vacates(w: World, s: u32, c: u32) {
    c in w.channels && w.channels[c].temporary && w.channels[c].members - {s} == {}
  }

  /**
   * A client that joins an existing channel ends up in it and in no other; the only channel that can
   * disappear is the one it left, exactly if that was temporary and the client was alone there.
   */
  lemma {:induction false} JoinMoves(w: World, s: u32, c: u32)
    requires MembersInv(w) && s in w.clients && c in w.channels
    ensures var v, prev := SetChannel(w, s, c), w.clients[s].channel;
      && SameOthers(w, v, s) && s in v.clients && v.clients[s] == w.clients[s].(channel := c)
      && (forall d :: d in v.channels ==> (s in v.channels[d].members <==> d == c))
      && (forall d :: d in w.channels ==> (d !in v.channels <==> d == prev && d != c && Vacates(w, s, d)))
      && (forall d :: d in v.channels ==> d in w.channels && v.channels[d].members - {s} == w.channels[d].members - {s})
  {
    hide LeaveChannel;
    var prev := w.clients[s].channel;
    var joined := WithMembers(WithClient(w, s, w.clients[s].(channel := c)), c, w.channels[c].members + {s});
    assert forall d :: d in joined.channels ==> joined.channels[d].members - {s} == w.channels[d].members - {s};
    if prev != c {
      LeaveExactly(joined, s, prev);
    }
  }

  lemma {:induction false} LeaveExactly(w: World, s: u32, p: u32)
    ensures var v := LeaveChannel(w, s, p);
      && v.clients == w.clients
      && (forall d :: d in w.channels ==> (d !in v.channels <==> d == p && Vacates(w, s, d)))
      && (forall d :: d in v.channels ==>
            && d in w.channels
            && v.channels[d].members == if d == p then w.channels[d].members - {s} else w.channels[d].members)
  {
  }

  lemma {:induction false} DroppedIndex(w: World, s: u32)
    requires IndexInv(w) && s in w.clients
    ensures var v := Dropped(w, s);
      && v.channels == w.channels
      && SameOthers(w, v, s) && s !in v.clients && s !in v.withoutUdp
      && (forall a :: a in v.bySocket <==> a in w.bySocket && w.bySocket[a] != s)
      && (forall a :: a in v.bySocket ==> v.bySocket[a] == w.bySocket[a])
  {
    hide WellFormed;
  }

  lemma {:induction false} NotListed(w: World, s: u32, d: u32)
    requires MembersInv(w) && s in w.clients && d in w.channels && d != w.clients[s].channel
    ensures w.channels[d].members - {s} == w.channels[d].members
  {
  }

  /** After a disconnect nothing in the server refers to the client, and everybody else is as before. */
  lemma {:induction false} DisconnectRemoves(w: World, s: u32)
    requires IndexInv(w) && MembersInv(w) && s in w.clients
    ensures var v := Disconnect(w, s);
      && SameOthers(w, v, s) && s !in v.clients && s !in v.withoutUdp
      && (forall a :: a in v.bySocket <==> a in w.bySocket && w.bySocket[a] != s)
      && (forall a :: a in v.bySocket ==> v.bySocket[a] == w.bySocket[a])
      && (forall d :: d in v.channels ==> d in w.channels && v.channels[d].members == w.channels[d].members - {s})
      && (forall d :: d in w.channels ==> (d !in v.channels <==> d == w.clients[s].channel && Vacates(w, s, d)))
  {
    hide LeaveChannel, IndexInv, MembersInv, Dropped;
    var p := w.clients[s].channel;
    DroppedIndex(w, s);
    LeaveExactly(Dropped(w, s), s, p);
    LeaveKeepsIndex(Dropped(w, s), s, p);
    forall d | d in w.channels && d != p
      ensures w.channels[d].members - {s} == w.channels[d].members
    {
      NotListed(w, s, d);
    }
  }

  lemma {:induction false} LeaveKeepsIndex(w: World, s: u32, p: u32)
    ensures var v := LeaveChannel(w, s, p);
      v.clients == w.clients && v.bySocket == w.bySocket && v.withoutUdp == w.withoutUdp
  {
  }

  /** A request that passes every guard makes one new channel of that name, with the creator alone in it. */
  lemma {:induction false} CreateMakes(w: World, s: u32, r: ChannelRequest)
    requires ChannelInv(w) && s in w.clients && |w.channels.Keys| < TWO32 && Creates(w, r)
    ensures var v := CreateChannel(w, s, r);
      && s in v.clients
      && var id := v.clients[s].channel;
         id !in w.channels && id in v.channels &&
         v.channels[id].name == r.name.value && v.channels[id].temporary && v.channels[id].members == {s}
  {
    hide SetChannel, NamesInv, NoEmptyTemporary, Creates, Ids.FreeId;
    Guards(w, r);
    var added := AddChannel(w, r.name.value, true);
    AddChannelAdds(w, r.name.value, true);
    AddChannelKeeps(w, r.name.value, true);
    JoinMoves(added.0, s, added.1);
    JoinKeepsRest(added.0, s, added.1);
    var v := SetChannel(added.0, s, added.1);
    assert v.channels[added.1].members == v.channels[added.1].members - {s} + {s};
  }

  lemma {:induction false} Guards(w: World, r: ChannelRequest)
    requires Creates(w, r)
    ensures r.temporary && r.name.Some? && !NameTaken(w, r.name.value)
  {
  }

  /** Nothing but members changes in the channels that are left, and nothing outside clients and channels. */
  ghost predicate RestIsSame(w: World, v: World) {
    && v.sessionCount == w.sessionCount && v.channelCount == w.channelCount
    && forall d :: d in v.channels ==>
         && d in w.channels && v.channels[d].name == w.channels[d].name
         && v.channels[d].temporary == w.channels[d].temporary && v.channels[d].listeners == w.channels[d].listeners
  }

  lemma {:induction false} LeaveKeepsRest(w: World, s: u32, p: u32)
    ensures RestIsSame(w, LeaveChannel(w, s, p))
  {
  }

  /** A join keeps names, listeners, addresses and counters. */
  lemma {:induction false} JoinKeepsRest(w: World, s: u32, c: u32)
    requires s in w.clients
    ensures var v := SetChannel(w, s, c);
      RestIsSame(w, v) && v.bySocket == w.bySocket && v.withoutUdp == w.withoutUdp
  {
    hide LeaveChannel;
    var moved := WithClient(w, s, w.clients[s].(channel := c));
    if c in w.channels {
      var joined := WithMembers(moved, c, w.channels[c].members + {s});
      assert RestIsSame(w, joined);
      LeaveKeepsRest(joined, s, w.clients[s].channel);
      LeaveKeepsIndex(joined, s, w.clients[s].channel);
    }
  }

  /** So does a disconnect, apart from the address; ids are not handed out again before the counter wraps. */
  lemma {:induction false} DisconnectKeepsRest(w: World, s: u32)
    ensures RestIsSame(w, Disconnect(w, s))
  {
    hide LeaveChannel;
    if s in w.clients {
      assert RestIsSame(w, Dropped(w, s));
      LeaveKeepsRest(Dropped(w, s), s, w.clients[s].channel);
    }
  }

  /** A new channel is empty, has the name and permanence asked for and an id that no channel has; nothing else changes. */
  lemma {:induction false} AddChannelAdds(w: World, name: Name, temporary: bool)
    requires |w.channels.Keys| < TWO32
    ensures var r := AddChannel(w, name, temporary);
      && Extends(r.0, w, r.1, name) && r.0.channels[r.1].temporary == temporary && r.0.channels[r.1].listeners == {}
      && r.0.bySocket == w.bySocket && r.0.withoutUdp == w.withoutUdp && r.0.sessionCount == w.sessionCount
  {
    hide Ids.FreeId;
  }

  /** A new client gets an id that nobody has, sits in Root, has no address and starts with a fresh receiver. */
  lemma {:induction false} AddClientAdds(w: World, cipher: Ocb.Cipher, now: nat)
    requires |w.clients.Keys| < TWO32
    ensures var v := AddClient(w, cipher, now);
      exists id :: id !in w.clients && NewcomerIs(w, v, id, cipher, now)
  {
    hide Ids.FreeId;
    var id := Ids.FreeId(w.sessionCount, w.clients.Keys).0;
    assert NewcomerIs(w, AddClient(w, cipher, now), id, cipher, now);
  }

  ghost predicate NewcomerIs(w: World, v: World, id: u32, cipher: Ocb.Cipher, now: nat) {
    && v.clients.Keys == w.clients.Keys + {id} && SameOthers(w, v, id)
    && v.clients[id].addr == None && v.clients[id].channel == 0 && v.clients[id].cipher == cipher
    && StartsOver(v.clients[id].rx, now)
    && v.withoutUdp == w.withoutUdp + {id} && v.bySocket == w.bySocket && v.channels == w.channels
  }

  /**
   * A request is ignored exactly if it names an id, lacks a parent or a name, is not for a temporary
   * channel, has a name of more than 512 bytes or one that is taken, or a parent that is missing.
   */
  lemma {:induction false} IgnoredIff(w: World, s: u32, r: ChannelRequest)
    requires s in w.clients && |w.channels.Keys| < TWO32
    ensures CreateChannel(w, s, r) == w <==>
      || r.hasId || r.parent == None || r.name == None || !r.temporary
      || |r.name.value| > 512
      || r.parent.value !in w.channels
      || exists c :: c in w.channels && w.channels[c].name == r.name.value
  {
    if Creates(w, r) {
      CreateLands(w, s, r);
    }
  }

  lemma {:induction false} CreateLands(w: World, s: u32, r: ChannelRequest)
    requires s in w.clients && |w.channels.Keys| < TWO32 && Creates(w, r)
    ensures var v := CreateChannel(w, s, r);
      s in v.clients && v.clients[s].channel in v.channels && v.clients[s].channel !in w.channels
  {
    hide Ids.FreeId, NameTaken;
    var added := AddChannel(w, r.name.value, r.temporary);
    hide AddChannel;
    var joined := WithMembers(WithClient(added.0, s, added.0.clients[s].(channel := added.1)), added.1,
                              added.0.channels[added.1].members + {s});
    if added.0.clients[s].channel != added.1 {
      LeaveExactly(joined, s, added.0.clients[s].channel);
    }
  }

  /** Joining a channel that does not exist changes one thing: the channel the client claims to be in. */
  lemma {:induction false} JoinMissing(w: World, s: u32, c: u32)
    requires s in w.clients && c !in w.channels
    ensures var v := SetChannel(w, s, c);
      && v.clients.Keys == w.clients.Keys && SameOthers(w, v, s) && v.clients[s].channel == c
      && v.clients[s].addr == w.clients[s].addr && v.clients[s].rx == w.clients[s].rx
      && v.channels == w.channels && v.bySocket == w.bySocket && v.withoutUdp == w.withoutUdp
  {
  }
}
