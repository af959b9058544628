/** Datagram handling, and what holds of the server after any sequence of whole operations. */
module ServerRuns {
  import opened Words
  import opened Wrappers
  import opened Crypt
  import opened Server
  import Ocb
  import Varint
  import Voice

  // ----- Datagrams -----

  datatype Handling =
    | Malformed
    | ListPing(timestamp: u64)
    | Unknown
    | Relayed(session: u32, packet: Voice.VoicePacket)
    | Refused(session: u32, error: DecryptError, reset: bool)

  /** Whether an unreadable datagram from a known address makes the server start the cipher over; times are in milliseconds. */
  predicate RestartsCrypt(e: DecryptError, rx: Receiver, now: nat) {
    var stale := now >= rx.lastGood && (now - rx.lastGood) / 1000 > 5;
    stale || (e == Late && rx.late > 100) || (e != Late && e != Repeat)
  }

  /** Datagrams of this shape are answered as a server-list ping before any decryption. */
  predicate LooksLikeListPing(d: seq<byte>) {
    |d| == 12 && d[0] / 0x20 == 0
  }

  function AnswerListPing(d: seq<byte>): Handling
    requires |d| > 1
  {
    match Varint.Decode(d[1..])
    case Truncated => Malformed
    case Read(timestamp, _) => ListPing(timestamp)
  }

  ghost function HandlePacket(w: World, order: seq<u32>, d: seq<byte>, a: Addr, now: nat): (World, Handling)
    requires AllWellFormed(w)
  {
    if |d| <= 1 then (w, Malformed)
    else if LooksLikeListPing(d) then (w, AnswerListPing(d))
    else if a in w.bySocket && w.bySocket[a] in w.clients then
      var s := w.bySocket[a];
      var tried := Trial(w, s, d, now);
      match TrialOutcome(w, s, d)
      case Ok(p) => (tried, Relayed(s, p))
      case Err(e) =>
        if RestartsCrypt(e, tried.clients[s].rx, now) then (ResetCrypt(tried, s, now), Refused(s, e, true))
        else (tried, Refused(s, e, false))
    else
      var r := FindClient(w, order, d, a, now);
      (r.0, if r.1.Client? then Relayed(r.1.session, r.1.packet) else Unknown)
  }

  lemma {:induction false} IndexedIsWellFormed(w: World)
    requires IndexInv(w)
    ensures AllWellFormed(w)
  {
  }

  lemma {:induction false} HandlePacketKeepsIndex(w: World, order: seq<u32>, d: seq<byte>, a: Addr, now: nat)
    requires IndexInv(w)
    ensures IndexInv(HandlePacket(w, order, d, a, now).0)
  {
    hide IndexInv, AllWellFormed, FindClient, Trial, TrialOutcome, ResetCrypt;
    IndexedIsWellFormed(w);
    if a in w.bySocket {
      var s := OwnerIsConnected(w, a);
      TrialKeepsIndex(w, s, d, now);
      ResetCryptKeepsIndex(Trial(w, s, d, now), s, now) by { TrialKeepsClients(w, s, d, now); }
    } else {
      FindClientKeepsIndex(w, order, d, a, now);
    }
  }

  lemma {:induction false} OwnerIsConnected(w: World, a: Addr) returns (s: u32)
    requires IndexInv(w) && a in w.bySocket
    ensures s == w.bySocket[a] && s in w.clients && w.clients[s].addr == Some(a) && WellFormed(w.clients[s].rx)
  {
    s := w.bySocket[a];
  }

  lemma {:induction false} TrialKeepsClients(w: World, s: u32, d: seq<byte>, now: nat)
    requires s in w.clients && WellFormed(w.clients[s].rx)
    ensures Trial(w, s, d, now).clients.Keys == w.clients.Keys
  {
    hide After;
  }

  /** Who can read a datagram: the owner of its address, or else whom the search finds. */
  ghost function Reader(w: World, order: seq<u32>, d: seq<byte>, a: Addr, now: nat): Found
    requires AllWellFormed(w)
  {
    if a in w.bySocket && w.bySocket[a] in w.clients then
      match TrialOutcome(w, w.bySocket[a], d)
      case Ok(p) => Client(w.bySocket[a], p)
      case Err(_) => Nobody
    else FindClient(w, order, d, a, now).1
  }

  lemma {:induction false} ReadIsLong(w: World, order: seq<u32>, d: seq<byte>, a: Addr, now: nat)
    requires AllWellFormed(w)
    ensures FindClient(w, order, d, a, now).1.Client? ==> |d| >= 4
    decreases |order|
  {
    hide Trial, SetSocket, Judge, TagMatches, Voice.Decode, Ocb.Decrypt, WellFormed;
    if order != [] {
      if order[0] !in w.clients {
        ReadIsLong(w, order[1..], d, a, now);
      } else {
        TrialTouches(w, order[0], d, now);
        ReadIsLong(Trial(w, order[0], d, now), order[1..], d, a, now);
      }
    }
  }

  /**
   * A datagram that somebody can read, from a known address or an unknown one, is relayed exactly
   * when it does not look like a list ping; one that does is answered as a ping and changes nothing.
   */
  lemma {:induction false} ReadableIsRelayedIff(
    w: World, order: seq<u32>, d: seq<byte>, a: Addr, now: nat, s: u32, p: Voice.VoicePacket)
    requires AllWellFormed(w)
    ensures LooksLikeListPing(d) ==> HandlePacket(w, order, d, a, now).0 == w
    ensures Reader(w, order, d, a, now) == Client(s, p) ==>
      (HandlePacket(w, order, d, a, now).1 == Relayed(s, p) <==> !LooksLikeListPing(d))
  {
    hide Trial, FindClient, Varint.Decode, ResetCrypt, RestartsCrypt;
    ReadIsLong(w, order, d, a, now);
    assert a in w.bySocket && w.bySocket[a] in w.clients && TrialOutcome(w, w.bySocket[a], d).Ok? ==> |d| >= 4;
  }

  /** A list ping of twelve bytes is answered with the timestamp that follows its first byte. */
  lemma {:induction false} PingIsAnswered(w: World, order: seq<u32>, d: seq<byte>, a: Addr, now: nat, timestamp: u64, rest: seq<byte>)
    requires AllWellFormed(w) && |d| == 12 && d[0] < 0x20
    ensures d[1..] == Varint.Encode(timestamp) + rest ==> HandlePacket(w, order, d, a, now) == (w, ListPing(timestamp))
    ensures Varint.Decode(d[1..]) == Varint.Truncated ==> HandlePacket(w, order, d, a, now) == (w, Malformed)
  {
    hide Varint.Decode, Varint.Encode, Trial, FindClient;
    Varint.RoundTrip(timestamp, rest);
    assert LooksLikeListPing(d);
  }

  /** A datagram of at most one byte is malformed; from an unknown address that nobody can read, its sender is unknown. */
  lemma {:induction false} UnreadIsUnknown(w: World, order: seq<u32>, d: seq<byte>, a: Addr, now: nat)
    requires AllWellFormed(w)
    ensures |d| <= 1 ==> HandlePacket(w, order, d, a, now) == (w, Malformed)
    ensures |d| > 1 && !(|d| == 12 && d[0] < 0x20) && a !in w.bySocket ==>
      (HandlePacket(w, order, d, a, now).1 == Unknown <==> FindClient(w, order, d, a, now).1 == Nobody)
  {
    hide Varint.Decode, Trial, FindClient;
    assert d != [] ==> (d[0] / 0x20 == 0 <==> d[0] < 0x20);
  }

  /** A datagram refused as late or as a repeat, or for its tag, leaves the receiver as it was. */
  lemma {:induction false} RefusedBeforeCommit(w: World, s: u32, d: seq<byte>, now: nat)
    requires s in w.clients && WellFormed(w.clients[s].rx)
    ensures var e := TrialOutcome(w, s, d);
      e.Err? && e.error != Io && e.error != Eof ==> Trial(w, s, d, now).clients[s].rx == w.clients[s].rx
  {
    hide Judge, TagMatches, Ocb.Decrypt, Voice.Decode, Commit;
    var c := w.clients[s];
    if |d| >= 4 && Judge(c.rx, d[0]).Accept? {
      Voice.ParseErrors(Voice.ServerBound, Ocb.Decrypt(c.cipher, Judge(c.rx, d[0]).nonce, d[4..]).bytes);
    }
  }

  /**
   * What an unreadable datagram from a known address does, in numbers: the cipher starts over exactly
   * for a wrong tag or a broken packet, for a late one once more than 100 have come late, and whatever
   * the error once the last good packet is six seconds old.
   */
  lemma {:induction false} RefusedIff(w: World, order: seq<u32>, d: seq<byte>, a: Addr, now: nat, e: DecryptError)
    requires AllWellFormed(w) && a in w.bySocket && w.bySocket[a] in w.clients
    requires |d| > 1 && !(|d| == 12 && d[0] < 0x20)
    ensures var s := w.bySocket[a];
      var rx := w.clients[s].rx;
      var reset := e == Eof || e == Mac || e == Io || (e == Late && rx.late > 100) || now - rx.lastGood >= 6000;
      TrialOutcome(w, s, d) == Err(e) ==>
        && HandlePacket(w, order, d, a, now).1 == Refused(s, e, reset)
        && (reset ==> StartedOver(w, HandlePacket(w, order, d, a, now).0, s, now))
        && (!reset ==> OnlyReceiverMoved(w, HandlePacket(w, order, d, a, now).0, s, d, now))
  {
    hide TrialOutcome, FindClient, Varint.Decode, After;
    var s := w.bySocket[a];
    RefusedBeforeCommit(w, s, d, now);
    assert LooksLikeListPing(d) <==> |d| == 12 && d[0] < 0x20;
    if TrialOutcome(w, s, d) == Err(e) {
      var tried := Trial(w, s, d, now);
      SixSeconds(now, w.clients[s].rx.lastGood);
      RestartShape(w, s, d, now);
    }
  }

  lemma {:induction false} SixSeconds(now: nat, last: nat)
    ensures now >= last && (now - last) / 1000 > 5 <==> now - last >= 6000
  {
  }

  /** The owner is a newcomer again: no address, listed as without one, its receiver at the start; nobody else is touched. */
  ghost predicate StartedOver(w: World, v: World, s: u32, now: nat)
    requires s in w.clients
  {
    && v.clients.Keys == w.clients.Keys && v.clients[s].addr == None && StartsOver(v.clients[s].rx, now)
    && v.clients[s].channel == w.clients[s].channel && v.clients[s].cipher == w.clients[s].cipher
    && (forall t :: t in w.clients && t != s ==> v.clients[t] == w.clients[t])
    && v.withoutUdp == w.withoutUdp + {s} && v.channels == w.channels
    && (forall b :: b in v.bySocket <==> b in w.bySocket && w.clients[s].addr != Some(b))
    && (forall b :: b in v.bySocket ==> v.bySocket[b] == w.bySocket[b])
  }

  ghost predicate OnlyReceiverMoved(w: World, v: World, s: u32, d: seq<byte>, now: nat)
    requires s in w.clients && WellFormed(w.clients[s].rx)
  {
    var c := w.clients[s];
    v == w.(clients := w.clients[s := c.(rx := After(c.cipher, c.rx, d, now))])
  }

  /** Starting the cipher over, by whoever asks for it. */
  lemma {:induction false} ResetStartsOver(w: World, s: u32, now: nat)
    requires s in w.clients
    ensures StartedOver(w, ResetCrypt(w, s, now), s, now)
  {
  }

  lemma {:induction false} RestartShape(w: World, s: u32, d: seq<byte>, now: nat)
    requires s in w.clients && WellFormed(w.clients[s].rx)
    ensures var tried := Trial(w, s, d, now);
      && s in tried.clients && OnlyReceiverMoved(w, tried, s, d, now)
      && StartedOver(w, ResetCrypt(tried, s, now), s, now)
  {
    hide After;
  }

  ghost predicate SamePlacesIn(w: World, v: World) {
    && v.clients.Keys == w.clients.Keys
    && v.channels == w.channels
    && forall s :: s in w.clients ==> v.clients[s].channel == w.clients[s].channel
  }

  lemma {:induction false} SamePlaces(w: World, v: World)
    requires ChannelInv(w) && SamePlacesIn(w, v)
    ensures ChannelInv(v)
  {
  }

  lemma {:induction false} TrialKeepsPlaces(w: World, s: u32, d: seq<byte>, now: nat)
    requires s in w.clients && WellFormed(w.clients[s].rx)
    ensures SamePlacesIn(w, Trial(w, s, d, now))
  {
    hide After;
  }

  lemma {:induction false} ResetKeepsPlaces(w: World, s: u32, now: nat)
    requires s in w.clients
    ensures SamePlacesIn(w, ResetCrypt(w, s, now))
  {
    hide Fresh;
  }

  lemma {:induction false} SamePlacesChain(w: World, u: World, v: World)
    requires SamePlacesIn(w, u) && SamePlacesIn(u, v)
    ensures SamePlacesIn(w, v)
  {
  }

  lemma {:induction false} SearchKeepsPlaces(w: World, order: seq<u32>, d: seq<byte>, a: Addr, now: nat)
    requires AllWellFormed(w)
    ensures SamePlacesIn(w, FindClient(w, order, d, a, now).0)
  {
    hide FindClient, Commits, WellFormed;
    FindClientTouches(w, order, d, a, now);
  }

  lemma {:induction false} KnownKeepsPlaces(w: World, s: u32, d: seq<byte>, now: nat)
    requires s in w.clients && WellFormed(w.clients[s].rx)
    ensures var tried := Trial(w, s, d, now);
      SamePlacesIn(w, tried) && s in tried.clients && SamePlacesIn(w, ResetCrypt(tried, s, now))
  {
    hide Trial, ResetCrypt;
    var tried := Trial(w, s, d, now);
    TrialKeepsPlaces(w, s, d, now);
    ResetKeepsPlaces(tried, s, now);
    SamePlacesChain(w, tried, ResetCrypt(tried, s, now));
  }

  /** Whoever sends what, the channels and everybody's place in them stay as they are. */
  lemma {:induction false} HandlePacketKeepsChannels(w: World, order: seq<u32>, d: seq<byte>, a: Addr, now: nat)
    requires AllWellFormed(w) && ChannelInv(w)
    ensures ChannelInv(HandlePacket(w, order, d, a, now).0)
  {
    hide ChannelInv, FindClient, Trial, TrialOutcome, ResetCrypt, RestartsCrypt, WellFormed, Varint.Decode;
    if a in w.bySocket && w.bySocket[a] in w.clients {
      KnownKeepsPlaces(w, w.bySocket[a], d, now);
    } else {
      SearchKeepsPlaces(w, order, d, a, now);
    }
    SamePlaces(w, HandlePacket(w, order, d, a, now).0);
  }

  // ----- Runs -----

  /** One whole operation of the server. */
  datatype Event =
    | Connect(cipher: Ocb.Cipher, now: nat)
    | Datagram(bytes: seq<byte>, addr: Addr, order: seq<u32>, now: nat)
    | Reset(session: u32, now: nat)
    | Resync(session: u32, nonce: seq<byte>)
    | Leave(session: u32)
    | Join(session: u32, channel: u32)
    | Listen(session: u32, channel: u32, on: bool)
    | Create(session: u32, request: ChannelRequest)

  /** Operations of connected clients; ids do not run out. */
  ghost predicate Enabled(w: World, e: Event) {
    match e
    case Connect(_, _) => |w.clients.Keys| < TWO32
    case Datagram(_, _, _, _) => true
    case Reset(s, _) => s in w.clients
    case Resync(s, _) => s in w.clients
    case Leave(_) => true
    case Join(s, _) => s in w.clients
    case Listen(s, _, _) => s in w.clients
    case Create(s, _) => s in w.clients && |w.channels.Keys| < TWO32
  }

  ghost predicate Inv(w: World) {
    IndexInv(w) && ChannelInv(w)
  }

  /** The peer announces the nonce it sends from. */
  ghost function ResyncClient(w: World, s: u32, nonce: seq<byte>): World
    requires s in w.clients
  {
    WithClient(w, s, w.clients[s].(rx := Resynced(w.clients[s].rx, nonce)))
  }

  /** Starts or stops listening to a channel from outside; an unknown channel is ignored. */
  ghost function ListenTo(w: World, s: u32, c: u32, on: bool): World {
    if c !in w.channels then w
    else
      var ch := w.channels[c];
      w.(channels := w.channels[c := ch.(listeners := if on then ch.listeners + {s} else ch.listeners - {s})])
  }

  ghost function Apply(w: World, e: Event): World
    requires AllWellFormed(w) && Enabled(w, e)
  {
    match e
    case Connect(cipher, now) => AddClient(w, cipher, now)
    case Datagram(bytes, addr, order, now) => HandlePacket(w, order, bytes, addr, now).0
    case Reset(s, now) => ResetCrypt(w, s, now)
    case Resync(s, nonce) => ResyncClient(w, s, nonce)
    case Leave(s) => Disconnect(w, s)
    case Join(s, c) => SetChannel(w, s, c)
    case Listen(s, c, on) => ListenTo(w, s, c, on)
    case Create(s, r) => CreateChannel(w, s, r)
  }

  lemma {:induction false} ResyncKeepsIndex(w: World, s: u32, nonce: seq<byte>)
    requires IndexInv(w) && s in w.clients
    ensures IndexInv(ResyncClient(w, s, nonce))
  {
    hide Ocb.FromLittleEndian;
  }

  lemma {:induction false} ListenKeepsChannels(w: World, s: u32, c: u32, on: bool)
    requires ChannelInv(w)
    ensures ChannelInv(ListenTo(w, s, c, on))
  {
  }

  /** Listening concerns one client and one channel, which must exist; membership is not touched. */
  lemma {:induction false} ListenChanges(w: World, s: u32, c: u32, on: bool)
    ensures var v := ListenTo(w, s, c, on);
      && v.clients == w.clients && v.channels.Keys == w.channels.Keys
      && (forall d :: d in w.channels ==> v.channels[d].members == w.channels[d].members)
      && (forall d, t :: d in w.channels && (d != c || t != s) ==>
            (t in v.channels[d].listeners <==> t in w.channels[d].listeners))
      && (c in w.channels ==> (s in v.channels[c].listeners <==> on))
  {
  }

  /** Announcing a nonce of sixteen bytes moves one client's receiver there and counts one resync. */
  lemma {:induction false} ResyncChanges(w: World, s: u32, nonce: seq<byte>)
    requires s in w.clients
    ensures var v, rx := ResyncClient(w, s, nonce), w.clients[s].rx;
      && v == w.(clients := v.clients) && SameOthers(w, v, s) && s in v.clients
      && v.clients[s] == w.clients[s].(rx := v.clients[s].rx)
      && (|nonce| != 0x10 ==> v.clients[s].rx == rx)
      && (|nonce| == 0x10 ==>
            && v.clients[s].rx == rx.(nonce := v.clients[s].rx.nonce, resync := (rx.resync + 1) % 0x1_0000_0000)
            && forall i :: 0 <= i < 0x10 ==> v.clients[s].rx.nonce / Pow256(i) % 0x100 == nonce[i])
  {
    hide Ocb.FromLittleEndian, Pow256;
    if |nonce| == 0x10 {
      Ocb.AllLittleEndianDigits(nonce);
    }
  }

  lemma {:induction false} ConnectKeepsChannels(w: World, cipher: Ocb.Cipher, now: nat)
    requires ChannelInv(w) && |w.clients.Keys| < TWO32
    ensures ChannelInv(AddClient(w, cipher, now))
  {
    hide Ids.FreeId;
  }

  lemma {:induction false} ResetKeepsChannels(w: World, s: u32, now: nat)
    requires ChannelInv(w) && s in w.clients
    ensures ChannelInv(ResetCrypt(w, s, now))
  {
    hide ChannelInv;
    SamePlaces(w, ResetCrypt(w, s, now));
  }

  /** Moving between channels does not touch the address index. */
  lemma {:induction false} MovingKeepsIndex(w: World, s: u32, c: u32)
    requires IndexInv(w) && s in w.clients
    ensures IndexInv(SetChannel(w, s, c))
  {
    hide IndexInv;
    SameIndex(w, SetChannel(w, s, c));
  }

  ghost predicate SameIndexIn(w: World, v: World) {
    && v.clients.Keys == w.clients.Keys && v.bySocket == w.bySocket && v.withoutUdp == w.withoutUdp
    && forall s :: s in w.clients ==> v.clients[s].addr == w.clients[s].addr && v.clients[s].rx == w.clients[s].rx
  }

  lemma {:induction false} SameIndex(w: World, v: World)
    requires IndexInv(w) && SameIndexIn(w, v)
    ensures IndexInv(v)
  {
  }

  lemma {:induction false} CreateKeepsIndex(w: World, s: u32, r: ChannelRequest)
    requires IndexInv(w) && s in w.clients && |w.channels.Keys| < TWO32
    ensures IndexInv(CreateChannel(w, s, r))
  {
    hide SetChannel, Ids.FreeId;
    if Creates(w, r) {
      var added := AddChannel(w, r.name.value, r.temporary);
      SameIndex(w, added.0);
      MovingKeepsIndex(added.0, s, added.1);
    }
  }

  /** No operation of a connected client breaks the address index, not even a join of a missing channel. */
  lemma {:induction false} ApplyKeepsIndex(w: World, e: Event)
    requires IndexInv(w) && Enabled(w, e)
    ensures IndexInv(Apply(w, e))
  {
    hide IndexInv, AllWellFormed, AddClient, HandlePacket, ResetCrypt, ResyncClient, Disconnect, SetChannel, ListenTo, CreateChannel;
    IndexedIsWellFormed(w);
    match e
    case Connect(cipher, now) => AddClientKeepsIndex(w, cipher, now);
    case Datagram(bytes, addr, order, now) => HandlePacketKeepsIndex(w, order, bytes, addr, now);
    case Reset(s, now) => ResetCryptKeepsIndex(w, s, now);
    case Resync(s, nonce) => ResyncKeepsIndex(w, s, nonce);
    case Leave(s) => DisconnectKeepsIndex(w, s);
    case Join(s, c) => MovingKeepsIndex(w, s, c);
    case Listen(s, c, on) => ListenKeepsIndex(w, s, c, on);
    case Create(s, r) => CreateKeepsIndex(w, s, r);
  }

  lemma {:induction false} ListenKeepsIndex(w: World, s: u32, c: u32, on: bool)
    requires IndexInv(w)
    ensures IndexInv(ListenTo(w, s, c, on))
  {
    hide IndexInv;
    SameIndex(w, ListenTo(w, s, c, on));
  }

  predicate JoinsMissing(w: World, e: Event) {
    e.Join? && e.channel !in w.channels
  }

  /** The one operation that breaks the channel rules is joining a channel that does not exist. */
  lemma {:induction false} ApplyKeepsChannelsIff(w: World, e: Event)
    requires ChannelInv(w) && AllWellFormed(w) && Enabled(w, e)
    ensures ChannelInv(Apply(w, e)) <==> !JoinsMissing(w, e)
  {
    hide ChannelInv, AllWellFormed, AddClient, HandlePacket, ResetCrypt, ResyncClient, Disconnect, SetChannel, ListenTo, CreateChannel;
    match e
    case Connect(cipher, now) => ConnectKeepsChannels(w, cipher, now);
    case Datagram(bytes, addr, order, now) => HandlePacketKeepsChannels(w, order, bytes, addr, now);
    case Reset(s, now) => ResetKeepsChannels(w, s, now);
    case Resync(s, nonce) => ResyncKeepsChannels(w, s, nonce);
    case Leave(s) => DisconnectKeepsChannels(w, s);
    case Join(s, c) => JoinKeepsChannelsIff(w, s, c);
    case Listen(s, c, on) => ListenKeepsChannels(w, s, c, on);
    case Create(s, r) => CreateKeepsChannels(w, s, r);
  }

  lemma {:induction false} ResyncKeepsChannels(w: World, s: u32, nonce: seq<byte>)
    requires ChannelInv(w) && s in w.clients
    ensures ChannelInv(ResyncClient(w, s, nonce))
  {
    hide ChannelInv, Ocb.FromLittleEndian;
    SamePlaces(w, ResyncClient(w, s, nonce));
  }

  lemma {:induction false} InitialInv()
    ensures Inv(Initial())
  {
  }

  /** `ws` are the states of a run of the server through `es`. */
  ghost predicate IsRun(ws: seq<World>, es: seq<Event>) {
    && |ws| == |es| + 1
    && ws[0] == Initial()
    && forall i :: 0 <= i < |es| ==> Steps(ws[i], es[i], ws[i + 1])
  }

  ghost predicate Steps(w: World, e: Event, v: World) {
    AllWellFormed(w) && Enabled(w, e) && v == Apply(w, e)
  }

  /** Every state of every run keeps the address index. */
  lemma {:induction false} RunsKeepIndex(ws: seq<World>, es: seq<Event>, n: nat)
    requires IsRun(ws, es) && n < |ws|
    ensures IndexInv(ws[n])
  {
    hide IndexInv, AllWellFormed, Apply, Enabled;
    if n == 0 {
      InitialInv();
    } else {
      RunsKeepIndex(ws, es, n - 1);
      assert Steps(ws[n - 1], es[n - 1], ws[n - 1 + 1]);
      ApplyKeepsIndex(ws[n - 1], es[n - 1]);
    }
  }

  /** Every state of every run in which joins name existing channels keeps the channel rules too. */
  lemma {:induction false} RunsKeepInv(ws: seq<World>, es: seq<Event>, n: nat)
    requires IsRun(ws, es) && n < |ws|
    requires forall i :: 0 <= i < n ==> !JoinsMissing(ws[i], es[i])
    ensures Inv(ws[n])
  {
    hide IndexInv, ChannelInv, AllWellFormed, Apply, Enabled;
    RunsKeepIndex(ws, es, n);
    if n == 0 {
      InitialInv();
    } else {
      RunsKeepInv(ws, es, n - 1);
      assert Steps(ws[n - 1], es[n - 1], ws[n - 1 + 1]);
      ApplyKeepsChannelsIff(ws[n - 1], es[n - 1]);
    }
  }

  /** So no two clients ever share an address, and every temporary channel is in use. */
  lemma {:induction false} RunsShareNothing(ws: seq<World>, es: seq<Event>, n: nat, s: u32, t: u32)
    requires IsRun(ws, es) && n < |ws| && s in ws[n].clients && t in ws[n].clients && s != t
    requires forall i :: 0 <= i < n ==> !JoinsMissing(ws[i], es[i])
    ensures ws[n].clients[s].addr.Some? ==> ws[n].clients[s].addr != ws[n].clients[t].addr
    ensures ROOT in ws[n].channels
    ensures forall c :: c in ws[n].channels && ws[n].channels[c].temporary ==>
      exists m :: m in ws[n].channels[c].members && m in ws[n].clients && ws[n].clients[m].channel == c
  {
    hide Apply, Enabled, IsRun;
    RunsKeepInv(ws, es, n);
    forall c | c in ws[n].channels && ws[n].channels[c].temporary
      ensures exists m :: m in ws[n].channels[c].members && m in ws[n].clients && ws[n].clients[m].channel == c
    {
      var m :| m in ws[n].channels[c].members;
    }
  }
}
