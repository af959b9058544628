/** From a speaker through the server to a listener, each leg under its own key and nonce. */
module Relay {
  import opened Words
  import opened Wrappers
  import opened Crypt
  import opened Server
  import EndToEnd
  import Ocb
  import Routing
  import ServerRuns
  import Voice

  predicate Sendable(p: Voice.VoicePacket, dir: Voice.Direction) {
    Voice.Encodable(p) && Voice.Travels(p, dir)
  }

  /** What is read from a datagram can be sent on. */
  lemma {:induction false} ReadIsSendable(w: World, s: u32, d: seq<byte>)
    requires AllWellFormed(w) && s in w.clients
    ensures TrialOutcome(w, s, d).Ok? ==> Sendable(TrialOutcome(w, s, d).value, Voice.ServerBound)
  {
    hide Judge, TagMatches, Ocb.Decrypt, Voice.Decode, Voice.Encodable, Voice.Travels;
    var c := w.clients[s];
    if TrialOutcome(w, s, d).Ok? {
      var n := Judge(c.rx, d[0]).nonce;
      Voice.DecodedIsEncodable(Voice.ServerBound, Ocb.Decrypt(c.cipher, n, d[4..]).bytes);
    }
  }

  lemma {:induction false} FoundIsSendable(w: World, order: seq<u32>, d: seq<byte>, a: Addr, now: nat)
    requires AllWellFormed(w)
    ensures var r := FindClient(w, order, d, a, now).1;
      r.Client? ==> Sendable(r.packet, Voice.ServerBound)
    decreases |order|
  {
    hide Sendable, TrialOutcome, Trial, SetSocket, Commits, WellFormed;
    if order != [] {
      if order[0] !in w.clients {
        FoundIsSendable(w, order[1..], d, a, now);
      } else {
        ReadIsSendable(w, order[0], d);
        TrialTouches(w, order[0], d, now);
        FoundIsSendable(Trial(w, order[0], d, now), order[1..], d, a, now);
      }
    }
  }

  lemma {:induction false} RelayedIsSendable(w: World, order: seq<u32>, d: seq<byte>, a: Addr, now: nat)
    requires AllWellFormed(w)
    ensures var h := ServerRuns.HandlePacket(w, order, d, a, now).1;
      h.Relayed? ==> Sendable(h.packet, Voice.ServerBound)
  {
    hide Sendable, TrialOutcome, Trial, ResetCrypt, FindClient, WellFormed, ServerRuns.RestartsCrypt;
    FoundIsSendable(w, order, d, a, now);
    if a in w.bySocket && w.bySocket[a] in w.clients {
      ReadIsSendable(w, w.bySocket[a], d);
    }
  }

  lemma {:induction false} ConvertedIsSendable(p: Voice.VoicePacket, s: u32, removePosition: bool)
    requires Sendable(p, Voice.ServerBound)
    ensures Sendable(Voice.IntoClientBound(p, s, removePosition), Voice.ClientBound)
  {
  }

  /** What a listener hears of `p`: the same sound, under the name of the speaker. */
  predicate HeardAs(q: Voice.VoicePacket, p: Voice.VoicePacket, s: u32, removePosition: bool) {
    && (p.Ping? ==> q == p)
    && (p.Audio? ==>
          && q.Audio? && Voice.Sound(q) == Voice.Sound(p) && q.session == Voice.SessionId(s)
          && q.position == if removePosition then None else p.position)
  }

  /**
   * Whatever the server relays, from an address it knows or one it has just found the owner of,
   * opens at every listener whose end expects the server's nonce, as the speaker's own packet.
   */
  lemma {:induction false} RelayedIsHeard(
    w: World, order: seq<u32>, d: seq<byte>, a: Addr, now: nat, removePosition: bool,
    listener: Ocb.Cipher, rx: Receiver, n: u128)
    requires AllWellFormed(w) && Ocb.Inverse(listener) && WellFormed(rx) && Expects(rx, n)
    ensures var h := ServerRuns.HandlePacket(w, order, d, a, now).1;
      h.Relayed? ==>
        var q := Voice.IntoClientBound(h.packet, h.session, removePosition);
        Outcome(listener, Voice.ClientBound, rx, Seal(listener, n, q)) == Ok(q) &&
        HeardAs(q, h.packet, h.session, removePosition)
  {
    hide ServerRuns.HandlePacket, Judge, Outcome, Seal, LowByte, Voice.Encodable;
    var h := ServerRuns.HandlePacket(w, order, d, a, now).1;
    if h.Relayed? {
      RelayedIsSendable(w, order, d, a, now);
      ConvertedIsSendable(h.packet, h.session, removePosition);
      var q := Voice.IntoClientBound(h.packet, h.session, removePosition);
      EndToEnd.SealedIsOpened(listener, Voice.ClientBound, rx, n, q);
    }
  }

  /**
   * The whole way: a packet sealed by a client under the nonce that the server expects of it is
   * relayed, and comes out at the listener with the same sound under the speaker's session.
   */
  lemma {:induction false} SpokenIsHeard(
    w: World, order: seq<u32>, a: Addr, now: nat, m: u128, p: Voice.VoicePacket, removePosition: bool,
    listener: Ocb.Cipher, rx: Receiver, n: u128)
    requires IndexInv(w) && a in w.bySocket && Ocb.Inverse(w.clients[w.bySocket[a]].cipher)
    requires Ocb.Inverse(listener) && WellFormed(rx)
    ensures var s := w.bySocket[a];
      var c, q := w.clients[s], Voice.IntoClientBound(p, s, removePosition);
      var d := Seal(c.cipher, m, p);
      Sendable(p, Voice.ServerBound) && Expects(c.rx, m) && !ServerRuns.LooksLikeListPing(d) && Expects(rx, n) ==>
        && ServerRuns.HandlePacket(w, order, d, a, now).1 == ServerRuns.Relayed(s, p)
        && Outcome(listener, Voice.ClientBound, rx, Seal(listener, n, q)) == Ok(q)
        && HeardAs(q, p, s, removePosition)
  {
    hide IndexInv, ServerRuns.HandlePacket, Judge, Outcome, Seal, LowByte, Voice.Encodable, AllWellFormed;
    var s := ServerRuns.OwnerIsConnected(w, a);
    ServerRuns.IndexedIsWellFormed(w);
    var c := w.clients[s];
    var d := Seal(c.cipher, m, p);
    if Sendable(p, Voice.ServerBound) && Expects(c.rx, m) && !ServerRuns.LooksLikeListPing(d) && Expects(rx, n) {
      EndToEnd.SealedIsOpened(c.cipher, Voice.ServerBound, c.rx, m, p);
      ServerRuns.ReadableIsRelayedIff(w, order, d, a, now, s, p);
      RelayedIsHeard(w, order, d, a, now, removePosition, listener, rx, n);
    }
  }

  // ----- Who hears it -----

  /** The routing view of a server, with the whisper slots of its clients. */
  ghost function SnapshotOf(w: World, targets: map<u32, seq<Routing.Slot>>): Routing.Snapshot
    requires w.clients.Keys <= targets.Keys
  {
    Routing.Snapshot(
      map s | s in w.clients :: Routing.ClientState(w.clients[s].channel, targets[s]),
      map c | c in w.channels :: Routing.ChannelMembers(w.channels[c].members, w.channels[c].listeners))
  }

  ghost predicate FullSlots(w: World, targets: map<u32, seq<Routing.Slot>>) {
    w.clients.Keys <= targets.Keys && forall s :: s in targets ==> |targets[s]| == Routing.SLOTS
  }

  /** The far end of a client: its receiver and the nonce under which the server seals for it next. */
  datatype End = End(rx: Receiver, nonce: u128)

  /** At the end of client `r` the datagram for it opens as `q`. */
  ghost predicate Hears(w: World, r: u32, end: End, q: Voice.VoicePacket)
    requires r in w.clients && WellFormed(end.rx)
  {
    Outcome(w.clients[r].cipher, Voice.ClientBound, end.rx, Seal(w.clients[r].cipher, end.nonce, q)) == Ok(q)
  }

  lemma {:induction false} RelayedBySomebody(w: World, order: seq<u32>, d: seq<byte>, a: Addr, now: nat)
    requires AllWellFormed(w)
    ensures var h := ServerRuns.HandlePacket(w, order, d, a, now).1;
      h.Relayed? ==> h.session in w.clients
  {
    hide TrialOutcome, Trial, ResetCrypt, FindClient, WellFormed, ServerRuns.RestartsCrypt;
  }

  /**
   * Everybody the router picks for a relayed packet, and whose own end expects the server's nonce,
   * hears it: the speaker's sound, under the speaker's session.
   */
  lemma {:induction false} RecipientsHear(
    w: World, order: seq<u32>, d: seq<byte>, a: Addr, now: nat, removePosition: bool,
    targets: map<u32, seq<Routing.Slot>>, r: u32, end: End)
    requires AllWellFormed(w) && FullSlots(w, targets)
    requires r in w.clients && Ocb.Inverse(w.clients[r].cipher) && WellFormed(end.rx) && Expects(end.rx, end.nonce)
    ensures var h := ServerRuns.HandlePacket(w, order, d, a, now).1;
      h.Relayed? && h.packet.Audio? ==>
        && h.session in w.clients
        && var q := Voice.IntoClientBound(h.packet, h.session, removePosition);
           r in Routing.RecipientSet(SnapshotOf(w, targets), h.session, h.packet.target) ==>
             && Hears(w, r, end, q) && HeardAs(q, h.packet, h.session, removePosition)
             && (h.packet.target != 31 ==> r != h.session)
             && (h.packet.target == 0 ==> RoomMate(w, r, h.session))
  {
    hide ServerRuns.HandlePacket, Outcome, Seal, Expects, AllWellFormed, Routing.WhisperSet;
    RelayedBySomebody(w, order, d, a, now);
    RelayedIsHeard(w, order, d, a, now, removePosition, w.clients[r].cipher, end.rx, end.nonce);
    var h := ServerRuns.HandlePacket(w, order, d, a, now).1;
    if h.Relayed? && h.packet.Audio? && 1 <= h.packet.target <= 30 {
      NotToSelf(SnapshotOf(w, targets), targets[h.session][h.packet.target - 1], h.session);
    }
  }

  lemma {:induction false} NotToSelf(snap: Routing.Snapshot, slot: Routing.Slot, speaker: u32)
    ensures speaker !in Routing.WhisperSet(snap, slot, speaker)
  {
  }

  /** `r` is listed in the channel that `s` is in. */
  ghost predicate RoomMate(w: World, r: u32, s: u32)
    requires s in w.clients
  {
    var c := w.clients[s].channel;
    c in w.channels && r in w.channels[c].members
  }

  /**
   * Who plain talk goes to: exactly the other clients listed in the speaker's channel. Under the
   * channel rules they are connected and in that channel, and outside Root all such clients are listed.
   */
  lemma {:induction false} TalkGoesToRoomMates(w: World, targets: map<u32, seq<Routing.Slot>>, s: u32, r: u32)
    requires FullSlots(w, targets) && s in w.clients
    ensures r in Routing.RecipientSet(SnapshotOf(w, targets), s, 0) <==> r != s && RoomMate(w, r, s)
    ensures MembersInv(w) && RoomMate(w, r, s) ==> r in w.clients && w.clients[r].channel == w.clients[s].channel
    ensures MembersInv(w) && w.clients[s].channel != ROOT ==>
      (r in Routing.RecipientSet(SnapshotOf(w, targets), s, 0) <==>
         r != s && r in w.clients && w.clients[r].channel == w.clients[s].channel)
    ensures Routing.RecipientSet(SnapshotOf(w, targets), s, 31) == {s}
  {
    Routing.RecipientIff(SnapshotOf(w, targets), s, 0, r);
    Routing.RecipientIff(SnapshotOf(w, targets), s, 31, r);
    hide Routing.RecipientSet;
  }
}
