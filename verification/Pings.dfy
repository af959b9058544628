/** Voice datagrams that look like a request for the server list, and when they are lost to it. */
module Pings {
  import opened Words
  import opened Wrappers
  import opened Crypt
  import opened Server
  import opened ServerRuns
  import EndToEnd
  import Ids
  import Ocb
  import Varint
  import Voice

  lemma {:induction false} SealedLength(c: Ocb.Cipher, n: u128, p: Voice.VoicePacket)
    ensures |Seal(c, n, p)| == 4 + |Voice.Encode(p)|
  {
    hide Voice.Encode;
  }

  /** Which voice datagrams look like a list ping: a packet of eight bytes under a nonce whose low byte is below 32. */
  lemma {:induction false} SealedLooksLikePingIff(c: Ocb.Cipher, n: u128, p: Voice.VoicePacket)
    ensures LooksLikeListPing(Seal(c, n, p)) <==> |Voice.Encode(p)| == 8 && LowByte(n) < 0x20
  {
    SealedLength(c, n, p);
    EndToEnd.SealParts(c, n, p);
    hide Seal, LowByte, Voice.Encode, Ocb.Encrypt;
  }

  /** Five bytes of sound. */
  function ShortPacket(): Voice.VoicePacket {
    Voice.Audio(0, Voice.NoSession, 0, Voice.Opus([0, 0, 0, 0, 0], false), None)
  }

  lemma {:induction false} ShortPacketBytes()
    ensures Voice.Encodable(ShortPacket()) && Voice.Travels(ShortPacket(), Voice.ServerBound)
    ensures |Voice.Encode(ShortPacket())| == 8
  {
    assert Varint.Encode(0) == [0] && Varint.Encode(5) == [5];
  }

  /** What a sealed packet is to a client that expects its nonce. */
  lemma {:induction false} ExpectedIsRead(w: World, s: u32, n: u128, p: Voice.VoicePacket)
    requires AllWellFormed(w) && s in w.clients && Ocb.Inverse(w.clients[s].cipher) && Expects(w.clients[s].rx, n)
    requires Voice.Encodable(p) && Voice.Travels(p, Voice.ServerBound)
    ensures TrialOutcome(w, s, Seal(w.clients[s].cipher, n, p)) == Ok(p)
  {
    hide Judge, LowByte, Outcome, Seal, Voice.Encodable, Voice.Travels;
    var c := w.clients[s];
    EndToEnd.SealedIsOpened(c.cipher, Voice.ServerBound, c.rx, n, p);
  }

  /** From a known address: under every such nonce that the server expects of the owner, a short packet is swallowed. */
  lemma {:induction false} SwallowedAsPing(w: World, order: seq<u32>, a: Addr, now: nat, n: u128)
    requires IndexInv(w) && a in w.bySocket && Ocb.Inverse(w.clients[w.bySocket[a]].cipher)
    requires Expects(w.clients[w.bySocket[a]].rx, n) && LowByte(n) < 0x20
    ensures var s := w.bySocket[a];
      var d := Seal(w.clients[s].cipher, n, ShortPacket());
      && Reader(w, order, d, a, now) == Client(s, ShortPacket())
      && HandlePacket(w, order, d, a, now).0 == w
      && HandlePacket(w, order, d, a, now).1 != Relayed(s, ShortPacket())
  {
    hide IndexInv, AllWellFormed, ShortPacket, Seal, TrialOutcome, HandlePacket, LooksLikeListPing, Expects, FindClient;
    IndexedIsWellFormed(w);
    var s := OwnerIsConnected(w, a);
    var d := Seal(w.clients[s].cipher, n, ShortPacket());
    ShortPacketBytes();
    hide Voice.Encode, Voice.Encodable, Voice.Travels;
    ExpectedIsRead(w, s, n, ShortPacket());
    SealedLooksLikePingIff(w.clients[s].cipher, n, ShortPacket());
    ReadableIsRelayedIff(w, order, d, a, now, s, ShortPacket());
  }

  /** The server after one client has connected. */
  ghost function OneClient(cipher: Ocb.Cipher, now: nat): World {
    World(map[1 := ClientView(None, ROOT, cipher, Fresh(now))], {1}, map[],
          map[ROOT := ChannelView(ROOT_NAME, false, {}, {})], 2, 1)
  }

  lemma {:induction false} FirstConnect(cipher: Ocb.Cipher, now: nat)
    ensures IsRun([Initial(), OneClient(cipher, now)], [Connect(cipher, now)])
    ensures AllWellFormed(OneClient(cipher, now))
  {
    var w := Initial();
    assert w.clients.Keys == {};
    assert Ids.FreeId(1, {}) == (1, 2);
    hide Ids.FreeId;
    assert Steps(w, Connect(cipher, now), OneClient(cipher, now));
  }

  lemma {:induction false} FirstNonce(now: nat)
    ensures LowByte(TWO127 + 1) == 1 && Expects(Fresh(now), TWO127 + 1)
  {
  }

  /** A search among one client that can read the datagram finds it. */
  lemma {:induction false} FindsTheOne(w: World, s: u32, d: seq<byte>, a: Addr, now: nat, p: Voice.VoicePacket)
    requires AllWellFormed(w) && s in w.clients
    ensures TrialOutcome(w, s, d) == Ok(p) ==>
      var r := FindClient(w, [s], d, a, now);
      && r.1 == Client(s, p) && s in r.0.clients && r.0.clients[s].cipher == w.clients[s].cipher
      && r.0.clients[s].rx == After(w.clients[s].cipher, w.clients[s].rx, d, now)
      && (a !in w.bySocket ==> a in r.0.bySocket && r.0.bySocket[a] == s)
  {
    hide After, Outcome, WellFormed;
  }

  /**
   * From an unknown address, one connection into a run: the client's very first voice packet, which
   * should have made its address known, is swallowed as a ping.
   */
  lemma {:induction false} FirstPacketSwallowed(cipher: Ocb.Cipher, a: Addr, now: nat)
    requires Ocb.Inverse(cipher)
    ensures var w := OneClient(cipher, now);
      var d := Seal(cipher, TWO127 + 1, ShortPacket());
      && IsRun([Initial(), w], [Connect(cipher, now)])
      && AllWellFormed(w)
      && Reader(w, [1], d, a, now) == Client(1, ShortPacket())
      && HandlePacket(w, [1], d, a, now).0 == w
      && HandlePacket(w, [1], d, a, now).1 != Relayed(1, ShortPacket())
  {
    var w := OneClient(cipher, now);
    var d := Seal(cipher, TWO127 + 1, ShortPacket());
    FirstConnect(cipher, now);
    FirstNonce(now);
    ShortPacketBytes();
    assert w.clients[1] == ClientView(None, ROOT, cipher, Fresh(now)) && w.bySocket == map[];
    hide OneClient, AllWellFormed, ShortPacket, Seal, TrialOutcome, HandlePacket, LooksLikeListPing, Expects, FindClient, Fresh,
      Voice.Encode, Voice.Encodable, Voice.Travels, IsRun, LowByte;
    ExpectedIsRead(w, 1, TWO127 + 1, ShortPacket());
    FindsTheOne(w, 1, d, a, now, ShortPacket());
    SealedLooksLikePingIff(cipher, TWO127 + 1, ShortPacket());
    ReadableIsRelayedIff(w, [1], d, a, now, 1, ShortPacket());
  }

  /** A first packet that does not look like a list ping. */
  ghost function Hello(cipher: Ocb.Cipher, a: Addr, now: nat): Event {
    Datagram(Seal(cipher, TWO127 + 1, Voice.Ping(0)), a, [1], now)
  }

  /** The server two operations into a run. */
  ghost function Greeted(cipher: Ocb.Cipher, a: Addr, now: nat): World {
    FirstConnect(cipher, now);
    Apply(OneClient(cipher, now), Hello(cipher, a, now))
  }

  lemma {:induction false} GreetedStep(cipher: Ocb.Cipher, a: Addr, now: nat)
    ensures Steps(OneClient(cipher, now), Hello(cipher, a, now), Greeted(cipher, a, now))
  {
    hide Apply, IsRun;
    FirstConnect(cipher, now);
  }

  lemma {:induction false} FirstStep(cipher: Ocb.Cipher, now: nat)
    ensures Steps(Initial(), Connect(cipher, now), OneClient(cipher, now))
  {
    hide Steps, OneClient, Initial;
    FirstConnect(cipher, now);
    var ws, es := [Initial(), OneClient(cipher, now)], [Connect(cipher, now)];
    assert Steps(ws[0], es[0], ws[0 + 1]);
  }

  lemma {:induction false} GreetedRun(cipher: Ocb.Cipher, a: Addr, now: nat)
    ensures IsRun([Initial(), OneClient(cipher, now), Greeted(cipher, a, now)], [Connect(cipher, now), Hello(cipher, a, now)])
  {
    hide Steps, Initial, OneClient, Greeted, Hello;
    FirstStep(cipher, now);
    GreetedStep(cipher, a, now);
  }

  lemma {:induction false} PingBytes()
    ensures Voice.Encodable(Voice.Ping(0)) && Voice.Travels(Voice.Ping(0), Voice.ServerBound)
    ensures |Voice.Encode(Voice.Ping(0))| == 2
  {
    assert Varint.Encode(0) == [0];
  }

  lemma {:induction false} GreetedSearch(cipher: Ocb.Cipher, a: Addr, now: nat)
    ensures AllWellFormed(OneClient(cipher, now))
    ensures Greeted(cipher, a, now) ==
      FindClient(OneClient(cipher, now), [1], Seal(cipher, TWO127 + 1, Voice.Ping(0)), a, now).0
  {
    var w, d := OneClient(cipher, now), Seal(cipher, TWO127 + 1, Voice.Ping(0));
    FirstConnect(cipher, now);
    assert w.bySocket == map[];
    PingBytes();
    SealedLooksLikePingIff(cipher, TWO127 + 1, Voice.Ping(0));
    SealedLength(cipher, TWO127 + 1, Voice.Ping(0));
    hide OneClient, AllWellFormed, Seal, LooksLikeListPing, FindClient, Fresh, LowByte, IsRun, Voice.Encode;
  }

  /** The first packet, if it does not look like a list ping, makes the address known. */
  lemma {:induction false} GreetedState(cipher: Ocb.Cipher, a: Addr, now: nat)
    requires Ocb.Inverse(cipher)
    ensures var v := Greeted(cipher, a, now);
      && a in v.bySocket && v.bySocket[a] == 1 && 1 in v.clients && v.clients[1].cipher == cipher
      && v.clients[1].rx == After(cipher, Fresh(now), Seal(cipher, TWO127 + 1, Voice.Ping(0)), now)
  {
    var w := OneClient(cipher, now);
    assert w.clients[1] == ClientView(None, ROOT, cipher, Fresh(now)) && w.bySocket == map[];
    hide OneClient, Greeted, AllWellFormed, Seal, TrialOutcome, Expects, FindClient, Fresh, After, Voice.Encodable, Voice.Travels,
      LowByte;
    GreetedSearch(cipher, a, now);
    FirstNonce(now);
    PingBytes();
    ExpectedIsRead(w, 1, TWO127 + 1, Voice.Ping(0));
    FindsTheOne(w, 1, Seal(cipher, TWO127 + 1, Voice.Ping(0)), a, now, Voice.Ping(0));
  }

  /** A receiver expects the nonce after its own. */
  lemma {:induction false} ExpectsNext(rx: Receiver)
    requires WellFormed(rx)
    ensures Expects(rx, Wrap128(rx.nonce + 1))
  {
  }

  /** A packet accepted ahead of the receiver moves it to that packet's nonce. */
  lemma {:induction false} AcceptedMoves(cipher: Ocb.Cipher, rx: Receiver, n: u128, p: Voice.VoicePacket, now: nat)
    requires Ocb.Inverse(cipher) && WellFormed(rx) && Voice.Encodable(p) && Voice.Travels(p, Voice.ServerBound)
    requires Judge(rx, LowByte(n)) == Accept(n, false, 0)
    ensures After(cipher, rx, Seal(cipher, n, p), now).nonce == n
  {
    hide Judge, Seal, LowByte, Page, TagMatches, Voice.Encode, Voice.Encodable, Voice.Travels, Ocb.Encrypt, Outcome;
    EndToEnd.SealParts(cipher, n, p);
    EndToEnd.SealedIsOpened(cipher, Voice.ServerBound, rx, n, p);
  }

  lemma {:induction false} FirstVerdict(now: nat)
    ensures LowByte(TWO127 + 1) == 1 && LowByte(TWO127 + 2) == 2
    ensures WellFormed(Fresh(now)) && Judge(Fresh(now), 1) == Accept(TWO127 + 1, false, 0)
  {
  }

  lemma {:induction false} SecondNonce(cipher: Ocb.Cipher, now: nat)
    requires Ocb.Inverse(cipher)
    ensures var rx := After(cipher, Fresh(now), Seal(cipher, TWO127 + 1, Voice.Ping(0)), now);
      Expects(rx, TWO127 + 2) && LowByte(TWO127 + 2) == 2
  {
    hide After, Seal, Fresh, Judge, LowByte, Voice.Encode, Voice.Encodable, Voice.Travels, Expects;
    PingBytes();
    FirstVerdict(now);
    AcceptedMoves(cipher, Fresh(now), TWO127 + 1, Voice.Ping(0), now);
    ExpectsNext(After(cipher, Fresh(now), Seal(cipher, TWO127 + 1, Voice.Ping(0)), now));
  }

  /** From an address that has become known in a run, the client's second packet is swallowed. */
  lemma {:induction false} SecondPacketSwallowed(cipher: Ocb.Cipher, a: Addr, now: nat)
    requires Ocb.Inverse(cipher)
    ensures var v := Greeted(cipher, a, now);
      var d := Seal(cipher, TWO127 + 2, ShortPacket());
      && IsRun([Initial(), OneClient(cipher, now), v], [Connect(cipher, now), Hello(cipher, a, now)])
      && AllWellFormed(v) && a in v.bySocket
      && Reader(v, [], d, a, now) == Client(1, ShortPacket())
      && HandlePacket(v, [], d, a, now).0 == v
      && HandlePacket(v, [], d, a, now).1 != Relayed(1, ShortPacket())
  {
    hide Greeted, Hello, OneClient, IsRun, AllWellFormed, HandlePacket, Reader, Seal, After, Fresh, Expects, LowByte, ShortPacket,
      IndexInv;
    var v := Greeted(cipher, a, now);
    GreetedRun(cipher, a, now);
    RunsKeepIndex([Initial(), OneClient(cipher, now), v], [Connect(cipher, now), Hello(cipher, a, now)], 2);
    IndexedIsWellFormed(v);
    GreetedState(cipher, a, now);
    SecondNonce(cipher, now);
    SwallowedAsPing(v, [], a, now, TWO127 + 2);
  }
}
