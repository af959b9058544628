/** The server state as the objects that the server updates in place, method by method. */
module ServerState {
  import opened Words
  import opened Wrappers
  import opened Crypt
  import opened Server
  import Ids
  import Ocb
  import Voice
  import ServerRuns

  class Client {
    const session: u32
    const crypt: CryptState
    var udpSocketAddr: Option<Addr>
    var channelId: u32

    constructor (session: u32, channelId: u32, crypt: CryptState)
      ensures this.session == session && this.crypt == crypt
      ensures this.channelId == channelId && udpSocketAddr == None
    {
      this.session := session;
      this.crypt := crypt;
      this.channelId := channelId;
      udpSocketAddr := None;
    }

    ghost function View(): ClientView
      reads this, crypt
    {
      ClientView(udpSocketAddr, channelId, crypt.cipher, crypt.View())
    }

    /** Stores the new channel and tells the one left, if any. */
    method JoinChannel(channel: u32) returns (left: Option<u32>)
      modifies this`channelId
      ensures channelId == channel
      ensures left == if old(channelId) == channel then None else Some(old(channelId))
    {
      var current := channelId;
      if channel == current {
        return None;
      }
      channelId := channel;
      left := Some(current);
    }
  }

  class Channel {
    const id: u32
    const name: Name
    const temporary: bool
    var clients: set<u32>
    var listeners: set<u32>

    constructor (id: u32, name: Name, temporary: bool)
      ensures this.id == id && this.name == name && this.temporary == temporary
      ensures clients == {} && listeners == {}
    {
      this.id := id;
      this.name := name;
      this.temporary := temporary;
      clients, listeners := {}, {};
    }

    ghost function View(): ChannelView
      reads this
    {
      ChannelView(name, temporary, clients, listeners)
    }
  }

  lemma {:induction false} SameMembers(w: World, c: u32)
    requires c in w.channels
    ensures WithMembers(w, c, w.channels[c].members) == w
  {
  }

  /** `order` lists, once each, the connected ones of `all` that are no longer in `todo`. */
  ghost predicate Visited(order: seq<u32>, all: set<u32>, todo: set<u32>, connected: set<u32>) {
    && todo <= all
    && Distinct(order)
    && (forall i :: 0 <= i < |order| ==> order[i] in all && order[i] !in todo)
    && (forall s :: s in all && s in connected ==> s in todo || s in order)
  }

  lemma {:induction false} VisitNobody(all: set<u32>, connected: set<u32>)
    ensures Visited([], all, all, connected)
  {
  }

  lemma {:induction false} VisitNext(order: seq<u32>, all: set<u32>, todo: set<u32>, connected: set<u32>, s: u32)
    requires Visited(order, all, todo, connected) && s in todo
    ensures Visited(order + [s], all, todo - {s}, connected)
    ensures s !in connected ==> Visited(order, all, todo - {s}, connected)
  {
  }

  lemma {:induction false} FindInNobody(w: World, d: seq<byte>, a: Addr, now: nat)
    requires AllWellFormed(w)
    ensures FindClient(w, [], d, a, now) == (w, Nobody)
  {
  }

  class ServerState {
    var clients: map<u32, Client>
    var clientsWithoutUdp: set<u32>
    var clientsBySocket: map<Addr, u32>
    var channels: map<u32, Channel>
    var sessionCount: u32
    var channelCount: u32

    ghost function Crypts(): set<CryptState>
      reads this
    {
      set c | c in clients.Values :: c.crypt
    }

    ghost predicate Valid()
      reads this, clients.Values, Crypts(), channels.Values
    {
      && (forall s :: s in clients ==> clients[s].session == s && clients[s].crypt.Valid())
      && (forall s, t :: s in clients && t in clients && s != t ==> clients[s].crypt != clients[t].crypt)
      && (forall c :: c in channels ==> channels[c].id == c)
    }

    ghost function ClientViews(): map<u32, ClientView>
      reads this, clients.Values, Crypts()
    {
      map s | s in clients :: clients[s].View()
    }

    ghost function ChannelViews(): map<u32, ChannelView>
      reads this, channels.Values
    {
      map c | c in channels :: channels[c].View()
    }

    ghost function View(): World
      reads this, clients.Values, Crypts(), channels.Values
    {
      World(ClientViews(), clientsWithoutUdp, clientsBySocket, ChannelViews(), sessionCount, channelCount)
    }

    /** A change to one client, or its arrival or removal, changes its entry and no other. */
    twostate lemma ClientsBut(x: u32)
      requires old(Valid())
      requires forall s :: s in old(clients) && s != x ==> s in clients
      requires forall s :: s in clients && s != x ==> s in old(clients) && clients[s] == old(clients)[s]
      requires forall s :: s in old(clients) && s != x ==> unchanged(old(clients)[s]) && unchanged(old(clients)[s].crypt)
      ensures x in clients ==> ClientViews() == old(ClientViews())[x := clients[x].View()]
      ensures x !in clients ==> ClientViews() == old(ClientViews()) - {x}
    {
      if x in clients {
        ClientSet(x);
      } else {
        ClientGone(x);
      }
    }

    twostate lemma ClientSet(x: u32)
      requires x in clients
      requires forall s :: s in old(clients) && s != x ==> s in clients
      requires forall s :: s in clients && s != x ==> s in old(clients) && clients[s] == old(clients)[s]
      requires forall s :: s in old(clients) && s != x ==> unchanged(old(clients)[s]) && unchanged(old(clients)[s].crypt)
      ensures ClientViews() == old(ClientViews())[x := clients[x].View()]
    {
      hide CryptState.View;
    }

    twostate lemma ClientGone(x: u32)
      requires x !in clients
      requires forall s :: s in old(clients) && s != x ==> s in clients
      requires forall s :: s in clients ==> s in old(clients) && clients[s] == old(clients)[s]
      requires forall s :: s in old(clients) && s != x ==> unchanged(old(clients)[s]) && unchanged(old(clients)[s].crypt)
      ensures ClientViews() == old(ClientViews()) - {x}
    {
    }

    twostate lemma ChannelsBut(x: u32)
      requires forall c :: c in old(channels) && c != x ==> c in channels
      requires forall c :: c in channels && c != x ==> c in old(channels) && channels[c] == old(channels)[c]
      requires forall c :: c in old(channels) && c != x ==> unchanged(old(channels)[c])
      ensures x in channels ==> ChannelViews() == old(ChannelViews())[x := channels[x].View()]
      ensures x !in channels ==> ChannelViews() == old(ChannelViews()) - {x}
    {
    }

    twostate lemma SameClients()
      requires old(Valid()) && clients == old(clients)
      requires forall s :: s in clients ==> unchanged(clients[s]) && unchanged(clients[s].crypt)
      ensures ClientViews() == old(ClientViews())
    {
    }

    twostate lemma SameChannels()
      requires channels == old(channels)
      requires forall c :: c in channels ==> unchanged(channels[c])
      ensures ChannelViews() == old(ChannelViews())
    {
    }

    constructor ()
      ensures Valid() && fresh(channels.Values)
      ensures View() == Initial()
    {
      clients, clientsWithoutUdp, clientsBySocket := map[], {}, map[];
      var root := new Channel(ROOT, ROOT_NAME, false);
      channels := map[ROOT := root];
      sessionCount, channelCount := 1, 1;
    }

    lemma {:induction false} ViewKeys()
      ensures ClientViews().Keys == clients.Keys && ChannelViews().Keys == channels.Keys
    {
    }

    lemma {:induction false} ViewDomains()
      ensures View().clients.Keys == clients.Keys && View().channels.Keys == channels.Keys
    {
    }

    lemma {:induction false} OwnSession(s: u32)
      requires Valid() && s in clients
      ensures clients[s].session == s
    {
    }

    method GetFreeSessionId() returns (id: u32)
      requires |clients.Keys| < TWO32
      modifies this`sessionCount
      ensures id !in clients
      ensures (id, sessionCount) == Ids.FreeId(old(sessionCount), clients.Keys)
    {
      var next, probes;
      id, next, probes := Ids.GetFreeId(sessionCount, clients.Keys);
      sessionCount := next;
    }

    method GetFreeChannelId() returns (id: u32)
      requires |channels.Keys| < TWO32
      modifies this`channelCount
      ensures id !in channels
      ensures (id, channelCount) == Ids.FreeId(old(channelCount), channels.Keys)
    {
      var next, probes;
      id, next, probes := Ids.GetFreeId(channelCount, channels.Keys);
      channelCount := next;
    }

    /** Enters a new client, which has no UDP address yet. */
    method InsertClient(client: Client)
      requires Valid() && client.session !in clients
      requires client.crypt.Valid() && client.crypt !in Crypts()
      modifies this`clients, this`clientsWithoutUdp
      ensures Valid() && clients == old(clients)[client.session := client]
      ensures View() == old(View()).(
        clients := old(View()).clients[client.session := client.View()],
        withoutUdp := old(View()).withoutUdp + {client.session})
    {
      clients := clients[client.session := client];
      clientsWithoutUdp := clientsWithoutUdp + {client.session};
      ClientsBut(client.session);
      SameChannels();
      hide ClientViews, ChannelViews;
    }

    static method NewClient(session: u32, cipher: Ocb.Cipher, now: nat) returns (client: Client)
      ensures fresh(client) && fresh(client.crypt) && client.crypt.Valid() && client.session == session
      ensures client.View() == ClientView(None, ROOT, cipher, Fresh(now))
    {
      var crypt := new CryptState(cipher, now);
      client := new Client(session, ROOT, crypt);
    }

    method AddClient(cipher: Ocb.Cipher, now: nat) returns (client: Client)
      requires Valid() && |clients.Keys| < TWO32
      modifies this`clients, this`clientsWithoutUdp, this`sessionCount
      ensures Valid() && fresh(client) && fresh(client.crypt)
      ensures clients == old(clients)[client.session := client]
      ensures |old(View()).clients.Keys| < TWO32
      ensures View() == Server.AddClient(old(View()), cipher, now)
    {
      hide Ids.FreeId, Fresh;
      ViewKeys();
      var id := GetFreeSessionId();
      client := NewClient(id, cipher, now);
      SameClients();
      SameChannels();
      hide ClientViews, ChannelViews;
      InsertClient(client);
    }

    /** Swaps the address of a client. */
    method SwapAddress(client: Client, addr: Option<Addr>) returns (prev: Option<Addr>)
      requires Valid() && client.session in clients && clients[client.session] == client
      modifies client`udpSocketAddr
      ensures Valid() && client.session in old(View()).clients
      ensures prev == old(View()).clients[client.session].addr
      ensures View() == WithClient(old(View()), client.session, old(View()).clients[client.session].(addr := addr))
    {
      prev := client.udpSocketAddr;
      client.udpSocketAddr := addr;
      ClientsBut(client.session);
      SameChannels();
      hide ClientViews, ChannelViews;
    }

    method RemoveClientBySocket(addr: Addr)
      requires Valid()
      modifies this`clientsBySocket
      ensures Valid()
      ensures View() == old(View()).(bySocket := old(View()).bySocket - {addr})
    {
      clientsBySocket := clientsBySocket - {addr};
      SameClients();
      SameChannels();
      hide ClientViews, ChannelViews;
    }

    /** Enters an address unless somebody holds it. */
    method EnterSocket(addr: Addr, session: u32)
      requires Valid()
      modifies this`clientsBySocket
      ensures Valid()
      ensures var held := old(View()).bySocket;
        View() == old(View()).(bySocket := if addr in held then held else held[addr := session])
    {
      if addr !in clientsBySocket {
        clientsBySocket := clientsBySocket[addr := session];
      }
      SameClients();
      SameChannels();
      hide ClientViews, ChannelViews;
    }

    method ListMissingUdp(session: u32)
      requires Valid()
      modifies this`clientsWithoutUdp
      ensures Valid()
      ensures View() == old(View()).(withoutUdp := old(View()).withoutUdp + {session})
    {
      clientsWithoutUdp := clientsWithoutUdp + {session};
      SameClients();
      SameChannels();
      hide ClientViews, ChannelViews;
    }

    /** Starts the cipher state of a client over. */
    method RestartCipher(client: Client, now: nat)
      requires Valid() && client.session in clients && clients[client.session] == client
      modifies client.crypt
      ensures Valid() && client.session in old(View()).clients
      ensures View() == WithClient(old(View()), client.session, old(View()).clients[client.session].(rx := Fresh(now)))
    {
      hide Fresh;
      client.crypt.Reset(now);
      ClientsBut(client.session);
      SameChannels();
      hide ClientViews, ChannelViews;
    }

    method SetClientSocket(client: Client, addr: Addr)
      requires Valid() && client.session in clients && clients[client.session] == client
      modifies this`clientsBySocket, client`udpSocketAddr
      ensures Valid() && client.session in old(View()).clients
      ensures View() == SetSocket(old(View()), client.session, addr)
    {
      hide View, Valid;
      var existing := SwapAddress(client, Some(addr));
      if existing.Some? {
        RemoveClientBySocket(existing.value);
      }
      EnterSocket(addr, client.session);
    }

    method ResetClientCrypt(client: Client, now: nat)
      requires Valid() && client.session in clients && clients[client.session] == client
      modifies this`clientsWithoutUdp, this`clientsBySocket, client`udpSocketAddr, client.crypt
      ensures Valid() && client.session in old(View()).clients
      ensures View() == ResetCrypt(old(View()), client.session, now)
    {
      hide View, Valid, Fresh;
      ListMissingUdp(client.session);
      var address := SwapAddress(client, None);
      if address.Some? {
        RemoveClientBySocket(address.value);
      }
      RestartCipher(client, now);
    }

    method SetMembers(channel: u32, members: set<u32>)
      requires Valid() && channel in channels
      modifies channels[channel]
      ensures Valid() && channels[channel].clients == members
      ensures View() == WithMembers(old(View()), channel, members)
    {
      channels[channel].clients := members;
      ChannelsBut(channel);
      SameClients();
      hide ClientViews, ChannelViews;
    }

    method RemoveChannel(channel: u32)
      requires Valid()
      modifies this`channels
      ensures Valid() && channels == old(channels) - {channel}
      ensures View() == old(View()).(channels := old(View()).channels - {channel})
    {
      channels := channels - {channel};
      ChannelsBut(channel);
      SameClients();
      hide ClientViews, ChannelViews;
    }

    /** Takes a client out of a channel; an empty temporary channel is deleted and reported. */
    method HandleClientLeftChannel(session: u32, channel: u32) returns (deleted: Option<u32>)
      requires Valid()
      modifies this`channels, channels.Values
      ensures Valid()
      ensures View() == LeaveChannel(old(View()), session, channel)
      ensures deleted == if channel in channels then None else Some(channel)
      ensures channel in channels ==> session !in channels[channel].clients
      ensures forall c :: c in channels ==> c in old(channels) && channels[c] == old(channels)[c]
    {
      ViewKeys();
      if channel in channels {
        SetMembers(channel, channels[channel].clients - {session});
        if !channels[channel].temporary || channels[channel].clients != {} {
          return None;
        }
      }
      RemoveChannel(channel);
      assert channel !in old(View()).channels ==> View() == old(View());
      return Some(channel);
    }

    /** Moves a client; false means that the channel does not exist, though the client now claims it. */
    method SetClientChannel(client: Client, channel: u32) returns (ok: bool)
      requires Valid() && client.session in clients && clients[client.session] == client
      modifies this`channels, client`channelId, channels.Values
      ensures Valid()
      ensures View() == SetChannel(old(View()), client.session, channel)
      ensures ok <==> channel in old(channels)
    {
      var left := client.JoinChannel(channel);
      if channel !in channels {
        ClientsBut(client.session);
        SameChannels();
        return false;
      }
      channels[channel].clients := channels[channel].clients + {client.session};
      ClientsBut(client.session);
      ChannelsBut(channel);
      hide ClientViews, ChannelViews, LeaveChannel;
      if left.Some? {
        var _ := HandleClientLeftChannel(client.session, left.value);
      }
      ok := true;
    }

    /** Drops a client from the tables of connected clients. */
    method DropClient(client: Client)
      requires Valid() && client.session in clients && clients[client.session] == client
      modifies this`clients, this`clientsWithoutUdp
      ensures Valid() && clients == old(clients) - {client.session}
      ensures View() == old(View()).(
        clients := old(View()).clients - {client.session},
        withoutUdp := old(View()).withoutUdp - {client.session})
    {
      clients := clients - {client.session};
      clientsWithoutUdp := clientsWithoutUdp - {client.session};
      ClientsBut(client.session);
      SameChannels();
      hide ClientViews, ChannelViews;
    }

    /** Gives up the address of a client that is no longer connected. */
    method ForgetSocket(client: Client)
      requires Valid() && client !in clients.Values
      modifies this`clientsBySocket, client`udpSocketAddr
      ensures Valid()
      ensures var a := old(client.udpSocketAddr);
        View() == old(View()).(bySocket := if a.Some? then old(View()).bySocket - {a.value} else old(View()).bySocket)
    {
      var socket := client.udpSocketAddr;
      client.udpSocketAddr := None;
      if socket.Some? {
        clientsBySocket := clientsBySocket - {socket.value};
      }
      SameClients();
      SameChannels();
      hide ClientViews, ChannelViews;
    }

    lemma {:induction false} ViewMembers(channel: u32)
      requires channel in channels
      ensures channel in View().channels && View().channels[channel].members == channels[channel].clients
    {
    }

    method Disconnect(session: u32)
      requires Valid()
      modifies this, clients.Values, channels.Values
      ensures Valid()
      ensures View() == Server.Disconnect(old(View()), session)
    {
      ViewKeys();
      if session in clients {
        var client := clients[session];
        DisconnectClient(client);
      }
    }

    /** Leaving on disconnect: whatever is left of the membership is swept away once more. */
    method LeaveAndRetain(session: u32, channel: u32)
      requires Valid()
      modifies this`channels, channels.Values
      ensures Valid()
      ensures View() == LeaveChannel(old(View()), session, channel)
    {
      hide LeaveChannel, WithMembers;
      var _ := HandleClientLeftChannel(session, channel);
      if channel in channels {
        ViewMembers(channel);
        SameMembers(View(), channel);
        assert channels[channel].clients - {session} == channels[channel].clients;
        SetMembers(channel, channels[channel].clients - {session});
      }
    }

    method DisconnectClient(client: Client)
      requires Valid() && client.session in clients && clients[client.session] == client
      modifies this, client, channels.Values
      ensures Valid()
      ensures View() == Server.Disconnect(old(View()), client.session)
    {
      hide LeaveChannel;
      ViewKeys();
      var channel := client.channelId;
      assert View().clients[client.session] == client.View();
      hide ClientViews, ChannelViews;
      DropClient(client);
      ForgetSocket(client);
      LeaveAndRetain(client.session, channel);
    }

    method InsertChannel(channel: Channel)
      requires Valid() && channel.id !in channels
      modifies this`channels
      ensures Valid() && channels == old(channels)[channel.id := channel]
      ensures View() == old(View()).(channels := old(View()).channels[channel.id := channel.View()])
    {
      channels := channels[channel.id := channel];
      SameClients();
      ChannelsBut(channel.id);
      hide ClientViews, ChannelViews;
    }

    method AddChannel(name: Name, temporary: bool) returns (channel: Channel)
      requires Valid() && |channels.Keys| < TWO32
      modifies this`channels, this`channelCount
      ensures Valid() && fresh(channel) && channels == old(channels)[channel.id := channel]
      ensures |old(View()).channels.Keys| < TWO32
      ensures (View(), channel.id) == Server.AddChannel(old(View()), name, temporary)
    {
      hide Ids.FreeId;
      ViewKeys();
      var id := GetFreeChannelId();
      channel := new Channel(id, name, temporary);
      SameClients();
      SameChannels();
      hide ClientViews, ChannelViews;
      InsertChannel(channel);
    }

    /** Whether some channel has this name. */
    predicate HasChannelNamed(name: Name)
      reads this, channels.Values
    {
      exists c :: c in channels && channels[c].name == name
    }

    lemma {:induction false} NamesAreViewed(name: Name)
      ensures HasChannelNamed(name) == NameTaken(View(), name)
    {
      ViewKeys();
      assert forall c :: c in channels ==> View().channels[c].name == channels[c].name;
    }

    method CreateAndJoin(client: Client, name: Name, temporary: bool)
      requires Valid() && client.session in clients && clients[client.session] == client
      requires |channels.Keys| < TWO32
      modifies this`channels, this`channelCount, client`channelId, channels.Values
      ensures Valid() && |old(View()).channels.Keys| < TWO32 && client.session in old(View()).clients
      ensures var added := Server.AddChannel(old(View()), name, temporary);
        View() == SetChannel(added.0, client.session, added.1)
    {
      hide Server.AddChannel, SetChannel, View, Valid;
      ViewDomains();
      var channel := AddChannel(name, temporary);
      var _ := SetClientChannel(client, channel.id);
    }

    /** A client asks for a new channel: created and joined if every guard passes, ignored otherwise. */
    method HandleChannelState(client: Client, request: ChannelRequest)
      requires Valid() && client.session in clients && clients[client.session] == client
      requires |channels.Keys| < TWO32
      modifies this`channels, this`channelCount, client`channelId, channels.Values
      ensures Valid() && |old(View()).channels.Keys| < TWO32
      ensures View() == CreateChannel(old(View()), client.session, request)
    {
      hide Server.AddChannel, SetChannel, NameTaken;
      ViewKeys();
      hide ClientViews, ChannelViews;
      if request.hasId || request.parent.None? || request.name.None? || !request.temporary {
        return;
      }
      if |request.name.value| > 512 || request.parent.value !in channels {
        return;
      }
      NamesAreViewed(request.name.value);
      if HasChannelNamed(request.name.value) {
        return;
      }
      CreateAndJoin(client, request.name.value, request.temporary);
    }

    /** Tries a datagram on one client's cipher state. */
    method TryClient(client: Client, bytes: seq<byte>, now: nat) returns (r: Result<Voice.VoicePacket>)
      requires Valid() && client.session in clients && clients[client.session] == client
      modifies client.crypt
      ensures Valid()
      ensures client.session in old(View()).clients && WellFormed(old(View()).clients[client.session].rx)
      ensures r == TrialOutcome(old(View()), client.session, bytes)
      ensures View() == Trial(old(View()), client.session, bytes, now)
    {
      hide After, Outcome;
      r := client.crypt.Decrypt(Voice.ServerBound, bytes, now);
      ClientsBut(client.session);
      SameChannels();
    }

    method ForgetMissingUdp(session: u32)
      requires Valid()
      modifies this`clientsWithoutUdp
      ensures Valid()
      ensures View() == old(View()).(withoutUdp := old(View()).withoutUdp - {session})
    {
      clientsWithoutUdp := clientsWithoutUdp - {session};
      SameClients();
      SameChannels();
      hide ClientViews, ChannelViews;
    }

    lemma {:induction false} ViewIsWellFormed()
      requires Valid()
      ensures AllWellFormed(View())
    {
    }

    /** Tries the datagram on one client; if the client can read it, its address becomes known. */
    method TryAndBind(client: Client, bytes: seq<byte>, addr: Addr, now: nat) returns (found: Found)
      requires Valid() && client.session in clients && clients[client.session] == client
      modifies this`clientsWithoutUdp, this`clientsBySocket, client`udpSocketAddr, client.crypt
      ensures Valid() && client.session in old(View()).clients && AllWellFormed(old(View()))
      ensures match TrialOutcome(old(View()), client.session, bytes)
        case Err(_) => found == Nobody && View() == Trial(old(View()), client.session, bytes, now)
        case Ok(p) =>
          var bound := SetSocket(Trial(old(View()), client.session, bytes, now), client.session, addr);
          found == Server.Client(client.session, p) && View() == bound.(withoutUdp := bound.withoutUdp - {client.session})
    {
      hide After, Outcome, SetSocket;
      ViewIsWellFormed();
      var r := TryClient(client, bytes, now);
      if r.Err? {
        return Nobody;
      }
      SetClientSocket(client, addr);
      ForgetMissingUdp(client.session);
      found := Server.Client(client.session, r.value);
    }

    /** One more client of the search that started in `w` and has tried `order` in vain. */
    method TryNext(s: u32, bytes: seq<byte>, addr: Addr, now: nat, ghost w: World, ghost order: seq<u32>)
      returns (found: Found, ghost tried: seq<u32>)
      requires Valid() && AllWellFormed(w) && w.clients.Keys == clients.Keys
      requires (View(), Nobody) == FindClient(w, order, bytes, addr, now)
      modifies this`clientsWithoutUdp, this`clientsBySocket, clients.Values, Crypts()
      ensures Valid()
      ensures tried == if s in clients then order + [s] else order
      ensures (View(), found) == FindClient(w, tried, bytes, addr, now)
    {
      hide SetSocket, Trial, TrialOutcome, FindClient, View, Valid;
      if s !in clients {
        return Nobody, order;
      }
      OwnSession(s);
      FindClientNext(w, order, s, bytes, addr, now);
      found := TryAndBind(clients[s], bytes, addr, now);
      tried := order + [s];
    }

    /** Finds whose datagram this is among the clients without a UDP address, in some order. */
    method FindClientWithDecrypt(bytes: seq<byte>, addr: Addr, now: nat) returns (found: Found, ghost order: seq<u32>)
      requires Valid()
      modifies this`clientsWithoutUdp, this`clientsBySocket, clients.Values, Crypts()
      ensures Valid() && AllWellFormed(old(View()))
      ensures exists todo :: Visited(order, old(clientsWithoutUdp), todo, old(clients).Keys) && (found.Nobody? ==> todo == {})
      ensures (View(), found) == FindClient(old(View()), order, bytes, addr, now)
    {
      hide FindClient, View, Visited, Valid, AllWellFormed;
      ViewIsWellFormed();
      ViewDomains();
      ghost var w := View();
      FindInNobody(w, bytes, addr, now);
      var todo := clientsWithoutUdp;
      found, order := Nobody, [];
      VisitNobody(todo, clients.Keys);
      while todo != {} && found.Nobody?
        invariant Valid() && w.clients.Keys == clients.Keys
        invariant (View(), found) == FindClient(w, order, bytes, addr, now)
        invariant Visited(order, old(clientsWithoutUdp), todo, clients.Keys)
        decreases todo
      {
        var s :| s in todo;
        VisitNext(order, old(clientsWithoutUdp), todo, clients.Keys, s);
        todo := todo - {s};
        found, order := TryNext(s, bytes, addr, now, w, order);
      }
    }

    /** A datagram from an address that a client owns; an unreadable one may start the cipher over. */
    method HandleKnown(client: Client, bytes: seq<byte>, now: nat) returns (h: ServerRuns.Handling)
      requires Valid() && client.session in clients && clients[client.session] == client
      modifies this`clientsWithoutUdp, this`clientsBySocket, client`udpSocketAddr, client.crypt
      ensures Valid() && client.session in old(View()).clients && AllWellFormed(old(View()))
      ensures var w, s := old(View()), client.session;
        var tried := Trial(w, s, bytes, now);
        match TrialOutcome(w, s, bytes)
        case Ok(p) => View() == tried && h == ServerRuns.Relayed(s, p)
        case Err(e) =>
          var restart := ServerRuns.RestartsCrypt(e, tried.clients[s].rx, now);
          View() == (if restart then ResetCrypt(tried, s, now) else tried) && h == ServerRuns.Refused(s, e, restart)
    {
      hide After, Outcome, ResetCrypt;
      ViewIsWellFormed();
      var r := TryClient(client, bytes, now);
      if r.Ok? {
        return ServerRuns.Relayed(client.session, r.value);
      }
      assert View().clients[client.session].rx == client.crypt.View();
      var restart := ServerRuns.RestartsCrypt(r.error, client.crypt.View(), now);
      if restart {
        ResetClientCrypt(client, now);
      }
      h := ServerRuns.Refused(client.session, r.error, restart);
    }

    method HandlePacket(bytes: seq<byte>, addr: Addr, now: nat)
      returns (h: ServerRuns.Handling, ghost order: seq<u32>)
      requires Valid()
      modifies this`clientsWithoutUdp, this`clientsBySocket, clients.Values, Crypts()
      ensures Valid() && AllWellFormed(old(View()))
      ensures exists todo :: Visited(order, old(clientsWithoutUdp), todo, old(clients).Keys) && (h.Unknown? ==> todo == {})
      ensures (View(), h) == ServerRuns.HandlePacket(old(View()), order, bytes, addr, now)
    {
      ViewKeys();
      ViewIsWellFormed();
      order := [];
      assert Visited(order, clientsWithoutUdp, clientsWithoutUdp, clients.Keys);
      if |bytes| <= 1 {
        return ServerRuns.Malformed, order;
      }
      if ServerRuns.LooksLikeListPing(bytes) {
        return ServerRuns.AnswerListPing(bytes), order;
      }
      hide Trial, TrialOutcome, FindClient, ResetCrypt, ClientViews, ChannelViews, ServerRuns.RestartsCrypt;
      if addr in clientsBySocket && clientsBySocket[addr] in clients {
        var s := clientsBySocket[addr];
        h := HandleKnown(clients[s], bytes, now);
      } else {
        var found;
        found, order := FindClientWithDecrypt(bytes, addr, now);
        h := if found.Client? then ServerRuns.Relayed(found.session, found.packet) else ServerRuns.Unknown;
      }
    }
  }
}
