# A verified model of the voice server's core

This project models three connected parts of a Mumble voice server in Dafny and proves properties of them.

**The UDP voice channel** (`Words`, `Varint`, `Voice`, `Ocb`, `Crypt`, `CryptRuns`, `EndToEnd`). A sender puts only the low byte of a 128-bit nonce on the wire. The receiver rebuilds the nonce, tolerates loss and lateness, rejects repeats with a 256-slot history of one byte each, and keeps loss statistics. Below that lie an OCB2 block mode that works in place on a buffer, a frame codec, and variable-length integers. The parts meet in `EndToEnd`: which packets come out of the receiver, and what they are, for every stream and every pattern of loss, reordering and duplication that stays in the window.

**The server state** (`Ids`, `Server`, `ServerRuns`, `ServerState`, `Pings`, `Relay`, `CounterRace`). Several tables must agree: clients, clients without a UDP address, clients by address, channels with their members, and a client counter. `Server` gives each operation as a function on an abstract state, `ServerState` is the same operations as classes whose methods update their fields in place and are proved against those functions, `ServerRuns` proves what every run of whole operations keeps, `Pings` and `Relay` follow a voice packet into the server and on to its listeners, and `CounterRace` splits connecting and disconnecting at their suspension points and covers every interleaving.

**Voice routing and the anticheat** (`Routing`, `Sampler`, `Window`, `Strikes`, `Detector`, `Heard`, `Calendar`). Who a whisper reaches, who the sampler believes it reaches, a pruned sliding window of targets, a leaky strike counter, the sampling round that combines them, a bounded list of who was heard last, and a conversion from day counts to dates.

Machine words are integers with explicit bounds (`byte`, `u32`, `u64`, `u128`); wrap-around, truncation and exclusive or are written out. AES is a pair of functions passed as a parameter; where a result needs them to be inverse to each other, it says so (`Ocb.Inverse`). Clocks, random keys and iteration orders of hash tables are parameters or nondeterministic choices. `dafny verify dfyconfig.toml` checks everything.

## Where a promise does not hold as one might read it

Each of these is stated as a lemma, with the exact condition under which the promise does hold.

- A repeat verdict can be wrong, in two ways. The history starts zeroed, so right after a reset a packet of the first 255 that is overtaken by a later one is refused although it never arrived (`EndToEnd.OvertakenAfterReset`). And a slot keeps one byte, so in a stream of more than 65536 packets an overtaken packet is refused if the last arrival in its slot was a multiple of 65536 earlier (`EndToEnd.StaleSlot`). `EndToEnd.DeliveredIff` says for every receiver and every stream exactly which arrivals are delivered, and `EndToEnd.ExactlyOnceIff` exactly when delivery is exactly-once; `EndToEnd.DeliveredFromReset` is the case that every receiver starts from. For single datagrams from anybody the verdict is right exactly when the slot was last written fewer than 65536 nonces away (`CryptRuns.RepeatVerdict`).
- The lost counter can go below zero. A late nonce at or below the starting one is accepted and takes one from it (`EndToEnd.LateBelowStart`); it is exact if and only if there is none (`CryptRuns.LossIsExactIff`), and `CryptRuns.LossAccount` gives its value after every run.
- A voice datagram of 12 bytes whose nonce byte is below 32 is answered as a server-list ping and never decrypted (`ServerRuns.ReadableIsRelayedIff`, `Pings.SealedLooksLikePingIff`). This happens in runs, to a client's first packet and to later ones (`Pings.FirstPacketSwallowed`, `Pings.SecondPacketSwallowed`).
- Joining a channel that does not exist stores the channel id before the error is noticed. This is the only operation that breaks the channel rules (`ServerRuns.ApplyKeepsChannelsIff`, `Server.JoinKeepsChannelsIff`).
- Taking an address that another client holds leaves the two sides of the address index inconsistent (`Server.SetSocketInverseIff`); no run of the server does it (`ServerRuns.RunsKeepIndex`).
- A disconnect that looks its client up between the counting and the insertion leaves the client counter one too high for good (`CounterRace.EarlyDisconnectLeaks`). The counter is right if and only if no step took that branch or inserted under an id that is taken (`CounterRace.ExactIffNoSlip`).
- The written form of a varint is the shortest one except for values with the top bit set whose complement needs the nine-byte form: those take ten bytes where nine would do (`Varint.EncodingMinimalIff`).
- Encoding a packet loses information exactly for packets that no decoder produces: an empty frame list, a frame of 128 bytes or more, an Opus length with bit 13 set, a target above 31, or a position that is present but empty (`Voice.RoundTripIff`).

## Model

| member | source | states |
|---|---|---|
| Varint.RoundTrip | src/varint.rs:27-118 | For every 64-bit value and every suffix, reading what was written gives the value and leaves exactly the suffix. |
| Varint.EncodeLength | src/varint.rs:70-118 | The exact number of bytes written for each range of values; at most 10, and 10 exactly for values whose complement needs the nine-byte form. |
| Varint.NoShorter | src/varint.rs:27-66 | No byte string that decodes to a value uses fewer bytes than the minimum for that value, complement prefixes included. |
| Varint.Shortest | src/varint.rs:27-66 | For every value some byte string of that minimal length decodes to it, so the minimum is attained. |
| Varint.EncodingMinimalIff | src/varint.rs:27-118 | What is written is a shortest encoding if and only if the value is not one of the ten-byte ones; all values with the top bit clear are minimal. |
| Varint.Layout | src/varint.rs:27-66 | The format in bytes and numbers: for every first byte, how many bytes the form takes, how they make up the value, and when the input is truncated. |
| Varint.LongLayout | src/varint.rs:46-66 | The same for the five- and nine-byte forms. |
| Varint.FirstByte | src/varint.rs:70-118 | The first byte written, for each range of values. |
| Varint.Reader.ReadVarint | src/varint.rs:27-66 | Reading byte by byte terminates on every input, returns what the format assigns to the front of the data and leaves the rest; a truncated source ends empty with an error. |
| Varint.Reader.ReadLong | src/varint.rs:46-66 | The four-, five- and nine-byte forms agree with the format after their first three bytes. |
| Varint.Writer.WriteVarint | src/varint.rs:70-118 | Appends exactly the encoding of the value, recursing once for complemented values. |
| Varint.Writer.WriteForm | src/varint.rs:79-117 | The branch per value range appends the form that the round trip is proved for. |
| Voice.FramesRoundTrip | src/voice.rs:142-161 | A non-empty list of frames below 128 bytes survives encoding and decoding, whatever follows it. |
| Voice.OpusRoundTrip | src/voice.rs:169-180 | An Opus frame and its terminator bit survive, when the length leaves bit 13 free. |
| Voice.RoundTrip | src/voice.rs:129-248 | Every encodable packet travelling in a direction decodes to itself in that direction. |
| Voice.DecodedIsEncodable | src/voice.rs:129-199 | Whatever decodes is encodable: non-empty frame lists of at most 127 bytes each, Opus lengths with bit 13 clear, no empty position, a target below 32. |
| Voice.RoundTripIff | src/voice.rs:129-248 | Decoding gives an encoded packet back if and only if it is encodable. |
| Voice.KindOnWire | src/voice.rs:129-187 | For every string that decodes, the top three bits say what it is, both ways: 1 a ping, 0 CELT alpha, 2 Speex, 3 CELT beta, 4 Opus; the low five bits are the target. |
| Voice.KindWritten | src/voice.rs:201-248 | The same numbers for the first byte of every packet written. |
| Voice.OpusToServer | src/voice.rs:129-199 | The bytes of every Opus packet towards the server: header, sequence number, length with 0x2000 added at the end of a transmission, frame, position. |
| Voice.OpusToClient | src/voice.rs:94-199 | Towards a client the session stands before the sequence number, for every session, number and frame. |
| Voice.FrameBytes | src/voice.rs:142-161 | A frame of the other codecs is a length byte and its bytes, and more frames follow if and only if the top bit of the length is set, whatever they are. |
| Voice.FramesToServer | src/voice.rs:129-199 | A packet of each of those codecs for every string of frames, the error of a broken one included. |
| Voice.PingOnWire | src/voice.rs:129-137 | A ping in either direction: the number one and a timestamp; what follows is ignored. |
| Voice.ParseErrors | src/voice.rs:129-199 | Parsing fails with one of two errors only. |
| Voice.RelayKeepsMeaning | src/voice.rs:107-248 | For every byte string decoded as server-bound: convert, encode, decode as client-bound, and target, sequence number and payload are the same, the session is the speaker's, and the position is dropped only when asked. |
| Voice.ReadFrames | src/voice.rs:142-161 | The loop that splits frames off the buffer computes the recursive frame format, errors included. |
| Voice.ReadPayload | src/voice.rs:141-187 | Payload by kind, with the error of unknown kinds and of short buffers; which numbers and bytes these are is `Voice.KindOnWire`, `Voice.OpusToServer` and `Voice.FramesToServer`. |
| Voice.DecodeVoicePacket | src/voice.rs:129-199 | The imperative decoder returns what the wire layout says, and a packet that parses uses up the whole buffer. |
| Voice.WriteFrames | src/voice.rs:227-235 | The frame loop appends the recursive frame format, continuation bits included. |
| Voice.EncodeVoicePacket | src/voice.rs:201-248 | Appends exactly the byte form that the round trips and `Voice.KindWritten` are proved for. |
| Ocb.S2IsFieldDouble | src/crypt.rs:272-276 | Rotate and conditional xor compute doubling in the field of section 2 of RFC 7253, on all blocks. |
| Ocb.S2IsLinear | src/crypt.rs:272-276 | Doubling distributes over exclusive or. |
| Ocb.S2IsInvertible | src/crypt.rs:272-276 | Doubling has a two-sided inverse, so it is a bijection on 128-bit blocks. |
| Ocb.OffsetNeverZero | src/crypt.rs:184-192 | The offset of any block, a repeated double of the encrypted nonce, is never zero unless the encrypted nonce is. |
| Ocb.LastBlockBytes | src/crypt.rs:201-212 | Byte by byte: what both sides make of the partial last block and of its padding. |
| Ocb.DecryptUndoesEncrypt | src/crypt.rs:183-250 | From any offset and checksum and for every length, decryption returns the plain bytes and the same tag. |
| Ocb.EncryptUndoesDecrypt | src/crypt.rs:183-250 | The converse: encryption undoes decryption with the same tag, so the mode is a length-preserving bijection. |
| Ocb.ModeRoundTrip | src/crypt.rs:183-250 | Both directions for whole messages under one nonce, lengths 0 and multiples of 16 included. |
| Ocb.EncryptIsOcb | src/crypt.rs:183-215 | The loop computes OCB2 stated only with the block cipher, exclusive or and field doubling: block i under the (i+1)-fold double, the last block xored with the encryption of its length in bits under the offset, the tag over the xor of all plain blocks under the offset doubled and tripled. |
| Ocb.DecryptIsOcb | src/crypt.rs:219-250 | The decrypting loop stated in the same terms, for any pair of block functions. |
| Ocb.OffsetsDiffer | src/crypt.rs:184-184 | Different nonces start from different offsets. |
| Ocb.NonceBlockBytes | src/crypt.rs:184-184 | Byte i of the block encrypted first is digit i of the nonce, counting from the least significant. |
| Ocb.ModeIsOcb | src/crypt.rs:183-250 | Whole messages in both directions are OCB2 from the encryption of that block. |
| Ocb.LittleEndianDigits | src/crypt.rs:88-91 | Byte i of an announced nonce is its digit i. |
| Ocb.OcbEncrypt | src/crypt.rs:183-215 | The in-place loop leaves cipher text and returns a tag that are OCB2 of the old contents, from the encryption of the block that carries the nonce byte by byte. |
| Ocb.OcbDecrypt | src/crypt.rs:219-250 | The in-place loop leaves the plain text and returns the tag that OCB2 opens the old contents to, from the same block. |
| Crypt.CryptState.constructor | src/crypt.rs:40-64 | A new state: sending nonce 0, receiving nonce 2^127, zeroed history and counters. |
| Crypt.CryptState.Reset | src/crypt.rs:67-76 | Puts nonces, history and counters back to those of a new state. |
| Crypt.CryptState.SetDecryptNonce | src/crypt.rs:88-91 | For a nonce of 16 bytes only the receiving nonce changes, digit i to byte i, and one resync is counted; any other length is rejected and changes nothing. |
| Crypt.CryptState.Encrypt | src/crypt.rs:104-118 | Advances the sending nonce by one with wrap-around and returns low nonce byte, three tag bytes and cipher text. |
| Crypt.TagBytesAre | src/crypt.rs:104-118 | The tag travels as its three most significant bytes, in order. |
| Crypt.DatagramLayout | src/crypt.rs:104-118 | A datagram byte by byte: low byte of the nonce, top three bytes of the OCB2 tag, OCB2 cipher text. |
| Crypt.CryptState.RebuildNonce | src/crypt.rs:134-157 | The nonce the datagram must carry, or the refusal; the stored nonce moves only on acceptance. |
| Crypt.CryptState.Accepted | src/crypt.rs:168-177 | The commit after a right tag: slot, counters and time, with the nonce put back for a late datagram. |
| Crypt.CryptState.Decrypt | src/crypt.rs:121-180 | Result and new state for every buffer: nothing changes unless the tag is right, and then the state is committed even if parsing fails afterwards. |
| Crypt.DatagramFate | src/crypt.rs:121-180 | The fate of every datagram in bytes: too short, refused by its nonce byte, wrong in one of three tag bytes, or parsed; the receiver changes in the last case only. |
| CryptRuns.JudgeByDistance | src/crypt.rs:134-157 | The verdict depends only on the signed distance of the nonce bytes and one history slot: ahead is accepted, fewer than 30 behind is late or repeated, further behind is refused. |
| CryptRuns.StepKeepsInv | src/crypt.rs:121-180 | One datagram of any content keeps the invariant: accepted nonces are distinct, and those that may still come late are exactly recorded in their slots. |
| CryptRuns.FollowKeepsInv | src/crypt.rs:121-180 | The invariant after every sequence of datagrams from every starting state, with the receiver advancing at most 127 per datagram. |
| CryptRuns.AcceptedIsLogged | src/crypt.rs:128-177 | The 128-bit nonces accepted in a run are the unbounded ones of the log, wrapped. |
| CryptRuns.NoReplay | src/crypt.rs:128-177 | In every run of at most 2^120 datagrams, wrap-around included, no full nonce is accepted twice. |
| CryptRuns.HistoryIsLastWriter | src/crypt.rs:145-168 | Every slot holds the second byte of the last nonce accepted into it, or what it held at the start. |
| CryptRuns.RecentIsLastWriter | src/crypt.rs:145-168 | An accepted nonce that may still come late is the last writer of its slot. |
| CryptRuns.RepeatVerdict | src/crypt.rs:144-149 | When a datagram is refused as a repeat, its nonce was really accepted before if and only if the last writer of its slot lies fewer than 65536 nonces away; with no writer it was not. |
| CryptRuns.FirstPageNeverLate | src/crypt.rs:50-50 | After a reset, while nothing below the starting nonce has been accepted, every late nonce among the first 256 is refused as a repeat, whether it arrived or not. |
| CryptRuns.StepBalance | src/crypt.rs:132-177 | Every datagram, whatever its fate, keeps good plus lost minus the nonce constant modulo 2^32. |
| CryptRuns.RunBalance | src/crypt.rs:132-177 | Over every run good plus lost equals, modulo 2^32, how far the nonce has advanced. |
| CryptRuns.GoodCount | src/crypt.rs:169-169 | The good counter is the number of accepted datagrams. |
| CryptRuns.LateCount | src/crypt.rs:130-176 | The receiver stands at the highest nonce accepted, the late counter is the number of accepted nonces that did not exceed all before them, the last good time is that of the last acceptance, and no datagram counts as a resync. |
| CryptRuns.LossAccount | src/crypt.rs:132-177 | After every run from every state, lost has grown by the number of nonces passed over and not accepted, less the number accepted at or below the start, modulo 2^32; good by the number accepted. |
| CryptRuns.LossIsExact | src/crypt.rs:67-76 | If every accepted nonce is above the starting one, lost has grown by exactly the number of nonces passed over and not accepted, modulo 2^32, so it never goes below zero. |
| CryptRuns.LossIsExactIff | src/crypt.rs:132-177 | In every run of fewer than 2^32 datagrams lost counts exactly the nonces passed over if and only if no nonce at or below the start was accepted. |
| EndToEnd.SealedIsOpened | src/crypt.rs:104-180 | A sealed packet whose nonce the receiver rebuilds passes the tag test and parses to the packet sent. |
| EndToEnd.DeliverOne | src/crypt.rs:104-180 | The outcome for a packet k positions into the stream at a receiver j positions in, for all distances within half the byte range: the packet, a repeat, or late. |
| EndToEnd.StandsAtHighest | src/crypt.rs:134-175 | After any arrivals each at most 127 ahead of or 128 behind the highest before it, the receiver stands at the highest nonce that arrived. |
| EndToEnd.ReorderedDelivery | src/crypt.rs:104-180 | For every stream and every arrival pattern in that window, each arrival gives exactly the packet sent, is refused as late when 30 or more behind, or is refused as a repeat exactly when its slot says so; a packet accepted before is never accepted again. |
| EndToEnd.InOrderDelivery | src/crypt.rs:104-180 | Whatever is lost, if each delivered packet is at most 127 ahead of the last, every one decrypts to the packet sent and the receiver's nonce becomes its nonce. |
| EndToEnd.DeliveredIff | src/crypt.rs:104-180 | The fate of every arrival, for every receiver, every stream of every length and every pattern of loss, reordering and duplication in the window, in terms of arrival numbers: late when 30 or more behind; a repeat when behind and the last arrival of the same slot is a multiple of 65536 away or, if there is none, the slot held its page at the start; otherwise the packet sent. |
| EndToEnd.SlotHolds | src/crypt.rs:144-168 | After any arrivals in the window every slot holds the page of the last arrival in it that was not too late, accepted or refused. |
| EndToEnd.LogIsArrivals | src/crypt.rs:128-177 | The nonces accepted are exactly those of the packets of which some copy met that condition. |
| EndToEnd.DeliveredFromReset | src/crypt.rs:40-180 | The same from a new or reset receiver, for streams of every length and in terms of arrival numbers alone: with no arrival in its slot yet, a packet k that is behind is a repeat exactly when k / 256 is a multiple of 256. |
| EndToEnd.CopiesRepeat | src/crypt.rs:144-149 | If nothing comes too late, every further copy of a packet is refused as a repeat, by every receiver, in streams of every length. |
| EndToEnd.ExactlyOnceIff | src/crypt.rs:104-180 | Arrival by arrival, exactly-once delivery holds if and only if it is not a first copy that is behind and finds its page in its slot. |
| EndToEnd.ExactlyOnce | src/crypt.rs:104-180 | Corollary for streams of fewer than 65536 packets over a history that holds none of their pages: the first copy of each packet is delivered intact and every further copy is refused as a repeat, in any order if nothing comes too late. |
| EndToEnd.ShortFromReset | src/crypt.rs:40-180 | Corollary for streams of fewer than 65536 packets from a reset: the first copy of packet k is delivered if and only if k is ahead of all before it or at least 256; every other copy is refused as a repeat. |
| EndToEnd.OvertakenAfterReset | src/crypt.rs:50-145 | The concrete failure without a clean history: right after a reset packet 2 then packet 1 makes packet 1 a repeat although it never arrived. |
| EndToEnd.StaleSlot | src/crypt.rs:144-149 | The concrete failure in a long stream, for every receiver: packet 5, then only even packets up to 65542, then packet 65541, which never arrived before and is refused as a repeat of packet 5. |
| EndToEnd.StreamLoss | src/crypt.rs:132-177 | For every stream and every arrival pattern in the window, lost grows by exactly the packets up to the highest arrived that were not accepted, so it does not go below zero. |
| EndToEnd.LateBelowStart | src/crypt.rs:139-177 | The concrete failure of loss accounting: right after a reset one datagram from just below the starting nonce is good and sets lost to 2^32 - 1. |
| EndToEnd.SendAll | src/crypt.rs:104-118 | Encrypting a stream gives its datagrams under consecutive nonces from the sender's own, with wrap-around. |
| EndToEnd.ReceiveAll | src/crypt.rs:121-180 | Decrypting a sequence of datagrams on the object gives the state and the results of the run that the theorems are about. |
| EndToEnd.Exchange | src/crypt.rs:104-180 | The two objects together, with the same key and nonce: every arrival in the window meets the fate stated by `EndToEnd.DeliveredIff`, arrivals in order come out as sent, and the receiver ends at the highest nonce that arrived. |
| Relay.RelayedIsHeard | src/server/udp.rs:100-175 | Whatever the server relays, from a known address or from one whose owner it has just found, opens at every listener that expects the server's nonce, with the same sound, under the speaker's session, the position dropped only when asked. |
| Relay.SpokenIsHeard | src/server/udp.rs:60-175 | The whole way: a packet sealed by a client under the nonce the server expects, not shaped like a list ping, is relayed and comes out at the listener as that packet. |
| Relay.RecipientsHear | src/handler/voice_packet.rs:37-146 | Everybody the router picks for a relayed packet on the same state of the server, and whose own end expects the server's nonce, opens it as the speaker's sound; never the speaker except for loopback. |
| Relay.TalkGoesToRoomMates | src/handler/voice_packet.rs:37-53 | Plain talk goes to exactly the other clients listed in the speaker's channel; under the channel rules these are connected and in it, and outside Root they are all who are in it. Loopback goes to the speaker alone. |
| Ids.Pigeonhole | src/state.rs:486-507 | Probes of the wrapping counter that all hit ids in use number at most the ids in use. |
| Ids.Misses | src/state.rs:486-507 | The number of misses before the first free id, at most the ids in use. |
| Ids.GetFreeId | src/state.rs:486-507 | The loop returns the first free id from the counter on, as a number modulo 2^32, and the counter one past it, after at most one probe more than there are ids in use, whenever fewer than 2^32 are. |
| Server.AddClientKeepsIndex | src/state.rs:119-154 | A new client without an address keeps the address index exact. |
| Server.AddClientAdds | src/state.rs:119-154 | A new client gets an id nobody has, sits in Root, has no address and a receiver at its start; nothing else changes. |
| Server.SetSocketInverseIff | src/state.rs:187-194 | Taking an address keeps the index an exact inverse if and only if nobody else holds the address. |
| Server.ResetCryptKeepsIndex | src/state.rs:390-405 | Starting the cipher over gives up the address on both sides and lists the client as without one. |
| Server.FindClientKeepsIndex | src/state.rs:345-383 | A search for the owner of a datagram from an unowned address, over any order of clients, keeps the index exact. |
| Server.FindClientTouches | src/state.rs:345-383 | The search changes the nonce, history and counters of nobody but clients whose tag test the datagram passes. |
| Server.FindClientResult | src/state.rs:345-383 | The client found is the first in the order that can read the datagram and now has the address; if nobody is found, nobody could read it and no address changed. |
| Server.LeaveMembers | src/state.rs:228-258 | Leaving restores the membership rules when the leaver was still listed in the old channel; Root stays. |
| Server.JoinMembers | src/state.rs:260-311 | After joining an existing channel every client is a member of its own channel and of no other. |
| Server.JoinTemporary | src/state.rs:260-311 | After a join no temporary channel is left empty, the joined one included. |
| Server.JoinKeepsChannelsIff | src/state.rs:260-311 | A join keeps all channel rules if and only if the channel exists. |
| Server.JoinMoves | src/state.rs:260-311 | After joining an existing channel the client is in it and in no other; nobody else moves; the only channel that disappears is the one left, exactly if it was temporary and held nobody else. |
| Server.JoinMissing | src/state.rs:260-293 | Joining a channel that does not exist changes only the channel the client claims to be in. |
| Server.JoinKeepsRest | src/state.rs:260-311 | A join keeps names, permanence, listeners, addresses and counters. |
| Server.AddChannelKeeps | src/state.rs:156-172 | A channel with a free name under a free id keeps every rule except that it is still empty. |
| Server.AddChannelAdds | src/state.rs:156-172 | A new channel is empty, under an id no channel has, with the name and permanence asked for; nothing else changes. |
| Server.CreateKeepsChannels | src/handler/channel_state.rs:12-64 | Guarded creation followed by joining keeps all channel rules for every request. |
| Server.CreateMakes | src/handler/channel_state.rs:43-61 | A request that passes every guard makes one channel under a new id with that name, temporary, with the creator alone in it. |
| Server.IgnoredIff | src/handler/channel_state.rs:12-64 | A request changes nothing if and only if it names an id, lacks a parent or a name, is not for a temporary channel, has a name of more than 512 bytes, a missing parent or a name that is taken. |
| Server.DisconnectKeepsChannels | src/state.rs:407-481 | A disconnect keeps membership, names, Root and the rule against empty temporary channels. |
| Server.DisconnectKeepsIndex | src/state.rs:407-461 | A disconnect removes the client from all tables and its address from the index. |
| Server.DisconnectRemoves | src/state.rs:407-481 | After a disconnect no table and no channel refers to the client, everybody else and every other address is as before, and its channel disappears exactly if it was temporary and held nobody else. |
| Server.DisconnectKeepsRest | src/state.rs:407-481 | A disconnect keeps names, permanence and listeners of the channels that stay, and both id counters. |
| ServerRuns.HandlePacketKeepsIndex | src/server/udp.rs:52-171 | Every datagram from every address, known or not, readable or not, keeps the index exact. |
| ServerRuns.ReadableIsRelayedIff | src/server/udp.rs:60-171 | A datagram that its owner can read, or from an unknown address that the search finds a reader for, is relayed if and only if it does not look like a server-list ping; one that does changes nothing. |
| ServerRuns.PingIsAnswered | src/server/udp.rs:52-88 | A datagram shaped like a list ping is answered with its own timestamp, or malformed if that is truncated, and changes nothing. |
| ServerRuns.UnreadIsUnknown | src/server/udp.rs:52-171 | A datagram of at most one byte is malformed; one from an unknown address is of an unknown sender if and only if the search finds no reader. |
| ServerRuns.RefusedIff | src/server/udp.rs:103-148 | An unreadable datagram from a known address starts the cipher over if and only if it is short, has a wrong tag or does not parse, or is late after more than 100 late ones, or the last good packet is at least 6000 milliseconds old; the whole state in both cases. |
| Pings.SealedLooksLikePingIff | src/server/udp.rs:56-61 | A voice datagram looks like a list ping if and only if its packet takes eight bytes and the low byte of its nonce is below 32. |
| Pings.SwallowedAsPing | src/server/udp.rs:60-88 | From a known address: under every nonce with a low byte below 32 that the server expects of the owner, five bytes of Opus make a datagram the owner can read that is taken for a ping. |
| Pings.FirstPacketSwallowed | src/server/udp.rs:60-150 | A run of one connection: from an unknown address the first voice packet of a client, which the search would find, is taken for a ping, so the address stays unknown. |
| Pings.SecondPacketSwallowed | src/server/udp.rs:60-112 | A run of two operations: from the address that the first packet made known, the second is taken for a ping. |
| ServerRuns.HandlePacketKeepsChannels | src/server/udp.rs:52-171 | No datagram changes channels or anybody's place in them. |
| ServerRuns.ApplyKeepsIndex | src/state.rs:119-461 | Every operation of connected clients keeps the address index, joins of missing channels included. |
| ServerRuns.ApplyKeepsChannelsIff | src/state.rs:156-481 | An operation breaks the channel rules if and only if it joins a channel that does not exist. |
| ServerRuns.RunsKeepIndex | src/state.rs:119-461 | In every state of every run clients by address is the exact inverse of the clients' addresses, and clients without UDP are exactly the connected ones with no address. |
| ServerRuns.RunsKeepInv | src/state.rs:119-481 | In every state of every run whose joins name existing channels: members of a channel are its clients only, clients outside Root are members of an existing channel, Root stays, names are distinct, temporary channels have members. |
| ServerRuns.RunsShareNothing | src/state.rs:119-481 | So no two clients ever share an address and every temporary channel has a connected member. |
| ServerRuns.ResyncKeepsIndex | src/handler/crypt_setup.rs:9-16 | A nonce announced by the peer, of whatever length, changes nothing in the index. |
| ServerRuns.ResetStartsOver | src/state.rs:390-405 | Starting over puts the receiver at its start, gives up the address and lists the client as without one; nothing else changes. |
| ServerRuns.ResyncChanges | src/handler/crypt_setup.rs:9-16 | An announced nonce of 16 bytes changes one client's receiving nonce, digit by byte, and its resync count; any other length nothing. |
| ServerRuns.ListenChanges | src/handler/user_state.rs:26-39 | Listening changes one client's entry in one existing channel and no membership. |
| ServerRuns.ListenKeepsChannels | src/handler/user_state.rs:26-39 | Starting or stopping to listen to a channel keeps the channel rules. |
| ServerState.Client.JoinChannel | src/client.rs:461-471 | Stores the channel and reports the one left unless it is the same. |
| ServerState.ServerState.constructor | src/state.rs:86-117 | A server with no clients and a permanent Root channel. |
| ServerState.ServerState.AddClient | src/state.rs:119-154 | The whole new state: a fresh client under a free id, in Root, without an address. |
| ServerState.ServerState.SetClientSocket | src/state.rs:187-194 | The whole new state: the old address given up, the new one entered unless taken. |
| ServerState.ServerState.HandleClientLeftChannel | src/state.rs:228-258 | The whole new state and the channel reported as deleted, for channels that exist or not. |
| ServerState.ServerState.SetClientChannel | src/state.rs:260-311 | The whole new state on success and on a missing channel, and which of the two happened. |
| ServerState.ServerState.TryClient | src/state.rs:357-361 | One trial decryption changes one client's cipher state and nothing else. |
| ServerState.ServerState.FindClientWithDecrypt | src/state.rs:345-383 | The loop computes the search over some order that lists each connected client without UDP at most once, and all of them when nobody is found. |
| ServerState.ServerState.ResetClientCrypt | src/state.rs:390-405 | The whole new state: cipher state fresh, address given up, client listed as without UDP. |
| ServerState.ServerState.Disconnect | src/state.rs:407-471 | The whole new state; disconnecting an unknown session changes nothing. |
| ServerState.ServerState.GetFreeSessionId | src/state.rs:486-494 | A session id not in use and the advanced counter. |
| ServerState.ServerState.GetFreeChannelId | src/state.rs:499-507 | A channel id not in use and the advanced counter. |
| ServerState.ServerState.AddChannel | src/state.rs:156-172 | The whole new state: an empty channel under a free id. |
| ServerState.ServerState.HandleChannelState | src/handler/channel_state.rs:12-64 | The whole new state for every request: created and joined if all guards pass, unchanged otherwise. |
| ServerState.ServerState.HandleKnown | src/server/udp.rs:103-148 | Decryption for a known address, and exactly when an unreadable datagram starts the cipher over, in the numbers of `ServerRuns.RefusedIff`. |
| ServerState.ServerState.HandlePacket | src/server/udp.rs:52-171 | The whole new state and what is done with the datagram, in terms of the search order actually used. |
| CounterRace.StepTotal | src/state.rs:142-144 | Only counting and uncounting change the total of clients present, being added and being removed. |
| CounterRace.StepConserves | src/state.rs:407-429 | Every step of every task keeps the counter equal to that total. |
| CounterRace.NoUnderflow | src/state.rs:410-429 | Whoever is about to subtract is still counted, so the counter does not go below zero. |
| CounterRace.StepKeepsApart | src/state.rs:407-429 | No client instance is in two places, and none is subtracted twice, step by step. |
| CounterRace.RunsConserve | src/state.rs:407-429 | Both over every interleaving of any number of additions and disconnects. |
| CounterRace.ExactIffNoSlip | src/state.rs:142-429 | Over every interleaving of fewer than 2^32 steps the counter is clients present plus counted but not inserted plus removed but not yet subtracted, if and only if no step took one of two branches: an insertion under an id that is taken, or a removal by a task that had not found the client. |
| CounterRace.DisciplinedRunsAreExact | src/state.rs:142-429 | Ids not reused and disconnects issued after insertion are enough for that equality in every state. |
| CounterRace.EarlyDisconnectLeaks | src/state.rs:142-422 | Without that order there is an interleaving that ends with nobody connected and the counter at one. |
| Routing.WhisperIsReached | src/anticheat.rs:671-692 | The recipients of a whisper to any slot are among those the sampler counts as reached. |
| Routing.ReachedIsExact | src/anticheat.rs:671-692 | The reached set is exactly the recipients over all slots plus targeted sessions that are not connected. |
| Routing.ReachedIff | src/anticheat.rs:671-692 | Who is reached, slot by slot: everybody else who is a target session, or in or listening to a target channel. |
| Routing.RecipientIff | src/handler/voice_packet.rs:37-112 | The recipients target by target: the others in the speaker's channel for 0, those a slot addresses for 1 to 30, the speaker for 31, nobody above. |
| Routing.CollectWhisper | src/handler/voice_packet.rs:55-99 | The nested loops gather the connected target sessions and everybody in or listening to an existing target channel. |
| Routing.Recipients | src/handler/voice_packet.rs:37-112 | The recipients of `Routing.RecipientIff` for every target byte; never the speaker, except for loopback. |
| Routing.Deliver | src/handler/voice_packet.rs:114-146 | Each recipient that still exists and is not deaf is sent the packet exactly once, and the count is right. |
| Routing.RouteWhisper | src/handler/voice_packet.rs:54-146 | A whisper is sent exactly once to each other client that its slot addresses by session or channel, that exists and is not deaf, and to nobody else; all are in the reached set, so the recipients counted never exceed the reach sampled. |
| Routing.RouteTalk | src/handler/voice_packet.rs:37-146 | Plain talk is sent exactly once to each other member of the speaker's channel that exists and is not deaf, and to nobody else; listeners from outside do not hear it. |
| Sampler.Targets | src/anticheat.rs:610-622 | The loops over a client's slots gather all targeted sessions and channels. |
| Sampler.MembersByChannel | src/anticheat.rs:574-595 | The table lists exactly clients and listeners of each channel, and each session's number of listened channels. |
| Sampler.Reach | src/anticheat.rs:671-692 | The loops compute the reached set, and its part reached through channels. |
| Sampler.Mutuality | src/anticheat.rs:702-718 | The percentage of reached players that target back by session or channel, at most 100; 255 if nobody is reached. |
| Strikes.CounterBoundsSuffixes | src/anticheat.rs:777-803 | No suffix of the sample history has more suspicious minus clean samples than the counter. |
| Strikes.CounterIsMaxSuffix | src/anticheat.rs:777-803 | The counter is the maximum over all suffixes, the empty one included, of suspicious minus clean samples. |
| Strikes.FlagsIff | src/anticheat.rs:777-803 | A flag is raised if and only if the sample is suspicious and some suffix ending there reaches the requirement. |
| Strikes.PersistentIsFlagged | src/anticheat.rs:777-803 | As many suspicious samples in a row as required raise a flag whatever came before. |
| Window.KeysDiffer | src/anticheat.rs:152-157 | Different targets, channel or session, never share a key. |
| Window.KeysIff | src/anticheat.rs:152-157 | The keys in numbers: a channel's is its id, a session's its id with bit 40 set. |
| Window.NamedIff | src/handler/voice_target.rs:43-55 | What is registered is exactly the sessions and channels that the items name. |
| Window.AddItem | src/handler/voice_target.rs:43-55 | One item adds its sessions and its channel to the slot and their keys in order. |
| Window.HandleVoiceTarget | src/handler/voice_target.rs:10-60 | Ids 1 to 30 replace exactly that slot, by the sessions and channels that the items name, and return their keys; any other id changes nothing. |
| Window.WindowAgrees | src/anticheat.rs:394-405 | After any events, with any window lengths, the pruned map holds a target exactly when the full log saw it and no event since found it older than the window then in force, with its last time. |
| Window.OutlivedIff | src/anticheat.rs:404-404 | With a fixed window and a monotone clock that is the same as being too old now: pruning early loses nothing. |
| Window.WindowCountsCurrent | src/anticheat.rs:695-699 | The size of the map is the number of distinct channels and sessions that have not outlived the window. |
| Window.WindowCountsDistinct | src/anticheat.rs:695-699 | With a fixed window and a monotone clock it is the number of distinct channels and sessions registered within the window. |
| Detector.Watch.RecordTargets | src/anticheat.rs:394-405 | The stamping loop and the pruning keep the map equal to what the whole log of registrations and samples leaves; while the anticheat is off nothing is logged. |
| Detector.Watch.CountRecent | src/anticheat.rs:695-699 | Counts the distinct targets that have not outlived the window over everything ever registered; with a fixed window and a monotone clock, those registered within it. |
| Detector.Watch.Strike | src/anticheat.rs:777-803 | The counter stays equal to the specification on the whole history, and the flag is the one characterised by `Strikes.FlagsIff`. |
| Detector.Watch.SampleClient | src/anticheat.rs:667-803 | One client's sample: one verdict appended, the one of `Detector.VerdictIff` on the distinct current targets, and the flag of `Detector.SampleFlagsIff`. |
| Detector.SampleEach | src/anticheat.rs:667-804 | The loop over the snapshot does this for every client once, each from its own record, and touches nobody else. |
| Detector.SampleAll | src/anticheat.rs:567-805 | The whole round, tables included; nothing happens while the anticheat is off. |
| Detector.VerdictIff | src/anticheat.rs:667-777 | When a sample is suspicious, in sets and numbers: bad positions; more channels listened to than allowed; or enough players reached, in number and percent, of whom less than the allowed percentage plus one name the client back. |
| Detector.Described | src/anticheat.rs:667-718 | The sets in that statement exist for every client, so it applies to every sample. |
| Detector.CrowdIsNotSuspicious | src/anticheat.rs:764-777 | Who is named back by all it reaches is never suspicious for talk, while the limit is below 100 percent. |
| Detector.SampleFlagsIff | src/anticheat.rs:777-803 | A sample flags if and only if it is suspicious and some stretch ending with it has as many more suspicious than clean samples as strikes required. |
| Detector.WideTalkIsSuspicious | src/anticheat.rs:764-777 | Whoever the router lets whisper through one slot to enough players, in number and percent, of whom too few name it back, gets a suspicious sample. |
| Detector.ChunkedTalkIsSuspicious | src/anticheat.rs:694-700 | Whoever has registered enough distinct targets within the window, however spread over time, with low mutuality, gets a suspicious sample; the log is the one that `Detector.Watch` keeps. |
| Detector.PersistentTalkerIsFlagged | src/anticheat.rs:777-797 | A client that can talk wide in each of the last samples, through whatever slot each time, is flagged once there are as many as strikes required. |
| Heard.FindOldest | src/anticheat.rs:429-429 | The loop finds an entry no other is older than. |
| Heard.HeardList.NoteHeard | src/anticheat.rs:420-450 | The speaker is in the list with this time and session and one more second counted, entries that stay are unchanged, the list stays what its whole history leaves, and it has at most 256 names, the most recently heard ones. |
| Heard.Upsert | src/anticheat.rs:424-449 | The whole new list: expired entries purged only when full, one of the oldest evicted only if that was not enough, the speaker's entry updated. |
| Heard.HeardList.Expire | src/http/anticheat.rs:361-363 | A name stays exactly if it was heard within the retention time, with its entry unchanged, and those that stay are still the most recently heard ones. |
| Heard.HeardList.Clear | src/http/anticheat.rs:392-392 | The list is emptied and the clearing is part of its history. |
| Heard.BookHoldsMostRecent | src/anticheat.rs:420-450 | After every sequence of hearings, expiries, evictions and clearings under a monotone clock the list has at most 256 names, each with its last time and session, and nobody forgotten was heard later than somebody kept. |
| Heard.NobodyForgottenEarly | src/anticheat.rs:420-450 | A name heard since the last clearing is in the list, unless it has outlived the retention time in force at some event or at least 256 other names were heard as recently. |
| Calendar.CountsBack | src/anticheat.rs:178-189 | For every day count that does not overflow, all intermediate values fit their types, month and day are valid, and summing the days of that date gives the count back. |
| Calendar.CountIsMonotone | src/anticheat.rs:178-189 | The sum of days orders dates as the calendar does, so distinct dates have distinct counts. |
| Calendar.CivilInvertsCount | src/anticheat.rs:178-189 | For every Gregorian date in range, the conversion of its day count is that date. |
| Calendar.ConsecutiveDays | src/anticheat.rs:178-189 | Day 0 is 1970-01-01 and consecutive counts give consecutive dates, leap years included, before 1970 as well. |

## Left out

- AES, random keys and constant-time comparison: a pair of functions, an unspecified cipher and plain equality.
- The byte order of the nonce block is that of a little-endian machine.
- TLS, TCP and UDP sockets, asynchronous tasks, timeouts, message channels, metrics, logging and the contents of broadcasts.
- The protobuf messages: only the fields that a modelled handler reads.
- The HTTP interface, the panel, Discord messages and JSON files, except the expiry and the clearing of a heard list.
- Position tracking and the speed and distance checks of the sampler: floating point; their outcome is one boolean of a sample.
- The body of the flagging routine (cooldown, score, mute, kick or ban): what is proved is when it is called.
- The timers that disconnect idle clients: their effects are the disconnect and reset operations.
- Ban matching, parsing of action names and message kinds: finite case lists.
- Loading a saved heard list: it does not apply the cap of 256, so runs start from an empty list. The comment at src/http/anticheat.rs:347 says 64 speakers; the code caps at 256.
- Concurrency other than the client counter: operations on the tables run one after the other, and one sampling round sees one moment although the program reads channels and clients one after the other.
- Shared ownership: weak references are session ids, so a client that was removed while a task still holds it is not found by its address. Operations on a client that has already been disconnected are not modelled.
- Listening to a channel and announcing a nonce are steps of the abstract state only, without a method of `ServerState`.
- Listeners are not removed on disconnect, so nothing is claimed about who they are.
- The sending nonces of clients are not part of the abstract server state; `Crypt.CryptState` has them.
- Claims about nonces across a reset or an announced nonce: every run property is stated between such calls.
- Crypt.CryptState.SetDecryptNonce: the program panics on a nonce whose length is not 16 bytes; the model rejects it and leaves the state as it was.
- Crypt.CryptState.Decrypt: counters wrap as in a build without overflow checks, where a debug build would stop; the buffer is a value, so what is left in it after an error is not stated.
- Voice.DecodeVoicePacket: what is left in the buffer after an error is not stated.
- Ids.GetFreeId: with all 2^32 ids in use the program loops forever; the contract asks for one free id.
- Detector.Watch.Strike: strikes are unbounded, so the wrap of the 32-bit counter after 2^32 suspicious samples is not modelled.
- Heard.HeardList.NoteHeard: the display name and address stored beside the session are left out; they are refreshed with it.
- Calendar.CountsBack: day counts within 719468 of the largest 64-bit value are excluded, because the first addition overflows there.
