/** Voice packets and their byte form. */
module Voice {
  import opened Words
  import opened Wrappers
  import Varint

  datatype Direction = ServerBound | ClientBound

  /** Packets towards a client name the speaker; packets towards the server do not. */
  datatype Session = NoSession | SessionId(id: u32)

  datatype Payload =
    | CeltAlpha(frames: seq<seq<byte>>)
    | Speex(frames: seq<seq<byte>>)
    | CeltBeta(frames: seq<seq<byte>>)
    | Opus(frame: seq<byte>, terminator: bool)

  datatype VoicePacket =
    | Ping(timestamp: u64)
    | Audio(target: byte, session: Session, seqNum: u64, payload: Payload, position: Option<seq<byte>>)

  predicate Travels(p: VoicePacket, dir: Direction) {
    p.Audio? ==> (p.session.SessionId? <==> dir.ClientBound?)
  }

  // ----- Decoding -----

  datatype Parsed<T> = Failed(error: DecryptError) | Parsed(value: T, rest: seq<byte>)

  function DecodeSession(dir: Direction, s: seq<byte>): Parsed<Session> {
    match dir
    case ServerBound => Parsed(NoSession, s)
    case ClientBound =>
      match Varint.Decode(s)
      case Truncated => Failed(Io)
      case Read(v, rest) => Parsed(SessionId(v % 0x1_0000_0000), rest)
  }

  /** Length-prefixed frames; the top bit of a length byte says that another frame follows. */
  function DecodeFrames(s: seq<byte>): (r: Parsed<seq<seq<byte>>>) {
    if s == [] then Failed(Eof)
    else
      var len := s[0] % 0x80;
      if |s| - 1 < len then Failed(Eof)
      else if s[0] < 0x80 then Parsed([s[1..1 + len]], s[1 + len..])
      else Prepend([s[1..1 + len]], DecodeFrames(s[1 + len..]))
  }

  function Prepend(fs: seq<seq<byte>>, r: Parsed<seq<seq<byte>>>): Parsed<seq<seq<byte>>> {
    match r
    case Failed(e) => Failed(e)
    case Parsed(gs, rest) => Parsed(fs + gs, rest)
  }

  /** Bit 13 of the length word is the end-of-transmission mark. */
  predicate Terminates(header: nat) {
    header / 0x2000 % 2 == 1
  }

  function DecodeOpus(s: seq<byte>): Parsed<Payload> {
    match Varint.Decode(s)
    case Truncated => Failed(Io)
    case Read(header, rest) =>
      var len := if Terminates(header) then header - 0x2000 else header;
      if |rest| < len then Failed(Eof) else Parsed(Opus(rest[..len], Terminates(header)), rest[len..])
  }

  function DecodePayload(kind: nat, s: seq<byte>): Parsed<Payload> {
    if kind == 4 then DecodeOpus(s)
    else if kind == 0 || kind == 2 || kind == 3 then
      match DecodeFrames(s)
      case Failed(e) => Failed(e)
      case Parsed(fs, rest) =>
        Parsed(if kind == 0 then CeltAlpha(fs) else if kind == 2 then Speex(fs) else CeltBeta(fs), rest)
    else Failed(Io)
  }

  function DecodeAudio(dir: Direction, header: byte, s: seq<byte>): Result<VoicePacket> {
    match DecodeSession(dir, s)
    case Failed(e) => Err(e)
    case Parsed(session, s1) =>
      match Varint.Decode(s1)
      case Truncated => Err(Io)
      case Read(seqNum, s2) =>
        match DecodePayload(header / 0x20, s2)
        case Failed(e) => Err(e)
        case Parsed(payload, rest) =>
          Ok(Audio(header % 0x20, session, seqNum, payload, if rest == [] then None else Some(rest)))
  }

  function Decode(dir: Direction, s: seq<byte>): Result<VoicePacket> {
    if s == [] then Err(Io)
    else if s[0] / 0x20 == 1 then
      match Varint.Decode(s[1..])
      case Truncated => Err(Io)
      case Read(timestamp, _) => Ok(Ping(timestamp))
    else DecodeAudio(dir, s[0], s[1..])
  }

  // ----- Encoding -----

  function Kind(p: Payload): (k: nat)
    ensures k < 8 && k != 1
  {
    match p
    case CeltAlpha(_) => 0
    case Speex(_) => 2
    case CeltBeta(_) => 3
    case Opus(_, _) => 4
  }

  /** `continuation | (len as u8)`. */
  function FrameHeader(len: nat, more: bool): byte {
    var low := len % 0x100;
    if more && low < 0x80 then low + 0x80 else low
  }

  function EncodeFrames(fs: seq<seq<byte>>): seq<byte> {
    if fs == [] then []
    else [FrameHeader(|fs[0]|, |fs| > 1)] + fs[0] + EncodeFrames(fs[1..])
  }

  /** `term_bit | (len as u64)`. */
  function OpusHeader(len: nat, terminator: bool): u64 {
    var word := len % 0x1_0000_0000_0000_0000;
    if terminator && !Terminates(word) then word + 0x2000 else word
  }

  function EncodePayload(p: Payload): seq<byte> {
    match p
    case Opus(frame, terminator) => Varint.Encode(OpusHeader(|frame|, terminator)) + frame
    case _ => EncodeFrames(p.frames)
  }

  function EncodeSession(session: Session): seq<byte> {
    match session
    case NoSession => []
    case SessionId(id) => Varint.Encode(id)
  }

  function Encode(p: VoicePacket): seq<byte> {
    match p
    case Ping(timestamp) => [0x20] + Varint.Encode(timestamp)
    case Audio(target, session, seqNum, payload, position) =>
      [Kind(payload) * 0x20 + target % 0x20] + EncodeSession(session) + Varint.Encode(seqNum) +
      EncodePayload(payload) + (if position.Some? then position.value else [])
  }

  // ----- Which packets the byte form can carry -----

  predicate EncodablePayload(p: Payload) {
    match p
    case Opus(frame, _) => |frame| < 0x1_0000_0000_0000_0000 && !Terminates(|frame|)
    case _ => p.frames != [] && forall i :: 0 <= i < |p.frames| ==> |p.frames[i]| < 0x80
  }

  predicate Encodable(p: VoicePacket) {
    p.Audio? ==> p.target < 0x20 && EncodablePayload(p.payload) && p.position != Some([])
  }

  // ----- Round trip -----

  lemma {:induction false} DecodeFrame(h: byte, frame: seq<byte>, tail: seq<byte>)
    requires |frame| == h % 0x80
    ensures DecodeFrames([h] + frame + tail) ==
      if h < 0x80 then Parsed([frame], tail) else Prepend([frame], DecodeFrames(tail))
  {
    var s := [h] + frame + tail;
    assert s[1..1 + |frame|] == frame && s[1 + |frame|..] == tail;
  }

  lemma {:induction false} FramesRoundTrip(fs: seq<seq<byte>>, suffix: seq<byte>)
    requires fs != [] && forall i :: 0 <= i < |fs| ==> |fs[i]| < 0x80
    ensures DecodeFrames(EncodeFrames(fs) + suffix) == Parsed(fs, suffix)
  {
    var h := FrameHeader(|fs[0]|, |fs| > 1);
    var tail := EncodeFrames(fs[1..]) + suffix;
    Assoc([h] + fs[0], EncodeFrames(fs[1..]), suffix);
    DecodeFrame(h, fs[0], tail);
    if |fs| > 1 {
      FramesRoundTrip(fs[1..], suffix);
      assert [fs[0]] + fs[1..] == fs;
    } else {
      assert tail == suffix && fs == [fs[0]];
    }
  }

  lemma {:induction false} OpusHeaderBits(len: nat, terminator: bool)
    requires len < 0x1_0000_0000_0000_0000 && !Terminates(len)
    ensures var h := OpusHeader(len, terminator);
      Terminates(h) == terminator && len == if terminator then h - 0x2000 else h
  {
  }

  lemma {:induction false} OpusRoundTrip(frame: seq<byte>, terminator: bool, suffix: seq<byte>)
    requires EncodablePayload(Opus(frame, terminator))
    ensures DecodeOpus(EncodePayload(Opus(frame, terminator)) + suffix) == Parsed(Opus(frame, terminator), suffix)
  {
    hide Varint.Decode, Varint.Encode;
    OpusHeaderBits(|frame|, terminator);
    hide OpusHeader, Terminates;
    var h := OpusHeader(|frame|, terminator);
    Varint.RoundTrip(h, frame + suffix);
    Assoc(Varint.Encode(h), frame, suffix);
    assert (frame + suffix)[..|frame|] == frame && (frame + suffix)[|frame|..] == suffix;
  }

  lemma {:induction false} PayloadRoundTrip(p: Payload, suffix: seq<byte>)
    requires EncodablePayload(p)
    ensures DecodePayload(Kind(p), EncodePayload(p) + suffix) == Parsed(p, suffix)
  {
    match p
    case Opus(frame, terminator) => OpusRoundTrip(frame, terminator, suffix);
    case _ => FramesRoundTrip(p.frames, suffix);
  }

  lemma {:induction false} SessionRoundTrip(session: Session, dir: Direction, suffix: seq<byte>)
    requires session.SessionId? <==> dir.ClientBound?
    ensures DecodeSession(dir, EncodeSession(session) + suffix) == Parsed(session, suffix)
  {
    hide Varint.Decode, Varint.Encode;
    match session
    case NoSession => assert EncodeSession(session) + suffix == suffix;
    case SessionId(id) => Varint.RoundTrip(id, suffix);
  }

  lemma {:induction false} AudioRoundTrip(p: VoicePacket, dir: Direction)
    requires p.Audio? && Travels(p, dir) && Encodable(p)
    ensures Decode(dir, Encode(p)) == Ok(p)
  {
    hide Varint.Decode, Varint.Encode, EncodeSession, DecodeSession, EncodePayload, DecodePayload, Kind, EncodablePayload;
    var header := Kind(p.payload) * 0x20 + p.target % 0x20;
    var s4 := if p.position.Some? then p.position.value else [];
    var s3 := EncodePayload(p.payload) + s4;
    var s2 := Varint.Encode(p.seqNum) + s3;
    var s1 := EncodeSession(p.session) + s2;
    SessionRoundTrip(p.session, dir, s2);
    Varint.RoundTrip(p.seqNum, s3);
    PayloadRoundTrip(p.payload, s4);
    Flatten([header], EncodeSession(p.session), Varint.Encode(p.seqNum), EncodePayload(p.payload), s4);
    assert ([header] + s1)[1..] == s1;
  }

  lemma {:induction false} Flatten(a: seq<byte>, b: seq<byte>, c: seq<byte>, d: seq<byte>, e: seq<byte>)
    ensures a + b + c + d + e == a + (b + (c + (d + e)))
  {
    Assoc(a + b + c, d, e);
    Assoc(a + b, c, d + e);
    Assoc(a, b, c + (d + e));
  }

  lemma {:induction false} RoundTrip(p: VoicePacket, dir: Direction)
    requires Travels(p, dir) && Encodable(p)
    ensures Decode(dir, Encode(p)) == Ok(p)
  {
    hide Varint.Decode, Varint.Encode;
    match p
    case Ping(timestamp) =>
      Varint.RoundTrip(timestamp, []);
      assert Encode(p)[1..] == Varint.Encode(timestamp) + [];
    case Audio(_, _, _, _, _) => AudioRoundTrip(p, dir);
  }

  // ----- What decoding can yield -----

  lemma {:induction false} DecodedFrames(s: seq<byte>)
    ensures var r := DecodeFrames(s);
      r.Parsed? ==> r.value != [] && forall i :: 0 <= i < |r.value| ==> |r.value[i]| < 0x80
  {
    if s != [] && |s| - 1 >= s[0] % 0x80 && s[0] >= 0x80 {
      DecodedFrames(s[1 + s[0] % 0x80..]);
    }
  }

  lemma {:induction false} DecodedPayload(kind: nat, s: seq<byte>)
    ensures DecodePayload(kind, s).Parsed? ==> EncodablePayload(DecodePayload(kind, s).value)
  {
    hide Varint.Decode, DecodeFrames;
    DecodedFrames(s);
  }

  lemma {:induction false} DecodedIsEncodable(dir: Direction, s: seq<byte>)
    requires Decode(dir, s).Ok?
    ensures Encodable(Decode(dir, s).value) && Travels(Decode(dir, s).value, dir)
  {
    hide Varint.Decode, DecodePayload, EncodablePayload;
    if s[0] / 0x20 != 1 {
      var s1 := DecodeSession(dir, s[1..]).rest;
      DecodedPayload(s[0] / 0x20, Varint.Decode(s1).rest);
    }
  }

  /** The byte form gives a packet back exactly when it can carry that packet. */
  lemma {:induction false} RoundTripIff(p: VoicePacket, dir: Direction)
    requires Travels(p, dir)
    ensures Decode(dir, Encode(p)) == Ok(p) <==> Encodable(p)
  {
    hide Decode, Encode;
    if Encodable(p) {
      RoundTrip(p, dir);
    }
    if Decode(dir, Encode(p)) == Ok(p) {
      DecodedIsEncodable(dir, Encode(p));
    }
  }

  // ----- Relaying -----

  /** Parsing fails in two ways only. */
  lemma {:induction false} ParseErrors(dir: Direction, s: seq<byte>)
    ensures Decode(dir, s).Err? ==> Decode(dir, s).error == Io || Decode(dir, s).error == Eof
  {
    hide DecodeFrames, Varint.Decode;
    SessionFailure(dir, s);
    FrameErrors();
  }

  lemma {:induction false} FrameErrors()
    ensures forall s :: DecodeFrames(s).Failed? ==> DecodeFrames(s).error == Eof
  {
    forall s
      ensures DecodeFrames(s).Failed? ==> DecodeFrames(s).error == Eof
    {
      FrameError(s);
    }
  }

  lemma {:induction false} FrameError(s: seq<byte>)
    ensures DecodeFrames(s).Failed? ==> DecodeFrames(s).error == Eof
  {
    if s != [] && |s| - 1 >= s[0] % 0x80 && s[0] >= 0x80 {
      FrameError(s[1 + s[0] % 0x80..]);
    }
  }

  // ----- The wire layout -----

  /** The codec number in the top three bits of the first byte, for every string that decodes. */
  lemma {:induction false} KindOnWire(dir: Direction, s: seq<byte>)
    requires Decode(dir, s).Ok?
    ensures s != []
    ensures var p := Decode(dir, s).value;
      && (p.Ping? <==> s[0] / 0x20 == 1)
      && (p.Audio? ==>
            && p.target == s[0] % 0x20
            && (p.payload.CeltAlpha? <==> s[0] / 0x20 == 0)
            && (p.payload.Speex? <==> s[0] / 0x20 == 2)
            && (p.payload.CeltBeta? <==> s[0] / 0x20 == 3)
            && (p.payload.Opus? <==> s[0] / 0x20 == 4))
  {
    hide DecodeFrames, DecodeSession, Varint.Decode;
  }

  /** The same for every packet written. */
  lemma {:induction false} KindWritten(p: VoicePacket)
    ensures Encode(p) != []
    ensures var b := Encode(p)[0];
      && (p.Ping? ==> b == 0x20)
      && (p.Audio? ==>
            && b % 0x20 == p.target % 0x20
            && (p.payload.CeltAlpha? <==> b / 0x20 == 0)
            && (p.payload.Speex? <==> b / 0x20 == 2)
            && (p.payload.CeltBeta? <==> b / 0x20 == 3)
            && (p.payload.Opus? <==> b / 0x20 == 4))
  {
    hide EncodeFrames, Varint.Encode, EncodeSession, EncodePayload;
  }

  lemma {:induction false} SplitFrame(f: seq<byte>, pos: seq<byte>)
    ensures |f + pos| >= |f| && (f + pos)[..|f|] == f && (f + pos)[|f|..] == pos
  {
  }

  /** An Opus payload: its length as a varint, with 0x2000 added at the end of a transmission, and the frame. */
  lemma {:induction false} OpusBytes(f: seq<byte>, terminator: bool, pos: seq<byte>)
    requires |f| < 0x1_0000_0000_0000_0000 && |f| / 0x2000 % 2 == 0
    ensures var header := |f| + if terminator then 0x2000 else 0;
      && header < 0x1_0000_0000_0000_0000
      && DecodeOpus(Varint.Encode(header) + (f + pos)) == Parsed(Opus(f, terminator), pos)
  {
    hide Varint.Decode, Varint.Encode;
    var header := |f| + if terminator then 0x2000 else 0;
    assert header < 0x1_0000_0000_0000_0000;
    Varint.RoundTrip(header, f + pos);
    SplitFrame(f, pos);
  }

  function Position(pos: seq<byte>): Option<seq<byte>> {
    if pos == [] then None else Some(pos)
  }

  /** Opus on the wire, towards the server: header byte, sequence number, length, frame, position. */
  lemma {:induction false} OpusToServer(t: byte, q: u64, f: seq<byte>, terminator: bool, pos: seq<byte>)
    requires t < 0x20 && |f| < 0x1_0000_0000_0000_0000 && |f| / 0x2000 % 2 == 0
    ensures var header := |f| + if terminator then 0x2000 else 0;
      && header < 0x1_0000_0000_0000_0000
      && Decode(ServerBound, [0x80 + t] + (Varint.Encode(q) + (Varint.Encode(header) + (f + pos)))) ==
         Ok(Audio(t, NoSession, q, Opus(f, terminator), Position(pos)))
  {
    hide Varint.Decode, Varint.Encode, DecodeOpus;
    OpusBytes(f, terminator, pos);
    var body := Varint.Encode(|f| + if terminator then 0x2000 else 0) + (f + pos);
    Varint.RoundTrip(q, body);
    assert ([0x80 + t] + (Varint.Encode(q) + body))[1..] == Varint.Encode(q) + body;
  }

  /** And towards a client: the session of the speaker stands before the sequence number. */
  lemma {:induction false} OpusToClient(t: byte, id: u32, q: u64, f: seq<byte>, terminator: bool, pos: seq<byte>)
    requires t < 0x20 && |f| < 0x1_0000_0000_0000_0000 && |f| / 0x2000 % 2 == 0
    ensures var header := |f| + if terminator then 0x2000 else 0;
      && header < 0x1_0000_0000_0000_0000
      && Decode(ClientBound,
                [0x80 + t] + (Varint.Encode(id) + (Varint.Encode(q) + (Varint.Encode(header) + (f + pos))))) ==
         Ok(Audio(t, SessionId(id), q, Opus(f, terminator), Position(pos)))
  {
    hide Varint.Decode, Varint.Encode, DecodeOpus;
    OpusBytes(f, terminator, pos);
    var body := Varint.Encode(|f| + if terminator then 0x2000 else 0) + (f + pos);
    Varint.RoundTrip(q, body);
    Varint.RoundTrip(id, Varint.Encode(q) + body);
    assert ([0x80 + t] + (Varint.Encode(id) + (Varint.Encode(q) + body)))[1..] ==
           Varint.Encode(id) + (Varint.Encode(q) + body);
  }

  /**
   * The frames of the other codecs: a length byte, its bytes and, if the top bit of the length is set,
   * more frames.
   */
  lemma {:induction false} FrameBytes(f: seq<byte>, rest: seq<byte>)
    requires |f| < 0x80
    ensures DecodeFrames([|f|] + f + rest) == Parsed([f], rest)
    ensures DecodeFrames([0x80 + |f|] + f + rest) ==
      match DecodeFrames(rest)
      case Failed(e) => Failed(e)
      case Parsed(gs, after) => Parsed([f] + gs, after)
  {
    hide DecodeFrames;
    DecodeFrame(|f|, f, rest);
    DecodeFrame(0x80 + |f|, f, rest);
  }

  /** The other codecs on the wire: frames in place of the length and the frame. */
  lemma {:induction false} FramesToServer(kind: byte, t: byte, q: u64, s: seq<byte>)
    requires (kind == 0 || kind == 2 || kind == 3) && t < 0x20
    ensures Decode(ServerBound, [0x20 * kind as int + t] + (Varint.Encode(q) + s)) ==
      match DecodeFrames(s)
      case Failed(e) => Err(e)
      case Parsed(fs, pos) =>
        Ok(Audio(t, NoSession, q,
                 if kind == 0 then CeltAlpha(fs) else if kind == 2 then Speex(fs) else CeltBeta(fs), Position(pos)))
  {
    hide Varint.Decode, Varint.Encode, DecodeFrames;
    Varint.RoundTrip(q, s);
    var h := 0x20 * kind as int + t;
    assert h / 0x20 == kind && h % 0x20 == t;
    assert ([h] + (Varint.Encode(q) + s))[1..] == Varint.Encode(q) + s;
  }

  /** A ping is the number one in the top bits and a timestamp; what follows is ignored. */
  lemma {:induction false} PingOnWire(dir: Direction, t: byte, timestamp: u64, rest: seq<byte>)
    requires t < 0x20
    ensures Decode(dir, [0x20 + t] + (Varint.Encode(timestamp) + rest)) == Ok(Ping(timestamp))
  {
    hide Varint.Decode, Varint.Encode;
    Varint.RoundTrip(timestamp, rest);
    assert ([0x20 + t] + (Varint.Encode(timestamp) + rest))[1..] == Varint.Encode(timestamp) + rest;
  }

  function IntoClientBound(p: VoicePacket, session: u32, removePosition: bool): VoicePacket {
    match p
    case Ping(timestamp) => Ping(timestamp)
    case Audio(target, _, seqNum, payload, position) =>
      Audio(target, SessionId(session), seqNum, payload, if removePosition then None else position)
  }

  /** What a listener hears of a packet: everything but the speaker and the position. */
  function Sound(p: VoicePacket): (byte, u64, Payload)
    requires p.Audio?
  {
    (p.target, p.seqNum, p.payload)
  }

  /**
   * Whatever bytes a client sent, if they decode then the relayed bytes decode at the listener to
   * the same packet with the speaker's session, and with the position unless it is withheld.
   */
  lemma {:induction false} RelayKeepsMeaning(s: seq<byte>, session: u32, removePosition: bool)
    requires Decode(ServerBound, s).Ok?
    ensures var p := Decode(ServerBound, s).value;
      var q := Decode(ClientBound, Encode(IntoClientBound(p, session, removePosition)));
      && q.Ok?
      && (p.Ping? ==> q.value == p)
      && (p.Audio? ==> q.value.Audio? && Sound(q.value) == Sound(p) && q.value.session == SessionId(session) &&
                       q.value.position == if removePosition then None else p.position)
  {
    hide Decode, Encode;
    DecodedIsEncodable(ServerBound, s);
    var p := Decode(ServerBound, s).value;
    RoundTrip(IntoClientBound(p, session, removePosition), ClientBound);
  }

  // ----- Reader and writer forms -----

  method ReadSession(dir: Direction, buf: Varint.Reader) returns (r: Option<Session>)
    modifies buf
    ensures DecodeSession(dir, old(buf.data)).Failed? ==> r == None
    ensures DecodeSession(dir, old(buf.data)).Parsed? ==>
      r == Some(DecodeSession(dir, old(buf.data)).value) && buf.data == DecodeSession(dir, old(buf.data)).rest
  {
    hide Varint.Decode;
    if dir == ServerBound {
      return Some(NoSession);
    }
    var v := buf.ReadVarint();
    r := if v.None? then None else Some(SessionId(v.value % 0x1_0000_0000));
  }

  method ReadFrames(buf: Varint.Reader) returns (r: Result<seq<seq<byte>>>)
    modifies buf
    ensures DecodeFrames(old(buf.data)).Failed? ==> r == Err(DecodeFrames(old(buf.data)).error)
    ensures DecodeFrames(old(buf.data)).Parsed? ==>
      r == Ok(DecodeFrames(old(buf.data)).value) && buf.data == DecodeFrames(old(buf.data)).rest
  {
    var frames: seq<seq<byte>> := [];
    assert DecodeFrames(buf.data).Parsed? ==> frames + DecodeFrames(buf.data).value == DecodeFrames(buf.data).value;
    while true
      invariant DecodeFrames(old(buf.data)) == Prepend(frames, DecodeFrames(buf.data))
      decreases |buf.data|
    {
      if buf.data == [] {
        return Err(Eof);
      }
      ghost var s := buf.data;
      var header := buf.ReadByte();
      var len := header.value % 0x80;
      if |buf.data| < len {
        return Err(Eof);
      }
      var frame := buf.Take(len);
      assert frame == s[1..1 + len] && buf.data == s[1 + len..];
      if header.value < 0x80 {
        return Ok(frames + [frame]);
      }
      PrependTwice(frames, [frame], DecodeFrames(buf.data));
      frames := frames + [frame];
    }
  }

  lemma {:induction false} PrependTwice(fs: seq<seq<byte>>, gs: seq<seq<byte>>, r: Parsed<seq<seq<byte>>>)
    ensures Prepend(fs, Prepend(gs, r)) == Prepend(fs + gs, r)
  {
    if r.Parsed? {
      Assoc(fs, gs, r.value);
    }
  }

  method ReadPayload(kind: nat, buf: Varint.Reader) returns (r: Result<Payload>)
    modifies buf
    ensures DecodePayload(kind, old(buf.data)).Failed? ==> r == Err(DecodePayload(kind, old(buf.data)).error)
    ensures DecodePayload(kind, old(buf.data)).Parsed? ==>
      r == Ok(DecodePayload(kind, old(buf.data)).value) && buf.data == DecodePayload(kind, old(buf.data)).rest
  {
    hide Varint.Decode, DecodeFrames;
    if kind == 0 || kind == 2 || kind == 3 {
      var fs := ReadFrames(buf);
      if fs.Err? {
        return Err(fs.error);
      }
      r := Ok(if kind == 0 then CeltAlpha(fs.value) else if kind == 2 then Speex(fs.value) else CeltBeta(fs.value));
    } else if kind == 4 {
      var header := buf.ReadVarint();
      if header.None? {
        return Err(Io);
      }
      var terminator := header.value / 0x2000 % 2 == 1;
      var len := if terminator then header.value - 0x2000 else header.value;
      if |buf.data| < len {
        return Err(Eof);
      }
      var frame := buf.Take(len);
      r := Ok(Opus(frame, terminator));
    } else {
      r := Err(Io);
    }
  }

  /** Parses one packet; a packet that parses uses up the whole buffer. */
  method DecodeVoicePacket(dir: Direction, buf: Varint.Reader) returns (r: Result<VoicePacket>)
    modifies buf
    ensures r == Decode(dir, old(buf.data))
    ensures r.Ok? ==> buf.data == []
  {
    hide Varint.Decode, DecodePayload, DecodeSession;
    var header := buf.ReadByte();
    if header.None? {
      return Err(Io);
    }
    var kind, target := header.value / 0x20, header.value % 0x20;
    if kind == 1 {
      var timestamp := buf.ReadVarint();
      if timestamp.None? {
        return Err(Io);
      }
      buf.data := [];
      return Ok(Ping(timestamp.value));
    }
    ghost var s := buf.data;
    SessionFailure(dir, s);
    var session := ReadSession(dir, buf);
    if session.None? {
      return Err(Io);
    }
    var seqNum := buf.ReadVarint();
    if seqNum.None? {
      return Err(Io);
    }
    var payload := ReadPayload(kind, buf);
    if payload.Err? {
      return Err(payload.error);
    }
    var position := if buf.data == [] then None else Some(buf.data);
    buf.data := [];
    r := Ok(Audio(target, session.value, seqNum.value, payload.value, position));
  }

  lemma {:induction false} SessionFailure(dir: Direction, s: seq<byte>)
    ensures DecodeSession(dir, s).Failed? ==> DecodeSession(dir, s).error == Io
  {
  }

  method WriteFrames(frames: seq<seq<byte>>, dst: Varint.Writer)
    modifies dst
    ensures dst.data == old(dst.data) + EncodeFrames(frames)
  {
    ghost var start := dst.data;
    for i := 0 to |frames|
      invariant dst.data + EncodeFrames(frames[i..]) == start + EncodeFrames(frames)
    {
      ghost var before, rest := dst.data, EncodeFrames(frames[i + 1..]);
      var header := FrameHeader(|frames[i]|, i + 1 < |frames|);
      dst.WriteByte(header);
      dst.WriteBytes(frames[i]);
      assert frames[i..][1..] == frames[i + 1..];
      Assoc(before, [header], frames[i]);
      Assoc(before, [header] + frames[i], rest);
    }
    assert frames[|frames|..] == [];
  }

  method EncodeVoicePacket(p: VoicePacket, dst: Varint.Writer)
    modifies dst
    ensures dst.data == old(dst.data) + Encode(p)
  {
    hide Varint.Encode, EncodeFrames, Kind;
    ghost var start := dst.data;
    match p {
      case Ping(timestamp) =>
        dst.WriteByte(0x20);
        dst.WriteVarint(timestamp);
        Assoc(start, [0x20], Varint.Encode(timestamp));
      case Audio(target, session, seqNum, payload, position) =>
        var header := Kind(payload) * 0x20 + target % 0x20;
        dst.WriteByte(header);
        if session.SessionId? {
          dst.WriteVarint(session.id);
        }
        assert dst.data == start + [header] + EncodeSession(session);
        dst.WriteVarint(seqNum);
        WritePayload(payload, dst);
        if position.Some? {
          dst.WriteBytes(position.value);
        }
        var tail := if position.Some? then position.value else [];
        FlattenInto(start, [header], EncodeSession(session), Varint.Encode(seqNum), EncodePayload(payload), tail);
    }
  }

  method WritePayload(payload: Payload, dst: Varint.Writer)
    modifies dst
    ensures dst.data == old(dst.data) + EncodePayload(payload)
  {
    hide Varint.Encode, EncodeFrames;
    ghost var start := dst.data;
    match payload {
      case Opus(frame, terminator) =>
        dst.WriteVarint(OpusHeader(|frame|, terminator));
        dst.WriteBytes(frame);
        Assoc(start, Varint.Encode(OpusHeader(|frame|, terminator)), frame);
      case _ =>
        WriteFrames(payload.frames, dst);
    }
  }

  lemma {:induction false} FlattenInto(s: seq<byte>, a: seq<byte>, b: seq<byte>, c: seq<byte>, d: seq<byte>, e: seq<byte>)
    ensures s + a + b + c + d + e == s + (a + b + c + d + e)
  {
    Assoc(s, a, b);
    Assoc(s, a + b, c);
    Assoc(s, a + b + c, d);
    Assoc(s, a + b + c + d, e);
  }
}
