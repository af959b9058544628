/**
 * The encrypted voice channel. A datagram is one byte of the sender's nonce, three bytes of tag
 * and the encrypted packet; the receiver rebuilds the full nonce from the one it expects.
 */
module Crypt {
  import opened Words
  import opened Wrappers
  import Ocb
  import Varint
  import Voice

  /** What one end knows about the stream it receives. */
  datatype Receiver = Receiver(
    nonce: u128, history: seq<byte>, good: u32, late: u32, lost: u32, resync: u32, lastGood: nat)

  predicate WellFormed(rx: Receiver) {
    |rx.history| == 0x100
  }

  function Fresh(now: nat): Receiver {
    Receiver(TWO127, Ocb.Zeros(0x100), 0, 0, 0, 0, now)
  }

  /** The start of every stream: nonce 2^127, an empty history, nothing counted. */
  ghost predicate StartsOver(rx: Receiver, now: nat) {
    && rx.nonce == 0x8000_0000_0000_0000_0000_0000_0000_0000
    && |rx.history| == 0x100 && (forall i :: 0 <= i < 0x100 ==> rx.history[i] == 0)
    && rx.good == 0 && rx.late == 0 && rx.lost == 0 && rx.resync == 0 && rx.lastGood == now
  }

  function Wrap32(x: int): u32 {
    x % 0x1_0000_0000
  }

  function Wrap128(x: int): u128 {
    x % 0x1_0000_0000_0000_0000_0000_0000_0000_0000
  }

  function LowByte(nonce: int): byte {
    nonce % 0x100
  }

  /** The second lowest byte of a nonce: what the history remembers of it. */
  function Page(nonce: int): byte {
    nonce / 0x100 % 0x100
  }

  /** A difference of bytes as a signed byte. */
  function Signed(x: int): (d: int)
    ensures -128 <= d < 128
  {
    if x % 0x100 < 0x80 then x % 0x100 else x % 0x100 - 0x100
  }

  // ----- Sending -----

  function TagBytes(tag: u128): (t: seq<byte>)
    ensures |t| == 3
  {
    ToBytes(tag)[..3]
  }

  /** The datagram that carries `p` under `nonce`. */
  function Seal(c: Ocb.Cipher, nonce: u128, p: Voice.VoicePacket): (d: seq<byte>)
    ensures |d| >= 4
  {
    var body := Ocb.Encrypt(c, nonce, Voice.Encode(p));
    [LowByte(nonce)] + TagBytes(body.tag) + body.bytes
  }

  /** The three most significant bytes of the tag, in order. */
  lemma {:induction false} TagBytesAre(tag: u128)
    ensures TagBytes(tag) ==
      [tag / 0x100_0000_0000_0000_0000_0000_0000_0000,
       tag / 0x1_0000_0000_0000_0000_0000_0000_0000 % 0x100,
       tag / 0x100_0000_0000_0000_0000_0000_0000 % 0x100]
  {
    hide BytesOf;
    HighPowers();
    ByteAt(tag, BLOCK_SIZE, 0);
    ByteAt(tag, BLOCK_SIZE, 1);
    ByteAt(tag, BLOCK_SIZE, 2);
  }

  lemma {:induction false} HighPowers()
    ensures Pow256(13) == 0x100_0000_0000_0000_0000_0000_0000
    ensures Pow256(14) == 0x1_0000_0000_0000_0000_0000_0000_0000
    ensures Pow256(15) == 0x100_0000_0000_0000_0000_0000_0000_0000
  {
    assert Pow256(4) == 0x1_0000_0000;
    assert Pow256(8) == 0x1_0000_0000_0000_0000;
    assert Pow256(12) == 0x1_0000_0000_0000_0000_0000_0000;
  }

  /**
   * A datagram byte by byte: the low byte of the nonce, the three most significant bytes of the OCB2
   * tag of the packet's bytes, and their OCB2 cipher text.
   */
  lemma {:induction false} DatagramLayout(c: Ocb.Cipher, nonce: u128, block: u128, p: Voice.VoicePacket) returns (tag: u128)
    requires Ocb.CarriesNonce(block, nonce)
    ensures var d := Seal(c, nonce, p);
      && d[0] == nonce % 0x100
      && d[1] == tag / 0x100_0000_0000_0000_0000_0000_0000_0000
      && d[2] == tag / 0x1_0000_0000_0000_0000_0000_0000_0000 % 0x100
      && d[3] == tag / 0x100_0000_0000_0000_0000_0000_0000 % 0x100
      && Ocb.IsOcb(c, c.encrypt(block), 0, Voice.Encode(p), Ocb.Pass(d[4..], tag))
  {
    hide Ocb.Encrypt, Ocb.CarriesNonce, Ocb.IsOcb, Voice.Encode, TagBytes;
    var body := Ocb.Encrypt(c, nonce, Voice.Encode(p));
    tag := body.tag;
    TagBytesAre(tag);
    Ocb.ModeIsOcb(c, nonce, block, Voice.Encode(p));
    var d := Seal(c, nonce, p);
    assert d[4..] == body.bytes && d[1..4] == TagBytes(tag);
    assert d[1] == d[1..4][0] && d[2] == d[1..4][1] && d[3] == d[1..4][2];
  }

  // ----- Receiving -----

  /** The nonce a datagram is taken to carry, or why it is refused before decryption. */
  datatype Verdict = Accept(nonce: u128, late: bool, lost: int) | Refuse(error: DecryptError)

  function Judge(rx: Receiver, b0: byte): Verdict
    requires WellFormed(rx)
  {
    if LowByte(Wrap128(rx.nonce + 1)) == b0 then Accept(Wrap128(rx.nonce + 1), false, 0)
    else
      var diff := Signed(b0 - LowByte(rx.nonce));
      var candidate := Wrap128(rx.nonce + diff);
      if diff > 0 then Accept(candidate, false, diff - 1)
      else if diff > -30 then
        if rx.history[b0] == Page(candidate) then Refuse(Repeat) else Accept(candidate, true, -1)
      else Refuse(Late)
  }

  /** The receiver takes a datagram that carries the low byte of `n` to carry exactly `n`. */
  predicate Expects(rx: Receiver, n: u128)
    requires WellFormed(rx)
  {
    Judge(rx, LowByte(n)).Accept? && Judge(rx, LowByte(n)).nonce == n
  }

  /** The state after a datagram whose tag is right. */
  function Commit(rx: Receiver, b0: byte, v: Verdict, now: nat): Receiver
    requires WellFormed(rx) && v.Accept?
  {
    Receiver(
      if v.late then rx.nonce else v.nonce,
      rx.history[b0 := Page(v.nonce)],
      Wrap32(rx.good + 1),
      if v.late then Wrap32(rx.late + 1) else rx.late,
      Wrap32(rx.lost + v.lost),
      rx.resync,
      now)
  }

  predicate TagMatches(c: Ocb.Cipher, nonce: u128, d: seq<byte>)
    requires |d| >= 4
  {
    d[1..4] == TagBytes(Ocb.Decrypt(c, nonce, d[4..]).tag)
  }

  /** The datagram passes every test before parsing, so the receiver commits to it. */
  predicate Commits(c: Ocb.Cipher, rx: Receiver, d: seq<byte>)
    requires WellFormed(rx)
  {
    |d| >= 4 && Judge(rx, d[0]).Accept? && TagMatches(c, Judge(rx, d[0]).nonce, d)
  }

  /** The receiver after a datagram; only a committed one changes it. */
  function After(c: Ocb.Cipher, rx: Receiver, d: seq<byte>, now: nat): (rx': Receiver)
    requires WellFormed(rx)
    ensures WellFormed(rx')
  {
    if Commits(c, rx, d) then Commit(rx, d[0], Judge(rx, d[0]), now) else rx
  }

  /** What the caller is told; parsing comes after the state has changed. */
  function Outcome(c: Ocb.Cipher, dir: Voice.Direction, rx: Receiver, d: seq<byte>): Result<Voice.VoicePacket>
    requires WellFormed(rx)
  {
    if |d| < 4 then Err(Eof)
    else
      match Judge(rx, d[0])
      case Refuse(e) => Err(e)
      case Accept(nonce, _, _) =>
        if TagMatches(c, nonce, d) then Voice.Decode(dir, Ocb.Decrypt(c, nonce, d[4..]).bytes) else Err(Mac)
  }

  /**
   * What becomes of a datagram, in bytes: too short, refused by its nonce byte, wrong in one of the
   * three tag bytes, or parsed. Only in the last case does the receiver change.
   */
  lemma {:induction false} DatagramFate(c: Ocb.Cipher, dir: Voice.Direction, rx: Receiver, d: seq<byte>, now: nat)
    requires WellFormed(rx)
    ensures |d| < 4 ==> Outcome(c, dir, rx, d) == Err(Eof) && After(c, rx, d, now) == rx
    ensures |d| >= 4 ==>
      match Judge(rx, d[0])
      case Refuse(e) => Outcome(c, dir, rx, d) == Err(e) && After(c, rx, d, now) == rx
      case Accept(nonce, late, lost) =>
        var plain := Ocb.Decrypt(c, nonce, d[4..]);
        if d[1] == plain.tag / 0x100_0000_0000_0000_0000_0000_0000_0000
           && d[2] == plain.tag / 0x1_0000_0000_0000_0000_0000_0000_0000 % 0x100
           && d[3] == plain.tag / 0x100_0000_0000_0000_0000_0000_0000 % 0x100
        then
          && Outcome(c, dir, rx, d) == Voice.Decode(dir, plain.bytes)
          && After(c, rx, d, now) == Commit(rx, d[0], Accept(nonce, late, lost), now)
        else Outcome(c, dir, rx, d) == Err(Mac) && After(c, rx, d, now) == rx
  {
    hide Judge, Commit, Ocb.Decrypt, Voice.Decode, TagBytes;
    if |d| >= 4 && Judge(rx, d[0]).Accept? {
      TagBytesAre(Ocb.Decrypt(c, Judge(rx, d[0]).nonce, d[4..]).tag);
      assert d[1..4] == [d[1], d[2], d[3]];
    }
  }

  // ----- The state machine -----

  /** The receiver after the peer has announced its nonce. */
  function Resynced(rx: Receiver, nonce: seq<byte>): Receiver {
    if |nonce| != BLOCK_SIZE then rx
    else rx.(nonce := Ocb.FromLittleEndian(nonce), resync := Wrap32(rx.resync + 1))
  }

  class CryptState {
    const cipher: Ocb.Cipher
    var encryptNonce: u128
    var decryptNonce: u128
    var decryptHistory: seq<byte>
    var good: u32
    var late: u32
    var lost: u32
    var resync: u32
    var lastGood: nat

    ghost predicate Valid()
      reads this
    {
      |decryptHistory| == 0x100
    }

    function View(): Receiver
      reads this
    {
      Receiver(decryptNonce, decryptHistory, good, late, lost, resync, lastGood)
    }

    constructor (cipher: Ocb.Cipher, now: nat)
      ensures Valid() && this.cipher == cipher
      ensures encryptNonce == 0 && View() == Fresh(now) && StartsOver(View(), now)
    {
      this.cipher := cipher;
      encryptNonce, decryptNonce, decryptHistory := 0, TWO127, Ocb.Zeros(0x100);
      good, late, lost, resync, lastGood := 0, 0, 0, 0, now;
    }

    method Reset(now: nat)
      modifies this
      ensures Valid() && encryptNonce == 0 && View() == Fresh(now) && StartsOver(View(), now)
    {
      encryptNonce := 0;
      decryptNonce := TWO127;
      decryptHistory := Ocb.Zeros(0x100);
      good, late, lost, resync := 0, 0, 0, 0;
      lastGood := now;
    }

    /** The peer's nonce, least significant byte first; a nonce of any other length is rejected. */
    method SetDecryptNonce(nonce: seq<byte>) returns (ok: bool)
      requires Valid()
      modifies this`decryptNonce, this`resync
      ensures Valid()
      ensures ok <==> |nonce| == BLOCK_SIZE
      ensures View() == Resynced(old(View()), nonce)
      ensures ok ==> resync == (old(resync) + 1) % 0x1_0000_0000
      ensures ok ==> forall i :: 0 <= i < 0x10 ==> decryptNonce / Pow256(i) % 0x100 == nonce[i]
      ensures !ok ==> decryptNonce == old(decryptNonce) && resync == old(resync)
    {
      hide Ocb.FromLittleEndian, Pow256;
      ok := |nonce| == BLOCK_SIZE;
      if ok {
        decryptNonce := Ocb.FromLittleEndian(nonce);
        resync := Wrap32(resync + 1);
        Ocb.AllLittleEndianDigits(nonce);
      }
    }

    method Encrypt(p: Voice.VoicePacket) returns (dst: seq<byte>)
      requires Valid()
      modifies this`encryptNonce
      ensures Valid()
      ensures encryptNonce == Wrap128(old(encryptNonce) + 1)
      ensures dst == Seal(cipher, encryptNonce, p)
    {
      hide Ocb.Encrypt, Voice.Encode, Wrap128, LowByte, TagBytes;
      encryptNonce := Wrap128(encryptNonce + 1);
      var inner := new Varint.Writer();
      Voice.EncodeVoicePacket(p, inner);
      assert inner.data == Voice.Encode(p);
      var body := ArrayOf(inner.data);
      var tag := Ocb.OcbEncrypt(cipher, encryptNonce, body);
      dst := [LowByte(encryptNonce)] + TagBytes(tag) + body[..];
    }

    /** Moves the nonce to the one the datagram must carry, unless the datagram is refused. */
    method RebuildNonce(nonce0: byte) returns (v: Verdict)
      requires Valid()
      modifies this`decryptNonce
      ensures v == Judge(old(View()), nonce0)
      ensures decryptNonce == if v.Accept? then v.nonce else old(decryptNonce)
    {
      hide Wrap128, LowByte, Page, Signed;
      var savedNonce := decryptNonce;
      if LowByte(Wrap128(decryptNonce + 1)) == nonce0 {
        decryptNonce := Wrap128(decryptNonce + 1);
        return Accept(decryptNonce, false, 0);
      }
      var diff := Signed(nonce0 - LowByte(decryptNonce));
      decryptNonce := Wrap128(decryptNonce + diff);
      if diff > 0 {
        return Accept(decryptNonce, false, diff - 1);
      } else if diff > -30 {
        if decryptHistory[nonce0] == Page(decryptNonce) {
          decryptNonce := savedNonce;
          return Refuse(Repeat);
        }
        return Accept(decryptNonce, true, -1);
      }
      decryptNonce := savedNonce;
      return Refuse(Late);
    }

    /** Records a datagram whose tag is right; a late one leaves the nonce where it was. */
    method Accepted(nonce0: byte, v: Verdict, savedNonce: u128, now: nat)
      requires Valid() && v.Accept? && decryptNonce == v.nonce
      modifies this
      ensures Valid() && encryptNonce == old(encryptNonce)
      ensures View() == Commit(old(View()).(nonce := savedNonce), nonce0, v, now)
    {
      hide Page, Wrap32;
      decryptHistory := decryptHistory[nonce0 := Page(decryptNonce)];
      good := Wrap32(good + 1);
      lastGood := now;
      if v.late {
        late := Wrap32(late + 1);
        decryptNonce := savedNonce;
      }
      lost := Wrap32(lost + v.lost);
    }

    method Decrypt(dir: Voice.Direction, buf: seq<byte>, now: nat) returns (r: Result<Voice.VoicePacket>)
      requires Valid()
      modifies this
      ensures Valid() && encryptNonce == old(encryptNonce)
      ensures View() == After(cipher, old(View()), buf, now)
      ensures r == Outcome(cipher, dir, old(View()), buf)
    {
      hide Ocb.Decrypt, Voice.Decode, Judge, Commit, TagBytes;
      if |buf| < 4 {
        return Err(Eof);
      }
      var savedNonce := decryptNonce;
      var v := RebuildNonce(buf[0]);
      if v.Refuse? {
        return Err(v.error);
      }
      var body := ArrayOf(buf[4..]);
      var tag := Ocb.OcbDecrypt(cipher, decryptNonce, body);
      if buf[1..4] != TagBytes(tag) {
        decryptNonce := savedNonce;
        return Err(Mac);
      }
      Accepted(buf[0], v, savedNonce, now);
      var reader := new Varint.Reader(body[..]);
      r := Voice.DecodeVoicePacket(dir, reader);
    }
  }

  method ArrayOf(s: seq<byte>) returns (a: array<byte>)
    ensures fresh(a) && a[..] == s
  {
    a := new byte[|s|](i requires 0 <= i < |s| => s[i]);
  }
}
