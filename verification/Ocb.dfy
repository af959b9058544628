/**
 * The block mode of the voice channel: OCB2 over a 128-bit block cipher, with the last block of
 * 0 to 16 bytes padded by key stream. The cipher is a parameter: any pair of inverse maps.
 */
module Ocb {
  import opened Words

  datatype Cipher = Cipher(encrypt: u128 -> u128, decrypt: u128 -> u128)

  ghost predicate Inverse(c: Cipher) {
    && (forall x: u128 :: c.decrypt(c.encrypt(x)) == x)
    && (forall x: u128 :: c.encrypt(c.decrypt(x)) == x)
  }

  // ----- Doubling -----

  function RotateLeft(x: u128): u128 {
    2 * (x % TWO127) + x / TWO127
  }

  function S2(x: u128): u128 {
    var rot := RotateLeft(x);
    var carry := rot % 2;
    Xor128(rot, carry * 0x86)
  }

  /** Doubling in the field of 2^128 elements, as section 2 of RFC 7253 defines it. */
  function FieldDouble(x: u128): u128 {
    if x < TWO127 then 2 * x else Xor128(2 * x - TWO128, 0x87)
  }

  lemma {:induction false} XorBits(t: nat, u: nat)
    requires t < 2 && u < 2
    ensures Xor(t, u) == if t == u then 0 else 1
  {
  }

  lemma {:induction false} XorJoin(r: nat, s: nat, t: nat, u: nat)
    requires t < 2 && u < 2
    ensures Xor(2 * r + t, 2 * s + u) == 2 * Xor(r, s) + Xor(t, u)
  {
    hide Xor;
    XorBits(t, u);
    var p, q := 2 * r + t, 2 * s + u;
    assert p / 2 == r && q / 2 == s && p % 2 == t && q % 2 == u;
    XorHalves(p, q);
  }

  /** Moving the low bit from one side to the other. */
  lemma {:induction false} MoveLowBit(a: nat, b: nat)
    ensures Xor(2 * a + 1, 2 * b) == Xor(2 * a, 2 * b + 1)
  {
    hide Xor;
    XorJoin(a, b, 1, 0);
    XorJoin(a, b, 0, 1);
    XorBits(1, 0);
    XorBits(0, 1);
  }

  lemma {:induction false} S2IsFieldDouble(x: u128)
    ensures S2(x) == FieldDouble(x)
  {
    hide Xor;
    if x < TWO127 {
      XorZero(2 * x);
    } else {
      MoveLowBit(x - TWO127, 0x43);
    }
  }

  /** The top bit and the rest of a word. */
  lemma {:induction false} XorTop(x: u128, y: u128)
    ensures Xor128(x, y) / TWO127 == Xor(x / TWO127, y / TWO127)
    ensures Xor128(x, y) % TWO127 == Xor(x % TWO127, y % TWO127)
  {
    Pow2Values();
    hide Pow2, Xor;
    XorSplit(127, x / TWO127, y / TWO127, x % TWO127, y % TWO127);
  }

  lemma {:induction false} RotateIsLinear(x: u128, y: u128)
    ensures RotateLeft(Xor128(x, y)) == Xor(RotateLeft(x), RotateLeft(y))
    ensures RotateLeft(Xor128(x, y)) % 2 == Xor(RotateLeft(x) % 2, RotateLeft(y) % 2)
  {
    hide Xor;
    XorTop(x, y);
    hide Xor128;
    XorJoin(x % TWO127, y % TWO127, x / TWO127, y / TWO127);
    XorBits(x / TWO127, y / TWO127);
  }

  lemma {:induction false} XorSwap(a: nat, b: nat, c: nat, d: nat)
    ensures Xor(Xor(a, b), Xor(c, d)) == Xor(Xor(a, c), Xor(b, d))
  {
    hide Xor;
    XorAssoc(a, b, Xor(c, d));
    XorAssoc(b, c, d);
    XorComm(b, c);
    XorAssoc(c, b, d);
    XorAssoc(a, c, Xor(b, d));
  }

  lemma {:induction false} S2IsLinear(x: u128, y: u128)
    ensures S2(Xor128(x, y)) == Xor128(S2(x), S2(y))
  {
    hide Xor;
    var p, q := RotateLeft(x), RotateLeft(y);
    RotateIsLinear(x, y);
    hide RotateLeft;
    XorSwap(p, (p % 2) * 0x86, q, (q % 2) * 0x86);
    CarryIsLinear(p % 2, q % 2);
  }

  lemma {:induction false} CarryIsLinear(t: nat, u: nat)
    requires t < 2 && u < 2
    ensures Xor(t, u) * 0x86 == Xor(t * 0x86, u * 0x86)
  {
    hide Xor;
    XorBits(t, u);
    if t == u {
      XorSelf(t * 0x86);
    } else {
      XorZero(0x86);
      XorComm(0, 0x86);
    }
  }

  /** The inverse of doubling. */
  function Half(y: u128): u128 {
    var rot := Xor128(y, (y % 2) * 0x86);
    rot / 2 + (rot % 2) * TWO127
  }

  lemma {:induction false} FlipTwice(x: u128)
    ensures var y := Xor128(x, (x % 2) * 0x86);
      y % 2 == x % 2 && Xor128(y, (y % 2) * 0x86) == x
  {
    XorHalves(x, (x % 2) * 0x86);
    hide Xor;
    XorCancel(x, (x % 2) * 0x86);
  }

  lemma {:induction false} RotateBack(y: u128)
    ensures RotateLeft(y / 2 + (y % 2) * TWO127) == y
  {
  }

  lemma {:induction false} S2IsInvertible(x: u128)
    ensures Half(S2(x)) == x
    ensures S2(Half(x)) == x
  {
    hide Xor128;
    FlipTwice(RotateLeft(x));
    FlipTwice(x);
    RotateBack(Xor128(x, (x % 2) * 0x86));
  }

  /** `x` doubled `i` times in the field. */
  function Doubled(x: u128, i: nat): u128 {
    if i == 0 then x else FieldDouble(Doubled(x, i - 1))
  }

  lemma {:induction false} DoubledOnce(x: u128)
    ensures Doubled(x, 1) == S2(x)
  {
    S2IsFieldDouble(x);
    assert Doubled(x, 1) == FieldDouble(Doubled(x, 0));
  }

  lemma {:induction false} DoubledFront(x: u128, i: nat)
    ensures Doubled(S2(x), i) == Doubled(x, i + 1)
  {
    if i > 0 {
      DoubledFront(x, i - 1);
    } else {
      DoubledOnce(x);
    }
  }

  /** No offset is zero unless the encrypted nonce is. */
  lemma {:induction false} OffsetNeverZero(x: u128, i: nat)
    requires x != 0
    ensures Doubled(x, i) != 0
  {
    if i > 0 {
      OffsetNeverZero(x, i - 1);
      S2IsFieldDouble(Doubled(x, i - 1));
      S2IsInvertible(Doubled(x, i - 1));
      S2IsInvertible(0);
      assert S2(0) == 0 by { XorSelf(0); }
    }
  }

  // ----- The mode -----

  /** Bytes after a pass of the mode, and its tag. */
  datatype Pass = Pass(bytes: seq<byte>, tag: u128)

  function Tag(c: Cipher, offset: u128, checksum: u128): u128 {
    c.encrypt(Xor128(Xor128(offset, S2(offset)), checksum))
  }

  function Pad(c: Cipher, offset: u128, len: nat): u128
    requires len <= BLOCK_SIZE
  {
    c.encrypt(Xor128(len * 8, offset))
  }

  /** The last block of plain text: the remaining bytes, filled up with key stream. */
  function LastPlain(pad: u128, s: seq<byte>): u128
    requires |s| <= BLOCK_SIZE
  {
    FromBytes(s + ToBytes(pad)[|s|..])
  }

  function Zeros(n: nat): (z: seq<byte>)
    ensures |z| == n
  {
    seq(n, i => 0)
  }

  /** The last block as the decrypting side rebuilds it from cipher text filled up with zeros. */
  function LastOpened(pad: u128, s: seq<byte>): u128
    requires |s| <= BLOCK_SIZE
  {
    Xor128(FromBytes(s + Zeros(BLOCK_SIZE - |s|)), pad)
  }

  function EncryptFrom(c: Cipher, offset: u128, checksum: u128, s: seq<byte>): (r: Pass)
    ensures |r.bytes| == |s|
    decreases |s|
  {
    var z := S2(offset);
    if |s| > BLOCK_SIZE then
      var plain := FromBytes(s[..BLOCK_SIZE]);
      var rest := EncryptFrom(c, z, Xor128(checksum, plain), s[BLOCK_SIZE..]);
      Pass(ToBytes(Xor128(c.encrypt(Xor128(z, plain)), z)) + rest.bytes, rest.tag)
    else
      var pad := Pad(c, z, |s|);
      var plain := LastPlain(pad, s);
      Pass(ToBytes(Xor128(pad, plain))[..|s|], Tag(c, z, Xor128(checksum, plain)))
  }

  function DecryptFrom(c: Cipher, offset: u128, checksum: u128, s: seq<byte>): (r: Pass)
    ensures |r.bytes| == |s|
    decreases |s|
  {
    var z := S2(offset);
    if |s| > BLOCK_SIZE then
      var plain := Xor128(c.decrypt(Xor128(z, FromBytes(s[..BLOCK_SIZE]))), z);
      var rest := DecryptFrom(c, z, Xor128(checksum, plain), s[BLOCK_SIZE..]);
      Pass(ToBytes(plain) + rest.bytes, rest.tag)
    else
      var pad := Pad(c, z, |s|);
      var plain := LastOpened(pad, s);
      Pass(ToBytes(plain)[..|s|], Tag(c, z, Xor128(checksum, plain)))
  }

  // ----- Each direction undoes the other -----

  lemma {:induction false} LastBlockBytes(pad: u128, s: seq<byte>, i: nat)
    requires |s| <= BLOCK_SIZE && i < BLOCK_SIZE
    ensures ToBytes(LastPlain(pad, s))[i] == if i < |s| then s[i] else ToBytes(pad)[i]
    ensures ToBytes(LastOpened(pad, s))[i] == if i < |s| then Xor(s[i], ToBytes(pad)[i]) else ToBytes(pad)[i]
    ensures ToBytes(Xor128(pad, LastPlain(pad, s)))[i] == if i < |s| then Xor(s[i], ToBytes(pad)[i]) else 0
  {
    hide BytesOf, Xor, NumberOf;
    var filled, zeroed := s + ToBytes(pad)[|s|..], s + Zeros(BLOCK_SIZE - |s|);
    BytesRoundTrip(filled);
    BytesRoundTrip(zeroed);
    XorBytesOf(NumberOf(zeroed), pad, BLOCK_SIZE, i);
    XorBytesOf(pad, NumberOf(filled), BLOCK_SIZE, i);
    var p := ToBytes(pad)[i];
    XorComm(0, p);
    XorZero(p);
    XorSelf(p);
    if i < |s| {
      XorComm(p, s[i]);
    }
  }

  lemma {:induction false} LastBlockDecrypted(pad: u128, s: seq<byte>)
    requires |s| <= BLOCK_SIZE
    ensures var enc := ToBytes(Xor128(pad, LastPlain(pad, s)))[..|s|];
      ToBytes(LastOpened(pad, enc)) == ToBytes(LastPlain(pad, s)) && ToBytes(LastPlain(pad, s))[..|s|] == s
  {
    hide Xor, ToBytes, LastPlain, LastOpened, Xor128;
    var enc := ToBytes(Xor128(pad, LastPlain(pad, s)))[..|s|];
    forall i: nat | i < BLOCK_SIZE
      ensures ToBytes(LastOpened(pad, enc))[i] == ToBytes(LastPlain(pad, s))[i]
      ensures i < |s| ==> ToBytes(LastPlain(pad, s))[i] == s[i]
    {
      LastBlockBytes(pad, s, i);
      LastBlockBytes(pad, enc, i);
      if i < |s| {
        XorCancel(s[i], ToBytes(pad)[i]);
      }
    }
  }

  lemma {:induction false} LastBlockEncrypted(pad: u128, s: seq<byte>)
    requires |s| <= BLOCK_SIZE
    ensures var dec := ToBytes(LastOpened(pad, s))[..|s|];
      ToBytes(LastPlain(pad, dec)) == ToBytes(LastOpened(pad, s)) && ToBytes(Xor128(pad, LastPlain(pad, dec)))[..|s|] == s
  {
    hide Xor, ToBytes, LastPlain, LastOpened, Xor128;
    var dec := ToBytes(LastOpened(pad, s))[..|s|];
    forall i: nat | i < BLOCK_SIZE
      ensures ToBytes(LastPlain(pad, dec))[i] == ToBytes(LastOpened(pad, s))[i]
      ensures i < |s| ==> ToBytes(Xor128(pad, LastPlain(pad, dec)))[i] == s[i]
    {
      LastBlockBytes(pad, s, i);
      LastBlockBytes(pad, dec, i);
      if i < |s| {
        XorCancel(s[i], ToBytes(pad)[i]);
      }
    }
  }

  lemma {:induction false} FullBlockUndone(c: Cipher, z: u128, x: u128)
    requires Inverse(c)
    ensures Xor128(c.decrypt(Xor128(z, Xor128(c.encrypt(Xor128(z, x)), z))), z) == x
    ensures Xor128(c.encrypt(Xor128(z, Xor128(c.decrypt(Xor128(z, x)), z))), z) == x
  {
    hide Xor;
    XorCancel(c.encrypt(Xor128(z, x)), z);
    XorCancel(c.decrypt(Xor128(z, x)), z);
    XorComm(z, x);
    XorCancel(x, z);
  }

  /** Decrypting gives back what was encrypted, and computes the same tag. */
  lemma {:induction false} DecryptUndoesEncrypt(c: Cipher, offset: u128, checksum: u128, s: seq<byte>)
    requires Inverse(c)
    ensures var enc := EncryptFrom(c, offset, checksum, s);
      DecryptFrom(c, offset, checksum, enc.bytes) == Pass(s, enc.tag)
    decreases |s|
  {
    hide Xor128, S2, ToBytes, FromBytes, LastPlain, LastOpened;
    var enc := EncryptFrom(c, offset, checksum, s);
    var z := S2(offset);
    if |s| > BLOCK_SIZE {
      var plain := FromBytes(s[..BLOCK_SIZE]);
      var sealed := Xor128(c.encrypt(Xor128(z, plain)), z);
      assert enc.bytes[..BLOCK_SIZE] == ToBytes(sealed);
      BlockRoundTrip(sealed);
      FullBlockUndone(c, z, plain);
      BytesRoundTrip(s[..BLOCK_SIZE]);
      DecryptUndoesEncrypt(c, z, Xor128(checksum, plain), s[BLOCK_SIZE..]);
      assert enc.bytes[BLOCK_SIZE..] == EncryptFrom(c, z, Xor128(checksum, plain), s[BLOCK_SIZE..]).bytes;
      assert s[..BLOCK_SIZE] + s[BLOCK_SIZE..] == s;
    } else {
      var pad := Pad(c, z, |s|);
      LastBlockDecrypted(pad, s);
      BlockRoundTrip(LastPlain(pad, s));
      BlockRoundTrip(LastOpened(pad, enc.bytes));
    }
  }

  /** Encrypting gives back what was decrypted: the mode is a length-preserving bijection. */
  lemma {:induction false} EncryptUndoesDecrypt(c: Cipher, offset: u128, checksum: u128, s: seq<byte>)
    requires Inverse(c)
    ensures var dec := DecryptFrom(c, offset, checksum, s);
      EncryptFrom(c, offset, checksum, dec.bytes) == Pass(s, dec.tag)
    decreases |s|
  {
    hide Xor128, S2, ToBytes, FromBytes, LastPlain, LastOpened;
    var dec := DecryptFrom(c, offset, checksum, s);
    var z := S2(offset);
    if |s| > BLOCK_SIZE {
      var block := FromBytes(s[..BLOCK_SIZE]);
      var plain := Xor128(c.decrypt(Xor128(z, block)), z);
      assert dec.bytes[..BLOCK_SIZE] == ToBytes(plain);
      BlockRoundTrip(plain);
      FullBlockUndone(c, z, block);
      BytesRoundTrip(s[..BLOCK_SIZE]);
      EncryptUndoesDecrypt(c, z, Xor128(checksum, plain), s[BLOCK_SIZE..]);
      assert dec.bytes[BLOCK_SIZE..] == DecryptFrom(c, z, Xor128(checksum, plain), s[BLOCK_SIZE..]).bytes;
      assert s[..BLOCK_SIZE] + s[BLOCK_SIZE..] == s;
    } else {
      var pad := Pad(c, z, |s|);
      LastBlockEncrypted(pad, s);
      BlockRoundTrip(LastOpened(pad, s));
      BlockRoundTrip(LastPlain(pad, dec.bytes));
    }
  }

  // ----- The mode, block by block -----

  /** How many blocks come before the last one, which has 0 to 16 bytes. */
  function FullBlocks(n: nat): nat {
    if n == 0 then 0 else (n - 1) / BLOCK_SIZE
  }

  /** Plain block `i` of `s`. */
  function PlainBlock(s: seq<byte>, i: nat): u128
    requires 16 * i + 16 <= |s|
  {
    FromBytes(s[16 * i..16 * i + 16])
  }

  /** The exclusive or of the first `n` blocks, on top of `acc`. */
  function BlockSum(acc: u128, s: seq<byte>, n: nat): u128
    requires 16 * n <= |s|
  {
    if n == 0 then acc else Xor128(BlockSum(acc, s, n - 1), PlainBlock(s, n - 1))
  }

  lemma {:induction false} BlockSumTail(acc: u128, s: seq<byte>, n: nat)
    requires 16 * n + 16 <= |s|
    ensures BlockSum(Xor128(acc, PlainBlock(s, 0)), s[16..], n) == BlockSum(acc, s, n + 1)
  {
    hide Xor128, FromBytes;
    if n > 0 {
      BlockSumTail(acc, s, n - 1);
      assert s[16..][16 * (n - 1)..16 * (n - 1) + 16] == s[16 * n..16 * n + 16];
    } else {
      assert BlockSum(acc, s, 1) == Xor128(BlockSum(acc, s, 0), PlainBlock(s, 0));
    }
  }

  /**
   * The definition of OCB2 by block index, in terms of the block functions, exclusive or and the
   * field alone: with Z(i) the start doubled i times and m the number of full blocks, full block i
   * becomes E(P xor Z(i+1)) xor Z(i+1); the last block, of n bytes, is xored with the pad
   * E(8n xor Z(m+1)); the tag is E(Z(m+1) xor 2Z(m+1) xor the sum of all plain blocks), the last one
   * filled up from the pad.
   */
  ghost predicate IsOcb(c: Cipher, start: u128, acc: u128, s: seq<byte>, r: Pass) {
    && |r.bytes| == |s|
    && (forall i :: 0 <= i < FullBlocks(|s|) ==> FullBlockIs(c, start, s, r.bytes, i))
    && LastBlockIs(c, start, s, r.bytes)
    && TagIs(c, start, acc, s, r.tag)
  }

  ghost predicate FullBlockIs(c: Cipher, start: u128, s: seq<byte>, out: seq<byte>, i: nat)
    requires 16 * i + 16 <= |s| == |out|
  {
    var z := Doubled(start, i + 1);
    out[16 * i..16 * i + 16] == ToBytes(Xor128(c.encrypt(Xor128(z, PlainBlock(s, i))), z))
  }

  function LastBlock(s: seq<byte>): (t: seq<byte>)
    ensures |t| <= 16
  {
    s[16 * FullBlocks(|s|)..]
  }

  function LastPad(c: Cipher, start: u128, n: nat): u128 {
    var m := FullBlocks(n);
    c.encrypt(Xor128(8 * (n - 16 * m), Doubled(start, m + 1)))
  }

  ghost predicate LastBlockIs(c: Cipher, start: u128, s: seq<byte>, out: seq<byte>)
    requires |s| == |out|
  {
    var pad := ToBytes(LastPad(c, start, |s|));
    forall i :: 0 <= i < |LastBlock(s)| ==> LastBlock(out)[i] == Xor(LastBlock(s)[i], pad[i])
  }

  ghost predicate TagIs(c: Cipher, start: u128, acc: u128, s: seq<byte>, tag: u128) {
    var m, last := FullBlocks(|s|), LastBlock(s);
    var z := Doubled(start, m + 1);
    var plain := FromBytes(last + ToBytes(LastPad(c, start, |s|))[|last|..]);
    tag == c.encrypt(Xor128(Xor128(z, FieldDouble(z)), Xor128(BlockSum(acc, s, m), plain)))
  }

  lemma {:induction false} Slice(s: seq<byte>, k: nat, a: nat, b: nat)
    requires k <= a <= b <= |s|
    ensures s[a..b] == s[k..][a - k..b - k]
  {
  }

  /** Dropping a full block shifts the block index by one and doubles the start. */
  lemma {:induction false} DropBlock(c: Cipher, start: u128, s: seq<byte>)
    requires |s| > 16
    ensures FullBlocks(|s|) == FullBlocks(|s| - 16) + 1
    ensures LastBlock(s) == LastBlock(s[16..])
    ensures LastPad(c, start, |s|) == LastPad(c, S2(start), |s| - 16)
  {
    hide S2, FieldDouble, Xor128;
    var m := FullBlocks(|s|);
    Slice(s, 16, 16 * m, |s|);
    DoubledFront(start, m);
  }

  lemma {:induction false} EncryptFull(c: Cipher, offset: u128, checksum: u128, s: seq<byte>, i: nat)
    requires i < FullBlocks(|s|)
    ensures FullBlockIs(c, offset, s, EncryptFrom(c, offset, checksum, s).bytes, i)
    decreases |s|
  {
    hide Xor128, S2, FieldDouble, ToBytes, FromBytes;
    var r := EncryptFrom(c, offset, checksum, s);
    if i == 0 {
      DoubledOnce(offset);
    } else {
      var sum := Xor128(checksum, FromBytes(s[..16]));
      EncryptFull(c, S2(offset), sum, s[16..], i - 1);
      DoubledFront(offset, i);
      Slice(s, 16, 16 * i, 16 * i + 16);
      Slice(r.bytes, 16, 16 * i, 16 * i + 16);
      assert r.bytes[16..] == EncryptFrom(c, S2(offset), sum, s[16..]).bytes;
    }
  }

  lemma {:induction false} EncryptLast(c: Cipher, offset: u128, checksum: u128, s: seq<byte>)
    ensures LastBlockIs(c, offset, s, EncryptFrom(c, offset, checksum, s).bytes)
    decreases |s|
  {
    hide Xor128, S2, FieldDouble, ToBytes, FromBytes, LastPlain, Xor;
    var r := EncryptFrom(c, offset, checksum, s);
    if |s| > 16 {
      var sum := Xor128(checksum, FromBytes(s[..16]));
      EncryptLast(c, S2(offset), sum, s[16..]);
      assert r.bytes[16..] == EncryptFrom(c, S2(offset), sum, s[16..]).bytes;
      DropBlock(c, offset, s);
      DropBlock(c, offset, r.bytes);
    } else {
      LastBlockAlone(c, offset, checksum, s);
    }
  }

  lemma {:induction false} LastBlockAlone(c: Cipher, offset: u128, checksum: u128, s: seq<byte>)
    requires |s| <= 16
    ensures LastBlockIs(c, offset, s, EncryptFrom(c, offset, checksum, s).bytes)
  {
    hide Xor128, S2, FieldDouble, ToBytes, FromBytes, LastPlain, Xor, Doubled, EncryptFrom, LastPad, LastBlock;
    var r := EncryptFrom(c, offset, checksum, s);
    EncryptEnd(c, offset, checksum, s);
    AloneInBlock(c, offset, s);
    AloneInBlock(c, offset, r.bytes);
    forall i | 0 <= i < |s|
      ensures r.bytes[i] == Xor(s[i], ToBytes(LastPad(c, offset, |s|))[i])
    {
      LastBlockBytes(LastPad(c, offset, |s|), s, i);
    }
  }

  lemma {:induction false} AloneInBlock(c: Cipher, offset: u128, s: seq<byte>)
    requires |s| <= 16
    ensures LastBlock(s) == s && LastPad(c, offset, |s|) == c.encrypt(Xor128(|s| * 8, S2(offset)))
  {
    hide Xor128, S2, FieldDouble, Doubled;
    assert FullBlocks(|s|) == 0;
    DoubledOnce(offset);
  }

  lemma {:induction false} EncryptTag(c: Cipher, offset: u128, checksum: u128, s: seq<byte>)
    ensures TagIs(c, offset, checksum, s, EncryptFrom(c, offset, checksum, s).tag)
    decreases |s|
  {
    hide Xor128, S2, FieldDouble, ToBytes, FromBytes;
    if |s| > 16 {
      EncryptTag(c, S2(offset), Xor128(checksum, FromBytes(s[..16])), s[16..]);
      DropBlock(c, offset, s);
      hide LastPad, LastBlock, BlockSum, FullBlocks;
      DoubledFront(offset, FullBlocks(|s|));
      BlockSumTail(checksum, s, FullBlocks(|s|) - 1);
    } else {
      LastTag(c, offset, checksum, s);
    }
  }

  lemma {:induction false} LastTag(c: Cipher, offset: u128, checksum: u128, s: seq<byte>)
    requires |s| <= 16
    ensures TagIs(c, offset, checksum, s, EncryptFrom(c, offset, checksum, s).tag)
  {
    hide Xor128, S2, FieldDouble, ToBytes, FromBytes;
    assert LastBlock(s) == s;
    S2IsFieldDouble(S2(offset));
    DoubledOnce(offset);
  }

  /** The loop computes OCB2. */
  lemma {:induction false} EncryptIsOcb(c: Cipher, offset: u128, checksum: u128, s: seq<byte>)
    ensures IsOcb(c, offset, checksum, s, EncryptFrom(c, offset, checksum, s))
  {
    forall i | 0 <= i < FullBlocks(|s|)
      ensures FullBlockIs(c, offset, s, EncryptFrom(c, offset, checksum, s).bytes, i)
    {
      EncryptFull(c, offset, checksum, s, i);
    }
    EncryptLast(c, offset, checksum, s);
    EncryptTag(c, offset, checksum, s);
  }

  ghost predicate FullBlockOpens(c: Cipher, start: u128, s: seq<byte>, out: seq<byte>, i: nat)
    requires 16 * i + 16 <= |s| == |out|
  {
    var z := Doubled(start, i + 1);
    out[16 * i..16 * i + 16] == ToBytes(Xor128(c.decrypt(Xor128(z, PlainBlock(s, i))), z))
  }

  /** The decrypting side of the same definition; the tag is that of the bytes it produces. */
  ghost predicate IsOcbOpened(c: Cipher, start: u128, acc: u128, s: seq<byte>, r: Pass) {
    && |r.bytes| == |s|
    && (forall i :: 0 <= i < FullBlocks(|s|) ==> FullBlockOpens(c, start, s, r.bytes, i))
    && LastBlockIs(c, start, s, r.bytes)
    && TagIs(c, start, acc, r.bytes, r.tag)
  }

  lemma {:induction false} DecryptFull(c: Cipher, offset: u128, checksum: u128, s: seq<byte>, i: nat)
    requires i < FullBlocks(|s|)
    ensures FullBlockOpens(c, offset, s, DecryptFrom(c, offset, checksum, s).bytes, i)
    decreases |s|
  {
    hide Xor128, S2, FieldDouble, ToBytes, FromBytes;
    var r := DecryptFrom(c, offset, checksum, s);
    if i == 0 {
      DoubledOnce(offset);
    } else {
      var z := S2(offset);
      var sum := Xor128(checksum, Xor128(c.decrypt(Xor128(z, FromBytes(s[..16]))), z));
      DecryptFull(c, z, sum, s[16..], i - 1);
      DoubledFront(offset, i);
      Slice(s, 16, 16 * i, 16 * i + 16);
      Slice(r.bytes, 16, 16 * i, 16 * i + 16);
      assert r.bytes[16..] == DecryptFrom(c, z, sum, s[16..]).bytes;
    }
  }

  lemma {:induction false} DecryptLast(c: Cipher, offset: u128, checksum: u128, s: seq<byte>)
    ensures LastBlockIs(c, offset, s, DecryptFrom(c, offset, checksum, s).bytes)
    decreases |s|
  {
    hide Xor128, S2, FieldDouble, ToBytes, FromBytes, LastOpened, Xor;
    var r := DecryptFrom(c, offset, checksum, s);
    if |s| > 16 {
      var z := S2(offset);
      var sum := Xor128(checksum, Xor128(c.decrypt(Xor128(z, FromBytes(s[..16]))), z));
      DecryptLast(c, z, sum, s[16..]);
      assert r.bytes[16..] == DecryptFrom(c, z, sum, s[16..]).bytes;
      DropBlock(c, offset, s);
      DropBlock(c, offset, r.bytes);
    } else {
      OpenedAlone(c, offset, checksum, s);
    }
  }

  lemma {:induction false} OpenedAlone(c: Cipher, offset: u128, checksum: u128, s: seq<byte>)
    requires |s| <= 16
    ensures LastBlockIs(c, offset, s, DecryptFrom(c, offset, checksum, s).bytes)
  {
    hide Xor128, S2, FieldDouble, ToBytes, FromBytes, LastOpened, Xor, Doubled, DecryptFrom, LastPad, LastBlock;
    var r := DecryptFrom(c, offset, checksum, s);
    DecryptEnd(c, offset, checksum, s);
    AloneInBlock(c, offset, s);
    AloneInBlock(c, offset, r.bytes);
    forall i | 0 <= i < |s|
      ensures r.bytes[i] == Xor(s[i], ToBytes(LastPad(c, offset, |s|))[i])
    {
      LastBlockBytes(LastPad(c, offset, |s|), s, i);
    }
  }

  lemma {:induction false} DecryptTag(c: Cipher, offset: u128, checksum: u128, s: seq<byte>)
    ensures var r := DecryptFrom(c, offset, checksum, s);
      TagIs(c, offset, checksum, r.bytes, r.tag)
    decreases |s|
  {
    hide Xor128, S2, FieldDouble, ToBytes, FromBytes, LastOpened;
    var r, z := DecryptFrom(c, offset, checksum, s), S2(offset);
    if |s| > 16 {
      var plain := Xor128(c.decrypt(Xor128(z, FromBytes(s[..16]))), z);
      var rest := DecryptFrom(c, z, Xor128(checksum, plain), s[16..]);
      DecryptTag(c, z, Xor128(checksum, plain), s[16..]);
      assert r.bytes[16..] == rest.bytes && r.bytes[0..16] == ToBytes(plain) && r.tag == rest.tag;
      BlockRoundTrip(plain);
      DropBlock(c, offset, r.bytes);
      hide LastPad, LastBlock, BlockSum, FullBlocks;
      DoubledFront(offset, FullBlocks(|s|));
      BlockSumTail(checksum, r.bytes, FullBlocks(|s|) - 1);
    } else {
      LastTagOpened(c, offset, checksum, s);
    }
  }

  lemma {:induction false} LastTagOpened(c: Cipher, offset: u128, checksum: u128, s: seq<byte>)
    requires |s| <= 16
    ensures var r := DecryptFrom(c, offset, checksum, s);
      TagIs(c, offset, checksum, r.bytes, r.tag)
  {
    hide Xor128, S2, FieldDouble, ToBytes, FromBytes, LastOpened;
    var r, z := DecryptFrom(c, offset, checksum, s), S2(offset);
    var pad := Pad(c, z, |s|);
    assert LastBlock(r.bytes) == r.bytes;
    DoubledOnce(offset);
    S2IsFieldDouble(z);
    LastBlockEncrypted(pad, s);
    BlockRoundTrip(LastPlain(pad, r.bytes));
    BlockRoundTrip(LastOpened(pad, s));
  }

  /** The decrypting loop computes the same mode from the other side, for any pair of block functions. */
  lemma {:induction false} DecryptIsOcb(c: Cipher, offset: u128, checksum: u128, s: seq<byte>)
    ensures IsOcbOpened(c, offset, checksum, s, DecryptFrom(c, offset, checksum, s))
  {
    forall i | 0 <= i < FullBlocks(|s|)
      ensures FullBlockOpens(c, offset, s, DecryptFrom(c, offset, checksum, s).bytes, i)
    {
      DecryptFull(c, offset, checksum, s, i);
    }
    DecryptLast(c, offset, checksum, s);
    DecryptTag(c, offset, checksum, s);
  }

  // ----- In place, under a nonce -----

  function Reverse(s: seq<byte>): (r: seq<byte>)
    ensures |r| == |s|
  {
    seq(|s|, i requires 0 <= i < |s| => s[|s| - 1 - i])
  }

  /** `u128::from_le_bytes`. */
  function FromLittleEndian(s: seq<byte>): u128
    requires |s| == BLOCK_SIZE
  {
    FromBytes(Reverse(s))
  }

  /** The block that carries a nonce: its bytes least significant first. */
  function NonceBlock(nonce: u128): u128 {
    FromLittleEndian(ToBytes(nonce))
  }

  function Encrypt(c: Cipher, nonce: u128, s: seq<byte>): Pass {
    EncryptFrom(c, c.encrypt(NonceBlock(nonce)), 0, s)
  }

  function Decrypt(c: Cipher, nonce: u128, s: seq<byte>): Pass {
    DecryptFrom(c, c.encrypt(NonceBlock(nonce)), 0, s)
  }

  /** The block of a nonce: its byte `i`, counting from the least significant, stands at place `i`. */
  ghost predicate CarriesNonce(block: u128, nonce: u128) {
    forall i :: 0 <= i < BLOCK_SIZE ==> ToBytes(block)[i] == nonce / Pow256(i) % 0x100
  }

  lemma {:induction false} NonceBlockBytes(nonce: u128)
    ensures CarriesNonce(NonceBlock(nonce), nonce)
  {
    hide BytesOf, FromBytes;
    BytesRoundTrip(Reverse(ToBytes(nonce)));
    forall i | 0 <= i < BLOCK_SIZE
      ensures ToBytes(NonceBlock(nonce))[i] == nonce / Pow256(i) % 0x100
    {
      ByteAt(nonce, BLOCK_SIZE, BLOCK_SIZE - 1 - i);
    }
  }

  /** Byte `i` of the little-endian form is digit `i`, counting from the least significant. */
  lemma {:induction false} LittleEndianDigits(s: seq<byte>, i: nat)
    requires |s| == BLOCK_SIZE && i < BLOCK_SIZE
    ensures FromLittleEndian(s) / Pow256(i) % 0x100 == s[i]
  {
    hide BytesOf, FromBytes;
    BytesRoundTrip(Reverse(s));
    ByteAt(FromLittleEndian(s), BLOCK_SIZE, BLOCK_SIZE - 1 - i);
  }

  lemma {:induction false} AllLittleEndianDigits(s: seq<byte>)
    requires |s| == BLOCK_SIZE
    ensures forall i :: 0 <= i < 0x10 ==> FromLittleEndian(s) / Pow256(i) % 0x100 == s[i]
  {
    hide FromLittleEndian, Pow256;
    forall i | 0 <= i < 0x10
      ensures FromLittleEndian(s) / Pow256(i) % 0x100 == s[i]
    {
      LittleEndianDigits(s, i);
    }
  }

  /** Both directions of the mode under a nonce are OCB2 from the encrypted block of that nonce. */
  lemma {:induction false} ModeIsOcb(c: Cipher, nonce: u128, block: u128, s: seq<byte>)
    requires CarriesNonce(block, nonce)
    ensures IsOcb(c, c.encrypt(block), 0, s, Encrypt(c, nonce, s))
    ensures IsOcbOpened(c, c.encrypt(block), 0, s, Decrypt(c, nonce, s))
  {
    hide ToBytes, FromBytes, IsOcb, IsOcbOpened;
    NonceBlockBytes(nonce);
    assert ToBytes(block) == ToBytes(NonceBlock(nonce));
    BlockRoundTrip(block);
    BlockRoundTrip(NonceBlock(nonce));
    EncryptIsOcb(c, c.encrypt(block), 0, s);
    DecryptIsOcb(c, c.encrypt(block), 0, s);
  }

  lemma {:induction false} ModeIsOcbForAll(c: Cipher, nonce: u128, s: seq<byte>)
    ensures forall block :: CarriesNonce(block, nonce) ==> IsOcb(c, c.encrypt(block), 0, s, Encrypt(c, nonce, s))
    ensures forall block :: CarriesNonce(block, nonce) ==> IsOcbOpened(c, c.encrypt(block), 0, s, Decrypt(c, nonce, s))
  {
    hide CarriesNonce, IsOcb, IsOcbOpened, Encrypt, Decrypt;
    forall block: u128 | CarriesNonce(block, nonce)
      ensures IsOcb(c, c.encrypt(block), 0, s, Encrypt(c, nonce, s))
      ensures IsOcbOpened(c, c.encrypt(block), 0, s, Decrypt(c, nonce, s))
    {
      ModeIsOcb(c, nonce, block, s);
    }
  }

  /** Under the same key and nonce each direction undoes the other and agrees on the tag. */
  lemma {:induction false} ModeRoundTrip(c: Cipher, nonce: u128, s: seq<byte>)
    requires Inverse(c)
    ensures Decrypt(c, nonce, Encrypt(c, nonce, s).bytes) == Pass(s, Encrypt(c, nonce, s).tag)
    ensures Encrypt(c, nonce, Decrypt(c, nonce, s).bytes) == Pass(s, Decrypt(c, nonce, s).tag)
  {
    DecryptUndoesEncrypt(c, c.encrypt(NonceBlock(nonce)), 0, s);
    EncryptUndoesDecrypt(c, c.encrypt(NonceBlock(nonce)), 0, s);
  }

  /** Different nonces start from different offsets. */
  lemma {:induction false} OffsetsDiffer(c: Cipher, m: u128, n: u128)
    requires Inverse(c) && m != n
    ensures c.encrypt(NonceBlock(m)) != c.encrypt(NonceBlock(n))
  {
    hide ToBytes, FromBytes;
    if c.encrypt(NonceBlock(m)) == c.encrypt(NonceBlock(n)) {
      assert NonceBlock(m) == c.decrypt(c.encrypt(NonceBlock(m))) == NonceBlock(n);
      var a, b := ToBytes(m), ToBytes(n);
      BytesRoundTrip(Reverse(a));
      BytesRoundTrip(Reverse(b));
      assert Reverse(a) == Reverse(b);
      forall i | 0 <= i < BLOCK_SIZE
        ensures a[i] == b[i]
      {
        assert Reverse(a)[BLOCK_SIZE - 1 - i] == a[i] && Reverse(b)[BLOCK_SIZE - 1 - i] == b[i];
      }
      assert a == b;
      BlockRoundTrip(m);
      BlockRoundTrip(n);
    }
  }

  // ----- In place -----

  lemma {:induction false} EncryptStep(c: Cipher, offset: u128, checksum: u128, s: seq<byte>)
    requires |s| > BLOCK_SIZE
    ensures var z, plain := S2(offset), FromBytes(s[..BLOCK_SIZE]);
      var rest := EncryptFrom(c, z, Xor128(checksum, plain), s[BLOCK_SIZE..]);
      EncryptFrom(c, offset, checksum, s) == Pass(ToBytes(Xor128(c.encrypt(Xor128(z, plain)), z)) + rest.bytes, rest.tag)
  {
    hide Xor128, S2, ToBytes, FromBytes;
  }

  lemma {:induction false} EncryptEnd(c: Cipher, offset: u128, checksum: u128, s: seq<byte>)
    requires |s| <= BLOCK_SIZE
    ensures var z := S2(offset);
      var pad := c.encrypt(Xor128(|s| * 8, z));
      var plain := LastPlain(pad, s);
      EncryptFrom(c, offset, checksum, s) ==
      Pass(ToBytes(Xor128(pad, plain))[..|s|], c.encrypt(Xor128(Xor128(z, S2(z)), Xor128(checksum, plain))))
  {
    hide Xor128, S2, ToBytes, FromBytes, LastPlain;
  }

  lemma {:induction false} DecryptStep(c: Cipher, offset: u128, checksum: u128, s: seq<byte>)
    requires |s| > BLOCK_SIZE
    ensures var z := S2(offset);
      var plain := Xor128(c.decrypt(Xor128(z, FromBytes(s[..BLOCK_SIZE]))), z);
      var rest := DecryptFrom(c, z, Xor128(checksum, plain), s[BLOCK_SIZE..]);
      DecryptFrom(c, offset, checksum, s) == Pass(ToBytes(plain) + rest.bytes, rest.tag)
  {
    hide Xor128, S2, ToBytes, FromBytes;
  }

  lemma {:induction false} DecryptEnd(c: Cipher, offset: u128, checksum: u128, s: seq<byte>)
    requires |s| <= BLOCK_SIZE
    ensures var z := S2(offset);
      var pad := c.encrypt(Xor128(|s| * 8, z));
      var plain := LastOpened(pad, s);
      DecryptFrom(c, offset, checksum, s) ==
      Pass(ToBytes(plain)[..|s|], c.encrypt(Xor128(Xor128(z, S2(z)), Xor128(checksum, plain))))
  {
    hide Xor128, S2, ToBytes, FromBytes, LastOpened;
  }

  method OcbEncrypt(c: Cipher, nonce: u128, buf: array<byte>) returns (tag: u128)
    modifies buf
    ensures Pass(buf[..], tag) == Encrypt(c, nonce, old(buf[..]))
    ensures forall block :: CarriesNonce(block, nonce) ==>
      IsOcb(c, c.encrypt(block), 0, old(buf[..]), Pass(buf[..], tag))
  {
    hide Xor128, S2, ToBytes, FromBytes, NonceBlock, EncryptFrom, LastPlain, IsOcb, CarriesNonce, Xor;
    ghost var s := buf[..];
    var offset := c.encrypt(NonceBlock(nonce));
    var checksum: u128 := 0;
    var k := 0;
    while buf.Length - k > BLOCK_SIZE
      invariant 0 <= k <= buf.Length
      invariant buf[k..] == s[k..]
      invariant var rest := EncryptFrom(c, offset, checksum, s[k..]);
        Encrypt(c, nonce, s) == Pass(buf[..k] + rest.bytes, rest.tag)
    {
      ghost var done := buf[..k];
      assert s[k..][..BLOCK_SIZE] == buf[k..k + BLOCK_SIZE] && s[k..][BLOCK_SIZE..] == s[k + BLOCK_SIZE..];
      EncryptStep(c, offset, checksum, s[k..]);
      offset := S2(offset);
      var plain := FromBytes(buf[k..k + BLOCK_SIZE]);
      var block := ToBytes(Xor128(c.encrypt(Xor128(offset, plain)), offset));
      Store(buf, k, block);
      checksum := Xor128(checksum, plain);
      k := k + BLOCK_SIZE;
      Assoc(done, block, EncryptFrom(c, offset, checksum, s[k..]).bytes);
    }
    ghost var done := buf[..k];
    EncryptEnd(c, offset, checksum, s[k..]);
    offset := S2(offset);
    var len := buf.Length - k;
    var pad := c.encrypt(Xor128(len * 8, offset));
    var plain := LastPlain(pad, buf[k..]);
    var block := ToBytes(Xor128(pad, plain))[..len];
    Store(buf, k, block);
    assert buf[..] == done + block;
    checksum := Xor128(checksum, plain);
    tag := c.encrypt(Xor128(Xor128(offset, S2(offset)), checksum));
    ModeIsOcbForAll(c, nonce, s);
  }

  method OcbDecrypt(c: Cipher, nonce: u128, buf: array<byte>) returns (tag: u128)
    modifies buf
    ensures Pass(buf[..], tag) == Decrypt(c, nonce, old(buf[..]))
    ensures forall block :: CarriesNonce(block, nonce) ==>
      IsOcbOpened(c, c.encrypt(block), 0, old(buf[..]), Pass(buf[..], tag))
  {
    hide Xor128, S2, ToBytes, FromBytes, NonceBlock, DecryptFrom, LastOpened, IsOcbOpened, CarriesNonce;
    ghost var s := buf[..];
    var offset := c.encrypt(NonceBlock(nonce));
    var checksum: u128 := 0;
    var k := 0;
    while buf.Length - k > BLOCK_SIZE
      invariant 0 <= k <= buf.Length
      invariant buf[k..] == s[k..]
      invariant var rest := DecryptFrom(c, offset, checksum, s[k..]);
        Decrypt(c, nonce, s) == Pass(buf[..k] + rest.bytes, rest.tag)
    {
      ghost var done := buf[..k];
      assert s[k..][..BLOCK_SIZE] == buf[k..k + BLOCK_SIZE] && s[k..][BLOCK_SIZE..] == s[k + BLOCK_SIZE..];
      DecryptStep(c, offset, checksum, s[k..]);
      offset := S2(offset);
      var plain := Xor128(c.decrypt(Xor128(offset, FromBytes(buf[k..k + BLOCK_SIZE]))), offset);
      var block := ToBytes(plain);
      Store(buf, k, block);
      checksum := Xor128(checksum, plain);
      k := k + BLOCK_SIZE;
      Assoc(done, block, DecryptFrom(c, offset, checksum, s[k..]).bytes);
    }
    ghost var done := buf[..k];
    DecryptEnd(c, offset, checksum, s[k..]);
    offset := S2(offset);
    var len := buf.Length - k;
    var pad := c.encrypt(Xor128(len * 8, offset));
    var plain := LastOpened(pad, buf[k..]);
    var block := ToBytes(plain)[..len];
    Store(buf, k, block);
    assert buf[..] == done + block;
    checksum := Xor128(checksum, plain);
    tag := c.encrypt(Xor128(Xor128(offset, S2(offset)), checksum));
    ModeIsOcbForAll(c, nonce, s);
  }

  /** `copy_from_slice` at position `k`. */
  method Store(buf: array<byte>, k: nat, block: seq<byte>)
    requires k + |block| <= buf.Length
    modifies buf
    ensures buf[..k] == old(buf[..k])
    ensures buf[k..k + |block|] == block
    ensures buf[k + |block|..] == old(buf[k + |block|..])
    ensures buf[..k + |block|] == old(buf[..k]) + block
  {
    forall i | 0 <= i < |block| {
      buf[k + i] := block[i];
    }
  }
}
