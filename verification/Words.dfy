/**
 * Machine words as bounded integers, exclusive or on them, and the big-endian byte form of
 * 128-bit words. A shift or a mask by a constant is written as division and remainder.
 */
module Words {

  const TWO8: nat := 0x100
  const TWO32: nat := 0x1_0000_0000
  const TWO127: nat := 0x8000_0000_0000_0000_0000_0000_0000_0000
  const TWO128: nat := 0x1_0000_0000_0000_0000_0000_0000_0000_0000

  type byte = x: int | 0 <= x < 0x100
  type u32 = x: int | 0 <= x < 0x1_0000_0000
  type u64 = x: int | 0 <= x < 0x1_0000_0000_0000_0000
  type u128 = x: int | 0 <= x < 0x1_0000_0000_0000_0000_0000_0000_0000_0000

  const BLOCK_SIZE: nat := 16

  lemma {:induction false} Assoc<T>(a: seq<T>, b: seq<T>, c: seq<T>)
    ensures a + b + c == a + (b + c)
  {
  }

  // ----- Exclusive or -----

  function Xor(a: nat, b: nat): (r: nat)
    decreases a + b
  {
    if a == 0 && b == 0 then 0 else 2 * Xor(a / 2, b / 2) + (if a % 2 == b % 2 then 0 else 1)
  }

  lemma {:induction false} XorZero(a: nat)
    ensures Xor(a, 0) == a
  {
    if a > 0 {
      XorZero(a / 2);
    }
  }

  lemma {:induction false} XorSelf(a: nat)
    ensures Xor(a, a) == 0
  {
    if a > 0 {
      XorSelf(a / 2);
    }
  }

  lemma {:induction false} XorComm(a: nat, b: nat)
    ensures Xor(a, b) == Xor(b, a)
    decreases a + b
  {
    if a + b > 0 {
      XorComm(a / 2, b / 2);
    }
  }

  lemma {:induction false} XorAssoc(a: nat, b: nat, c: nat)
    ensures Xor(Xor(a, b), c) == Xor(a, Xor(b, c))
    decreases a + b + c
  {
    if a + b + c > 0 {
      XorAssoc(a / 2, b / 2, c / 2);
      XorHalves(a, b);
      XorHalves(b, c);
      XorHalves(Xor(a, b), c);
      XorHalves(a, Xor(b, c));
    }
  }

  /** One unfolding, also where both words are zero. */
  lemma {:induction false} XorHalves(a: nat, b: nat)
    ensures Xor(a, b) / 2 == Xor(a / 2, b / 2)
    ensures Xor(a, b) % 2 == (if a % 2 == b % 2 then 0 else 1)
  {
  }

  /** Applying the same word twice gives back the start, on either side. */
  lemma {:induction false} XorCancel(a: nat, b: nat)
    ensures Xor(Xor(a, b), b) == a
    ensures Xor(b, Xor(a, b)) == a
  {
    XorAssoc(a, b, b);
    XorSelf(b);
    XorZero(a);
    XorComm(b, Xor(a, b));
  }

  function Pow2(k: nat): (p: nat)
    ensures p > 0
  {
    if k == 0 then 1 else 2 * Pow2(k - 1)
  }

  lemma {:induction false} Pow2Values()
    ensures Pow2(8) == TWO8 && Pow2(127) == TWO127 && Pow2(128) == TWO128
  {
    Pow2Small();
    hide Pow2;
    Pow2Add(32, 32);
    Pow2Add(64, 64);
    Pow2Add(1, 127);
  }

  lemma {:induction false} Pow2Small()
    ensures Pow2(1) == 2 && Pow2(8) == TWO8 && Pow2(32) == TWO32
  {
    assert Pow2(4) == 16;
    hide Pow2;
    Pow2Add(4, 4);
    Pow2Add(8, 8);
    Pow2Add(16, 16);
  }

  lemma {:induction false} Pow2Add(a: nat, b: nat)
    ensures Pow2(a + b) == Pow2(a) * Pow2(b)
  {
    if a > 0 {
      Pow2Add(a - 1, b);
    }
  }

  /** Exclusive or works on the high and the low part of a word separately. */
  lemma {:induction false} XorSplit(k: nat, a: nat, b: nat, x: nat, y: nat)
    requires x < Pow2(k) && y < Pow2(k)
    ensures Xor(a * Pow2(k) + x, b * Pow2(k) + y) == Xor(a, b) * Pow2(k) + Xor(x, y)
    ensures Xor(x, y) < Pow2(k)
    decreases k
  {
    hide Xor;
    if k == 0 {
      XorSelf(0);
    } else {
      var p, q := Pow2(k - 1), Pow2(k);
      XorSplit(k - 1, a, b, x / 2, y / 2);
      Double(a, p, q, x);
      Double(b, p, q, y);
      Double(Xor(a, b), p, q, 0);
      var u, v := a * q + x, b * q + y;
      Recombine(u, v, x, y, Xor(a, b) * p, p);
    }
  }

  lemma {:induction false} Double(a: nat, p: nat, q: nat, x: nat)
    requires q == 2 * p
    ensures a * q == 2 * (a * p) >= 0
    ensures (a * q + x) / 2 == a * p + x / 2
    ensures (a * q + x) % 2 == x % 2
  {
    assert a * q == 2 * (a * p);
  }

  lemma {:induction false} Recombine(u: nat, v: nat, x: nat, y: nat, h: nat, p: nat)
    requires u % 2 == x % 2 && v % 2 == y % 2
    requires Xor(u / 2, v / 2) == h + Xor(x / 2, y / 2)
    requires Xor(x / 2, y / 2) < p
    ensures Xor(u, v) == 2 * h + Xor(x, y)
    ensures Xor(x, y) < 2 * p
  {
    XorHalves(u, v);
    XorHalves(x, y);
  }

  lemma {:induction false} XorBound(x: u128, y: u128)
    ensures Xor(x, y) < TWO128
  {
    Pow2Values();
    XorSplit(128, 0, 0, x, y);
  }

  function Xor128(x: u128, y: u128): (r: u128) {
    XorBound(x, y);
    Xor(x, y)
  }

  lemma {:induction false} XorLowByte(x: nat, y: nat)
    ensures Xor(x, y) / 0x100 == Xor(x / 0x100, y / 0x100)
    ensures Xor(x, y) % 0x100 == Xor(x % 0x100, y % 0x100)
  {
    assert Pow2(8) == 0x100 by { Pow2Values(); }
    XorSplit(8, x / 0x100, y / 0x100, x % 0x100, y % 0x100);
  }

  // ----- Big-endian bytes -----

  /** The low `n` bytes of `x`, most significant first. */
  function BytesOf(x: nat, n: nat): (s: seq<byte>)
    ensures |s| == n
    decreases n
  {
    if n == 0 then [] else BytesOf(x / 0x100, n - 1) + [x % 0x100]
  }

  /** Byte `i` is the digit with that many more significant ones. */
  lemma {:induction false} ByteAt(x: nat, n: nat, i: nat)
    requires i < n
    ensures BytesOf(x, n)[i] == x / Pow256(n - 1 - i) % 0x100
    decreases n
  {
    if i < n - 1 {
      ByteAt(x / 0x100, n - 1, i);
      DivideTwice(x, 0x100, Pow256(n - 2 - i));
    }
  }

  lemma {:induction false} DivideTwice(x: nat, a: nat, b: nat)
    requires a > 0 && b > 0
    ensures a * b > 0 && x / a / b == x / (a * b)
  {
    var q, r := x / a / b, x / a % b;
    assert x == a * (x / a) + x % a && x / a == b * q + r;
    assert a * (b * q + r) == a * b * q + a * r;
    assert x == a * b * q + (a * r + x % a);
    assert r <= b - 1;
    assert a * r <= a * (b - 1);
    Quotient(x, a * b, q, a * r + x % a);
  }

  lemma {:induction false} Quotient(x: int, d: int, q: int, r: int)
    requires 0 <= r < d && x == d * q + r
    ensures x / d == q
  {
    var k := x / d - q;
    assert d * k == d * (x / d) - d * q;
    assert d * k == r - x % d;
    SmallMultiple(d, k);
  }

  lemma {:induction false} SmallMultiple(d: int, k: int)
    requires d > 0 && -d < d * k < d
    ensures k == 0
  {
    if k >= 1 {
      AtLeastOnce(d, k);
    } else if k <= -1 {
      assert d * k == -(d * -k);
      AtLeastOnce(d, -k);
    }
  }

  lemma {:induction false} AtLeastOnce(d: int, k: int)
    requires d > 0 && k >= 1
    ensures d * k >= d
  {
    if k > 1 {
      AtLeastOnce(d, k - 1);
      assert d * k == d * (k - 1) + d;
    }
  }

  /** The number whose big-endian bytes are `s`. */
  function NumberOf(s: seq<byte>): (x: nat)
    ensures x < Pow256(|s|)
  {
    if s == [] then 0 else NumberOf(s[..|s| - 1]) * 0x100 + s[|s| - 1]
  }

  function Pow256(n: nat): (p: nat)
    ensures p > 0
  {
    if n == 0 then 1 else 0x100 * Pow256(n - 1)
  }

  lemma {:induction false} Pow256Block()
    ensures Pow256(16) == TWO128
  {
    assert Pow256(4) == 0x1_0000_0000;
    assert Pow256(8) == 0x1_0000_0000_0000_0000;
    assert Pow256(12) == 0x1_0000_0000_0000_0000_0000_0000;
  }

  /** `u128::to_be_bytes`. */
  function ToBytes(x: u128): (s: seq<byte>)
    ensures |s| == BLOCK_SIZE
  {
    BytesOf(x, BLOCK_SIZE)
  }

  /** `u128::from_be_bytes`. */
  function FromBytes(s: seq<byte>): (x: u128)
    requires |s| == BLOCK_SIZE
  {
    Pow256Block();
    NumberOf(s)
  }

  lemma {:induction false} NumberOfBytesOf(x: nat, n: nat)
    requires x < Pow256(n)
    ensures NumberOf(BytesOf(x, n)) == x
    decreases n
  {
    if n > 0 {
      NumberOfBytesOf(x / 0x100, n - 1);
      assert BytesOf(x, n)[..n - 1] == BytesOf(x / 0x100, n - 1);
    }
  }

  lemma {:induction false} BytesOfNumberOf(s: seq<byte>)
    ensures BytesOf(NumberOf(s), |s|) == s
  {
    if s != [] {
      BytesOfNumberOf(s[..|s| - 1]);
    }
  }

  /** Sixteen bytes and a 128-bit word determine each other. */
  lemma {:induction false} BlockRoundTrip(x: u128)
    ensures FromBytes(ToBytes(x)) == x
  {
    Pow256Block();
    NumberOfBytesOf(x, BLOCK_SIZE);
  }

  lemma {:induction false} BytesRoundTrip(s: seq<byte>)
    requires |s| == BLOCK_SIZE
    ensures ToBytes(FromBytes(s)) == s
  {
    BytesOfNumberOf(s);
  }

  /** The leading byte is the most significant digit. */
  lemma {:induction false} LeadingByte(s: seq<byte>)
    requires s != []
    ensures NumberOf(s) == s[0] * Pow256(|s| - 1) + NumberOf(s[1..])
  {
    if |s| > 1 {
      var front := s[..|s| - 1];
      LeadingByte(front);
      assert s[1..][..|s| - 2] == front[1..];
      Scale(s[0], Pow256(|s| - 2), NumberOf(front[1..]));
    }
  }

  lemma {:induction false} Scale(a: int, p: int, b: int)
    ensures (a * p + b) * 0x100 == a * (0x100 * p) + b * 0x100
  {
  }

  /** The value of a few bytes, as shifts and ors give it. */
  lemma {:induction false} Number2(a: byte, b: byte)
    ensures NumberOf([a]) == a
    ensures NumberOf([a, b]) == 0x100 * (a as int) + b
  {
    assert [a, b][..1] == [a];
  }

  lemma {:induction false} Number3(a: byte, b: byte, c: byte)
    ensures NumberOf([a, b, c]) == 0x1_0000 * (a as int) + 0x100 * (b as int) + c
  {
    Number2(a, b);
    assert [a, b, c][..2] == [a, b];
  }

  lemma {:induction false} Number4(a: byte, b: byte, c: byte, d: byte)
    ensures NumberOf([a, b, c, d]) == 0x100_0000 * (a as int) + 0x1_0000 * (b as int) + 0x100 * (c as int) + d
  {
    Number3(a, b, c);
    assert [a, b, c, d][..3] == [a, b, c];
  }

  lemma {:induction false} NumberAppend(s: seq<byte>, t: seq<byte>)
    ensures NumberOf(s + t) == NumberOf(s) * Pow256(|t|) + NumberOf(t)
  {
    if t == [] {
      assert s + t == s;
    } else {
      var front := t[..|t| - 1];
      NumberAppend(s, front);
      assert (s + t)[..|s + t| - 1] == s + front;
      Scale(NumberOf(s), Pow256(|front|), NumberOf(front));
    }
  }

  /** Exclusive or acts byte by byte. */
  lemma {:induction false} XorBytesOf(x: nat, y: nat, n: nat, i: nat)
    requires i < n
    ensures BytesOf(Xor(x, y), n)[i] == Xor(BytesOf(x, n)[i], BytesOf(y, n)[i])
    decreases n
  {
    XorLowByte(x, y);
    if i < n - 1 {
      XorBytesOf(x / 0x100, y / 0x100, n - 1, i);
    }
  }
}
