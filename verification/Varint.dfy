/** Mumble's variable-length integers: 1 to 5, 9 or 10 bytes for a 64-bit value. */
module Varint {
  import opened Words
  import opened Wrappers

  datatype ReadResult = Truncated | Read(value: u64, rest: seq<byte>)

  const MAX: u64 := 0xffff_ffff_ffff_ffff

  /** The bitwise complement of a 64-bit value. */
  function Not(v: u64): u64 {
    MAX - v
  }

  // ----- The wire format -----

  /** Bytes of the form that starts with `b0`; a complement prefix counts alone. */
  function FormLength(b0: byte): (n: nat)
    ensures 1 <= n <= 9
  {
    if b0 < 0x80 then 1       // 0xxxxxxx
    else if b0 < 0xc0 then 2  // 10xxxxxx
    else if b0 < 0xe0 then 3  // 110xxxxx
    else if b0 < 0xf0 then 4  // 1110xxxx
    else if b0 < 0xf4 then 5  // 111100xx
    else if b0 < 0xf8 then 9  // 111101xx
    else 1                    // 111110xx, 111111xx
  }

  predicate IsComplement(b0: byte) {
    0xf8 <= b0 < 0xfc
  }

  /** What the tag bits of a form of `n` bytes add to its big-endian value. */
  function TagWeight(n: nat): nat {
    if n == 2 then 0x8000 else if n == 3 then 0xc0_0000 else if n == 4 then 0xe000_0000 else 0
  }

  function FormValue(f: seq<byte>): (v: u64)
    requires f != [] && |f| == FormLength(f[0]) && !IsComplement(f[0])
  {
    if f[0] >= 0xfc then Not(f[0] - 0xfc)
    else FormBounds(f); if |f| <= 4 then NumberOf(f) - TagWeight(|f|)
    else NumberOf(f[1..])
  }

  /** The first value that a form of `n` bytes cannot hold. */
  function Limit(n: nat): nat {
    if n == 1 then 0x80 else if n == 2 then 0x4000 else if n == 3 then 0x20_0000
    else if n == 4 then 0x1000_0000 else if n == 5 then 0x1_0000_0000 else 0x1_0000_0000_0000_0000
  }

  lemma {:induction false} FormBounds(f: seq<byte>)
    requires f != [] && |f| == FormLength(f[0]) && f[0] < 0xf8
    ensures |f| <= 4 ==> TagWeight(|f|) <= NumberOf(f) < TagWeight(|f|) + Limit(|f|)
    ensures |f| > 4 ==> NumberOf(f[1..]) < Limit(|f|)
  {
    LeadingByte(f);
    Powers();
    FormRange(|f|, f[0], Pow256(|f| - 1), NumberOf(f[1..]));
  }

  lemma {:induction false} FormRange(n: nat, lead: byte, p: nat, low: nat)
    requires n == FormLength(lead) && lead < 0xf8 && low < p
    requires n == 1 ==> p == 1
    requires n == 2 ==> p == 0x100
    requires n == 3 ==> p == 0x1_0000
    requires n == 4 ==> p == 0x100_0000
    ensures n <= 4 ==> TagWeight(n) <= lead * p + low < TagWeight(n) + Limit(n)
  {
  }

  lemma {:induction false} Powers()
    ensures Pow256(1) == 0x100 && Pow256(2) == 0x1_0000 && Pow256(3) == 0x100_0000
    ensures Pow256(4) == 0x1_0000_0000 && Pow256(8) == 0x1_0000_0000_0000_0000
  {
  }

  /** What reading a varint finds at the front of `s`. */
  function Decode(s: seq<byte>): (r: ReadResult)
    ensures r.Read? ==> |r.rest| < |s| && r.rest == s[|s| - |r.rest|..]
  {
    if s == [] then Truncated
    else if IsComplement(s[0]) then
      (match Decode(s[1..])
       case Truncated => Truncated
       case Read(v, rest) => Read(Not(v), rest))
    else
      var n := FormLength(s[0]);
      if |s| < n then Truncated else Read(FormValue(s[..n]), s[n..])
  }

  /** What writing `v` appends. */
  function Encode(v: u64): (s: seq<byte>)
    ensures s != []
    decreases v > 0x7fff_ffff_ffff_ffff
  {
    if v >= MAX - 3 then [0xfc + Not(v)]
    else if v > 0x7fff_ffff_ffff_ffff then [0xf8] + Encode(Not(v))
    else EncodeForm(v)
  }

  function FormFor(v: u64): (n: nat) {
    if v > 0xffff_ffff then 9
    else if v > 0x0fff_ffff then 5
    else if v > 0x001f_ffff then 4
    else if v > 0x3fff then 3
    else if v > 0x7f then 2
    else 1
  }

  /** Two to four low bytes of `v`, most significant first. */
  function Low2(v: nat): seq<byte> {
    [v / 0x100 % 0x100, v % 0x100]
  }

  function Low3(v: nat): seq<byte> {
    [v / 0x1_0000 % 0x100] + Low2(v)
  }

  function Low4(v: nat): (s: seq<byte>)
    ensures |s| == 4
  {
    [v / 0x100_0000 % 0x100] + Low3(v)
  }

  function EncodeForm(v: u64): (s: seq<byte>)
    ensures |s| == FormFor(v)
  {
    if v > 0xffff_ffff then [0xf4] + Low4(v / 0x1_0000_0000) + Low4(v)
    else if v > 0x0fff_ffff then [0xf0] + Low4(v)
    else if v > 0x001f_ffff then [0xe0 + v / 0x100_0000] + Low3(v)
    else if v > 0x3fff then [0xc0 + v / 0x1_0000] + Low2(v)
    else if v > 0x7f then [0x80 + v / 0x100, v % 0x100]
    else [v]
  }

  /**
   * The format, byte by byte: how long each form is and how its bytes make up the value. The two low
   * bits of the first byte of the five- and nine-byte forms and of the complement are ignored.
   */
  lemma {:induction false} Layout(s: seq<byte>)
    ensures s == [] ==> Decode(s) == Truncated
    ensures s != [] && s[0] < 0x80 ==> Decode(s) == Read(s[0], s[1..])
    ensures s != [] && 0x80 <= s[0] < 0xc0 ==>
      Decode(s) == if |s| < 2 then Truncated else Read(0x100 * (s[0] as int - 0x80) + s[1], s[2..])
    ensures s != [] && 0xc0 <= s[0] < 0xe0 ==>
      Decode(s) == if |s| < 3 then Truncated
                   else Read(0x1_0000 * (s[0] as int - 0xc0) + 0x100 * s[1] as int + s[2], s[3..])
    ensures s != [] && 0xe0 <= s[0] < 0xf0 ==>
      Decode(s) == if |s| < 4 then Truncated
                   else Read(0x100_0000 * (s[0] as int - 0xe0) + 0x1_0000 * s[1] as int + 0x100 * s[2] as int + s[3], s[4..])
    ensures s != [] && 0xfc <= s[0] ==> Decode(s) == Read(0xffff_ffff_ffff_ffff - (s[0] as int - 0xfc), s[1..])
    ensures s != [] && 0xf8 <= s[0] < 0xfc ==>
      Decode(s) == match Decode(s[1..])
                   case Truncated => Truncated
                   case Read(v, rest) => Read(0xffff_ffff_ffff_ffff - v, rest)
  {
    hide NumberOf;
    if s == [] || s[0] >= 0xf0 {
    } else if s[0] < 0x80 {
      Number2(s[0], 0);
      assert s[..1] == [s[0]];
    } else if s[0] < 0xc0 && |s| >= 2 {
      Number2(s[0], s[1]);
      assert s[..2] == [s[0], s[1]];
    } else if 0xc0 <= s[0] < 0xe0 && |s| >= 3 {
      Number3(s[0], s[1], s[2]);
      assert s[..3] == [s[0], s[1], s[2]];
    } else if 0xe0 <= s[0] && |s| >= 4 {
      Number4(s[0], s[1], s[2], s[3]);
      assert s[..4] == [s[0], s[1], s[2], s[3]];
    }
  }

  /** The same for the two forms whose value stands in the bytes after the first. */
  lemma {:induction false} LongLayout(s: seq<byte>)
    requires s != [] && 0xf0 <= s[0] < 0xf8
    ensures s[0] < 0xf4 ==>
      Decode(s) == if |s| < 5 then Truncated else
        Read(0x100_0000 * s[1] as int + 0x1_0000 * s[2] as int + 0x100 * s[3] as int + s[4], s[5..])
    ensures s[0] >= 0xf4 ==>
      Decode(s) == if |s| < 9 then Truncated else
        Read(0x1_0000_0000 * (0x100_0000 * s[1] as int + 0x1_0000 * s[2] as int + 0x100 * s[3] as int + s[4]) +
             (0x100_0000 * s[5] as int + 0x1_0000 * s[6] as int + 0x100 * s[7] as int + s[8]), s[9..])
  {
    hide NumberOf;
    if |s| >= 5 {
      Number4(s[1], s[2], s[3], s[4]);
      assert s[1..5] == [s[1], s[2], s[3], s[4]] && s[..5][1..] == s[1..5];
    }
    if s[0] >= 0xf4 && |s| >= 9 {
      Number4(s[5], s[6], s[7], s[8]);
      assert s[5..9] == [s[5], s[6], s[7], s[8]];
      DecodeNine(s);
    }
  }

  /** What the first three bytes decide. */
  lemma {:induction false} ShortLayout(s: seq<byte>)
    ensures s == [] ==> Decode(s) == Truncated
    ensures s != [] && s[0] < 0x80 ==> Decode(s) == Read(s[0], s[1..])
    ensures s != [] && 0x80 <= s[0] < 0xc0 ==>
      Decode(s) == if |s| < 2 then Truncated else Read(0x100 * (s[0] as int - 0x80) + s[1], s[2..])
    ensures s != [] && 0xc0 <= s[0] < 0xe0 ==>
      Decode(s) == if |s| < 3 then Truncated
                   else Read(0x1_0000 * (s[0] as int - 0xc0) + 0x100 * s[1] as int + s[2], s[3..])
    ensures s != [] && 0xe0 <= s[0] < 0xf8 && |s| < 3 ==> Decode(s) == Truncated
    ensures s != [] && 0xfc <= s[0] ==> Decode(s) == Read(Not(s[0] - 0xfc), s[1..])
    ensures s != [] && 0xf8 <= s[0] < 0xfc ==>
      (Decode(s[1..]).Truncated? ==> Decode(s) == Truncated) &&
      (Decode(s[1..]).Read? ==> Decode(s) == Read(Not(Decode(s[1..]).value), Decode(s[1..]).rest))
  {
    hide Decode;
    Layout(s);
    if s != [] && 0xf0 <= s[0] < 0xf8 {
      LongLayout(s);
    }
  }

  /** The first byte of what is written, for each range of values. */
  lemma {:induction false} FirstByte(v: u64)
    ensures var b := Encode(v)[0];
      && (v <= 0x7f ==> b == v)
      && (0x7f < v <= 0x3fff ==> b == 0x80 + v / 0x100)
      && (0x3fff < v <= 0x1f_ffff ==> b == 0xc0 + v / 0x1_0000)
      && (0x1f_ffff < v <= 0xfff_ffff ==> b == 0xe0 + v / 0x100_0000)
      && (0xfff_ffff < v <= 0xffff_ffff ==> b == 0xf0)
      && (0xffff_ffff < v <= 0x7fff_ffff_ffff_ffff ==> b == 0xf4)
      && (0x7fff_ffff_ffff_ffff < v <= 0xffff_ffff_ffff_fffb ==> b == 0xf8)
      && (0xffff_ffff_ffff_fffc <= v ==> b == 0xfc + (0xffff_ffff_ffff_ffff - v))
  {
    hide Low4, Low3, Low2;
  }

  // ----- Round trip -----

  lemma {:induction false} LowValue2(v: nat)
    ensures NumberOf(Low2(v)) == v % 0x1_0000
  {
    Number2(v / 0x100 % 0x100, v % 0x100);
  }

  lemma {:induction false} LowValue3(v: nat)
    ensures NumberOf(Low3(v)) == v % 0x100_0000
  {
    LowValue2(v);
    LeadingByte(Low3(v));
    Powers();
    NextDigit(v, 0x1_0000);
  }

  lemma {:induction false} LowValue4(v: nat)
    ensures NumberOf(Low4(v)) == v % 0x1_0000_0000
  {
    LowValue3(v);
    LeadingByte(Low4(v));
    Powers();
    NextDigit(v, 0x100_0000);
  }

  lemma {:induction false} NextDigit(v: nat, p: nat)
    requires p == 0x1_0000 || p == 0x100_0000
    ensures (v / p % 0x100) * p + v % p == v % (0x100 * p)
  {
  }

  lemma {:induction false} TaggedForm(v: u64, lead: byte, low: seq<byte>)
    requires FormFor(v) <= 4 && |low| == FormFor(v) - 1
    requires FormLength(lead) == FormFor(v) && lead < 0xf8
    requires lead * Pow256(|low|) + NumberOf(low) == v + TagWeight(FormFor(v))
    ensures FormValue([lead] + low) == v
  {
    LeadingByte([lead] + low);
    assert ([lead] + low)[1..] == low;
  }

  lemma {:induction false} NineRoundTrip(v: u64)
    ensures var f := [0xf4] + Low4(v / 0x1_0000_0000) + Low4(v);
      f[1..] == Low4(v / 0x1_0000_0000) + Low4(v) && NumberOf(f[1..]) == v
  {
    hide NumberOf, Low4;
    var hi, lo := Low4(v / 0x1_0000_0000), Low4(v);
    LowValue4(v / 0x1_0000_0000);
    LowValue4(v);
    NumberAppend(hi, lo);
    Powers();
    Assoc([0xf4], hi, lo);
  }

  lemma {:induction false} TaggedRoundTrip(v: u64)
    requires v <= 0x0fff_ffff
    ensures var f := EncodeForm(v);
      |f| == FormLength(f[0]) && f[0] < 0xf8 && FormValue(f) == v
  {
    hide NumberOf;
    Powers();
    if v > 0x001f_ffff {
      LowValue3(v);
      TaggedForm(v, 0xe0 + v / 0x100_0000, Low3(v));
    } else if v > 0x3fff {
      LowValue2(v);
      TaggedForm(v, 0xc0 + v / 0x1_0000, Low2(v));
    } else if v > 0x7f {
      Number2(v % 0x100, 0);
      TaggedForm(v, 0x80 + v / 0x100, [v % 0x100]);
      assert EncodeForm(v) == [0x80 + v / 0x100] + [v % 0x100];
    } else {
      Number2(v, 0);
    }
  }

  lemma {:induction false} FormRoundTrip(v: u64)
    ensures var f := EncodeForm(v);
      |f| == FormLength(f[0]) && f[0] < 0xf8 && FormValue(f) == v
  {
    hide NumberOf;
    if v > 0xffff_ffff {
      NineRoundTrip(v);
    } else if v > 0x0fff_ffff {
      LowValue4(v);
      assert ([0xf0] + Low4(v))[1..] == Low4(v);
    } else {
      TaggedRoundTrip(v);
    }
  }

  lemma {:induction false} DecodeForm(f: seq<byte>, suffix: seq<byte>)
    requires f != [] && |f| == FormLength(f[0]) && !IsComplement(f[0])
    ensures Decode(f + suffix) == Read(FormValue(f), suffix)
  {
    assert (f + suffix)[..|f|] == f && (f + suffix)[|f|..] == suffix;
  }

  lemma {:induction false} DecodeComplement(t: seq<byte>, v: u64, suffix: seq<byte>)
    requires Decode(t) == Read(Not(v), suffix)
    ensures Decode([0xf8] + t) == Read(v, suffix)
  {
    assert ([0xf8] + t)[1..] == t;
  }

  lemma {:induction false} RoundTripForm(v: u64, suffix: seq<byte>)
    requires v <= 0x7fff_ffff_ffff_ffff
    ensures Decode(Encode(v) + suffix) == Read(v, suffix)
  {
    FormRoundTrip(v);
    DecodeForm(EncodeForm(v), suffix);
  }

  lemma {:induction false} RoundTripComplement(v: u64, suffix: seq<byte>)
    requires 0x7fff_ffff_ffff_ffff < v < MAX - 3
    ensures Decode(Encode(v) + suffix) == Read(v, suffix)
  {
    var t := Encode(Not(v));
    RoundTripForm(Not(v), suffix);
    DecodeComplement(t + suffix, v, suffix);
    Assoc([0xf8], t, suffix);
  }

  /** Reading what was written gives the value back and leaves what follows. */
  lemma {:induction false} RoundTrip(v: u64, suffix: seq<byte>)
    ensures Decode(Encode(v) + suffix) == Read(v, suffix)
  {
    if v >= MAX - 3 {
      DecodeForm([0xfc + Not(v)], suffix);
    } else if v > 0x7fff_ffff_ffff_ffff {
      RoundTripComplement(v, suffix);
    } else {
      RoundTripForm(v, suffix);
    }
  }

  // ----- Length -----

  predicate TopBit(v: u64) {
    v > 0x7fff_ffff_ffff_ffff
  }

  /** Values whose complement needs the nine-byte form: written as that complement, they take ten bytes. */
  predicate Wide(v: u64) {
    TopBit(v) && Not(v) > 0xffff_ffff
  }

  /** The fewest bytes that read as `v`. */
  function MinLength(v: u64): nat {
    if Wide(v) then 9 else |Encode(v)|
  }

  lemma {:induction false} EncodeLength(v: u64)
    ensures |Encode(v)| == if v >= MAX - 3 then 1 else if TopBit(v) then 1 + FormFor(Not(v)) else FormFor(v)
    ensures |Encode(v)| <= 10
    ensures |Encode(v)| == 10 <==> Wide(v)
  {
    assert TopBit(v) ==> !TopBit(Not(v));
  }

  lemma {:induction false} NoShorter(s: seq<byte>)
    ensures var r := Decode(s);
      r.Read? ==> |s| - |r.rest| >= MinLength(r.value)
  {
    var r := Decode(s);
    if r.Read? {
      EncodeLength(r.value);
      if IsComplement(s[0]) {
        NoShorter(s[1..]);
        EncodeLength(Not(r.value));
      } else {
        var f := s[..FormLength(s[0])];
        if f[0] < 0xf8 {
          FormBounds(f);
        }
      }
    }
  }

  /** A string of the minimal length that reads as `v`. */
  lemma {:induction false} Shortest(v: u64) returns (s: seq<byte>)
    ensures Decode(s) == Read(v, []) && |s| == MinLength(v)
  {
    if Wide(v) {
      s := [0xf4] + BytesOf(v, 8);
      Powers();
      NumberOfBytesOf(v, 8);
      assert s[..9] == s && s[1..] == BytesOf(v, 8);
    } else {
      s := Encode(v);
      RoundTrip(v, []);
      assert s + [] == s;
    }
  }

  ghost predicate ShortestEncoding(v: u64) {
    forall s :: Decode(s).Read? && Decode(s).value == v ==> |s| - |Decode(s).rest| >= |Encode(v)|
  }

  /** The written form is the shortest one exactly for the values that are not `Wide`. */
  lemma {:induction false} EncodingMinimalIff(v: u64)
    ensures ShortestEncoding(v) <==> !Wide(v)
  {
    EncodeLength(v);
    if Wide(v) {
      var s := Shortest(v);
      assert |s| - |Decode(s).rest| < |Encode(v)|;
    } else {
      forall s | Decode(s).Read? && Decode(s).value == v
        ensures |s| - |Decode(s).rest| >= |Encode(v)|
      {
        NoShorter(s);
      }
    }
  }

  // ----- Reader and writer -----

  lemma {:induction false} DecodeNine(s: seq<byte>)
    requires |s| >= 9 && 0xf4 <= s[0] < 0xf8
    ensures NumberOf(s[1..5]) * 0x1_0000_0000 + NumberOf(s[5..9]) < 0x1_0000_0000_0000_0000
    ensures Decode(s) == Read(NumberOf(s[1..5]) * 0x1_0000_0000 + NumberOf(s[5..9]), s[9..])
  {
    var f := s[..9];
    assert f[1..] == s[1..5] + s[5..9];
    NumberAppend(s[1..5], s[5..9]);
    Powers();
    FormBounds(f);
  }

  /** A byte source; `data` is what is left to read. */
  class Reader {
    var data: seq<byte>

    constructor (bytes: seq<byte>)
      ensures data == bytes
    {
      data := bytes;
    }

    method ReadByte() returns (r: Option<byte>)
      modifies this
      ensures old(data) == [] ==> r == None && data == []
      ensures old(data) != [] ==> r == Some(old(data)[0]) && data == old(data)[1..]
    {
      if data == [] {
        return None;
      }
      r := Some(data[0]);
      data := data[1..];
    }

    /** Splits off the first `n` bytes. */
    method Take(n: nat) returns (bytes: seq<byte>)
      requires n <= |data|
      modifies this
      ensures bytes == old(data)[..n] && data == old(data)[n..]
    {
      bytes := data[..n];
      data := data[n..];
    }

    /** Reads one varint byte by byte; a source that ends too early is left empty. */
    method ReadVarint() returns (r: Option<u64>)
      modifies this
      ensures Decode(old(data)).Truncated? ==> r == None && data == []
      ensures Decode(old(data)).Read? ==> r == Some(Decode(old(data)).value) && data == Decode(old(data)).rest
      decreases |data|
    {
      hide Decode;
      ghost var s := data;
      ShortLayout(s);
      var b0 := ReadByte();
      if b0.None? {
        return None;
      }
      if b0.value / 4 == 62 {
        var inner := ReadVarint();
        return if inner.None? then None else Some(Not(inner.value));
      }
      if b0.value / 4 == 63 {
        return Some(Not(b0.value % 4));
      }
      if b0.value < 0x80 {
        return Some(b0.value);
      }
      var b1 := ReadByte();
      if b1.None? {
        return None;
      }
      if b0.value / 0x40 % 2 == 0 {
        return Some(0x100 * (b0.value % 0x40) as int + b1.value);
      }
      var b2 := ReadByte();
      if b2.None? {
        return None;
      }
      if b0.value / 0x20 % 2 == 0 {
        return Some(0x1_0000 * (b0.value % 0x20) as int + 0x100 * b1.value as int + b2.value);
      }
      r := ReadLong(b0.value, b1.value, b2.value, s);
    }

    /** The forms of four, five and nine bytes, after their first three bytes. */
    method ReadLong(b0: byte, b1: byte, b2: byte, ghost s: seq<byte>) returns (r: Option<u64>)
      requires 0xe0 <= b0 < 0xf8 && |s| >= 3 && s[..3] == [b0, b1, b2] && data == s[3..]
      modifies this
      ensures Decode(s).Truncated? ==> r == None && data == []
      ensures Decode(s).Read? ==> r == Some(Decode(s).value) && data == Decode(s).rest
    {
      hide Decode;
      Layout(s);
      if b0 >= 0xf0 {
        LongLayout(s);
      }
      var b3 := ReadByte();
      if b3.None? {
        return None;
      }
      if b0 / 0x10 % 2 == 0 {
        return Some(0x100_0000 * (b0 % 0x10) as int + 0x1_0000 * b1 as int + 0x100 * b2 as int + b3.value);
      }
      var b4 := ReadByte();
      if b4.None? {
        return None;
      }
      var high := 0x100_0000 * b1 as int + 0x1_0000 * b2 as int + 0x100 * b3.value as int + b4.value;
      if b0 / 4 % 2 == 0 {
        return Some(high);
      }
      assert data == s[5..];
      var low := ReadWord();
      if low.None? {
        return None;
      }
      r := Some(high * 0x1_0000_0000 + low.value);
    }

    /** Four bytes, most significant first. */
    method ReadWord() returns (r: Option<u32>)
      modifies this
      ensures |old(data)| < 4 ==> r == None && data == []
      ensures |old(data)| >= 4 ==> var s := old(data);
        r == Some(0x100_0000 * s[0] as int + 0x1_0000 * s[1] as int + 0x100 * s[2] as int + s[3]) && data == s[4..]
    {
      var a := ReadByte();
      var b := ReadByte();
      var c := ReadByte();
      var d := ReadByte();
      if d.None? {
        return None;
      }
      r := Some(0x100_0000 * a.value as int + 0x1_0000 * b.value as int + 0x100 * c.value as int + d.value);
    }
  }

  /** A growing byte buffer. */
  class Writer {
    var data: seq<byte>

    constructor ()
      ensures data == []
    {
      data := [];
    }

    method WriteByte(b: byte)
      modifies this
      ensures data == old(data) + [b]
    {
      data := data + [b];
    }

    method WriteBytes(bytes: seq<byte>)
      modifies this
      ensures data == old(data) + bytes
    {
      data := data + bytes;
    }

    method WriteVarint(v: u64)
      modifies this
      ensures data == old(data) + Encode(v)
      decreases v > 0x7fff_ffff_ffff_ffff, 1
    {
      hide EncodeForm;
      if v >= MAX - 3 {
        WriteByte(0xfc + Not(v));
      } else if v > 0x7fff_ffff_ffff_ffff {
        WriteByte(0xf8);
        WriteVarint(Not(v));
      } else {
        WriteForm(v);
      }
    }

    method WriteForm(v: u64)
      modifies this
      ensures data == old(data) + EncodeForm(v)
    {
      hide Low4, Low3, Low2;
      ghost var start := data;
      if v > 0xffff_ffff {
        WriteByte(0xf4);
        WriteLow4(v / 0x1_0000_0000);
        WriteLow4(v);
        Assoc(start, [0xf4], Low4(v / 0x1_0000_0000));
        Assoc(start, [0xf4] + Low4(v / 0x1_0000_0000), Low4(v));
      } else if v > 0x0fff_ffff {
        WriteByte(0xf0);
        WriteLow4(v);
        Assoc(start, [0xf0], Low4(v));
      } else if v > 0x001f_ffff {
        WriteByte(0xe0 + v / 0x100_0000);
        WriteLow3(v);
        Assoc(start, [0xe0 + v / 0x100_0000], Low3(v));
      } else if v > 0x3fff {
        WriteByte(0xc0 + v / 0x1_0000);
        WriteLow2(v);
        Assoc(start, [0xc0 + v / 0x1_0000], Low2(v));
      } else if v > 0x7f {
        WriteByte(0x80 + v / 0x100);
        WriteByte(v % 0x100);
      } else {
        WriteByte(v);
      }
    }

    method WriteLow4(v: u64)
      modifies this
      ensures data == old(data) + Low4(v)
    {
      WriteByte(v / 0x100_0000 % 0x100);
      WriteLow3(v);
    }

    method WriteLow3(v: u64)
      modifies this
      ensures data == old(data) + Low3(v)
    {
      WriteByte(v / 0x1_0000 % 0x100);
      WriteLow2(v);
    }

    method WriteLow2(v: u64)
      modifies this
      ensures data == old(data) + Low2(v)
    {
      WriteByte(v / 0x100 % 0x100);
      WriteByte(v % 0x100);
    }
  }
}
