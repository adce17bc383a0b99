/**
 Fixed-width integers as bytes: the little-endian helpers of
 include/lota_endian.h and include/lota_seal.h, and the big-endian ones of
 src/agent/enroll.c. C integer widths are subset types of int, so every
 truncating cast of the source is an explicit `%`.
 */
module ByteCodec {

  type Byte = b: int | 0 <= b < 0x100
  type U16 = v: int | 0 <= v < 0x1_0000
  type U32 = v: int | 0 <= v < 0x1_0000_0000
  type U64 = v: int | 0 <= v < 0x1_0000_0000_0000_0000
  type Bytes = seq<Byte>

  datatype Option<+T> = None | Some(value: T)

  const U32_RANGE := 0x1_0000_0000
  const U64_MAX: int := 0xFFFF_FFFF_FFFF_FFFF

  function Le16(v: U16): (r: Bytes)
    ensures |r| == 2
  {
    [v % 0x100, v / 0x100]
  }

  function Le32(v: U32): (r: Bytes)
    ensures |r| == 4
  {
    Le16(v % 0x1_0000) + Le16(v / 0x1_0000)
  }

  function Le64(v: U64): (r: Bytes)
    ensures |r| == 8
  {
    Le32(v % U32_RANGE) + Le32(v / U32_RANGE)
  }

  function Be16(v: U16): (r: Bytes)
    ensures |r| == 2
  {
    [v / 0x100, v % 0x100]
  }

  function Be32(v: U32): (r: Bytes)
    ensures |r| == 4
  {
    Be16(v / 0x1_0000) + Be16(v % 0x1_0000)
  }

  /** The integer with the given base-256 digits, least significant first. */
  function Join16(b0: Byte, b1: Byte): (v: U16) {
    (b0 as int) + 0x100 * (b1 as int)
  }

  function Join32(b0: Byte, b1: Byte, b2: Byte, b3: Byte): (v: U32) {
    (Join16(b0, b1) as int) + 0x1_0000 * (Join16(b2, b3) as int)
  }

  function ReadLe16(s: Bytes, at: nat): U16
    requires at + 2 <= |s|
  {
    Join16(s[at], s[at + 1])
  }

  function ReadLe32(s: Bytes, at: nat): U32
    requires at + 4 <= |s|
  {
    Join32(s[at], s[at + 1], s[at + 2], s[at + 3])
  }

  function ReadLe64(s: Bytes, at: nat): U64
    requires at + 8 <= |s|
  {
    (ReadLe32(s, at) as int) + U32_RANGE * (ReadLe32(s, at + 4) as int)
  }

  function ReadBe16(s: Bytes, at: nat): U16
    requires at + 2 <= |s|
  {
    Join16(s[at + 1], s[at])
  }

  function ReadBe32(s: Bytes, at: nat): U32
    requires at + 4 <= |s|
  {
    Join32(s[at + 3], s[at + 2], s[at + 1], s[at])
  }

  /** Digits are unique: two digits in base 0x1_0000 are fixed by the number they make. */
  lemma HalvesUnique(lo: U16, hi: U16, v: U32)
    ensures (lo as int) + 0x1_0000 * (hi as int) == v <==> lo == v % 0x1_0000 && hi == v / 0x1_0000
  {
  }

  /** Little-endian: the digits in base 256, least significant first. */
  lemma LittleEndian(a: U16, b: U32, c: U64)
    ensures var r: seq<int> := Le16(a); a == r[0] + 0x100 * r[1]
    ensures var r: seq<int> := Le32(b); b == r[0] + 0x100 * r[1] + 0x1_0000 * r[2] + 0x100_0000 * r[3]
    ensures var r := Le64(c);
            && r[..4] == Le32(c % U32_RANGE) && r[4..] == Le32(c / U32_RANGE)
            && c == c % U32_RANGE + U32_RANGE * (c / U32_RANGE)
  {
  }

  /** Big-endian: most significant first. */
  lemma BigEndian(a: U16, b: U32)
    ensures var r: seq<int> := Be16(a); a == 0x100 * r[0] + r[1]
    ensures var r: seq<int> := Be32(b); b == 0x100_0000 * r[0] + 0x1_0000 * r[1] + 0x100 * r[2] + r[3]
  {
  }

  /** Reading 16 bits at `at` is the exact inverse of writing them there. */
  lemma Le16RoundTrip(s: Bytes, at: nat, v: U16)
    requires at + 2 <= |s|
    ensures ReadLe16(s, at) == v <==> s[at..at + 2] == Le16(v)
  {
    assert s[at..at + 2] == [s[at], s[at + 1]];
  }

  lemma Le32RoundTrip(s: Bytes, at: nat, v: U32)
    requires at + 4 <= |s|
    ensures ReadLe32(s, at) == v <==> s[at..at + 4] == Le32(v)
  {
    assert s[at..at + 4] == [s[at], s[at + 1], s[at + 2], s[at + 3]];
    var lo, hi := v % 0x1_0000, v / 0x1_0000;
    HalvesUnique(Join16(s[at], s[at + 1]), Join16(s[at + 2], s[at + 3]), v);
    Le16RoundTrip(s, at, lo);
    Le16RoundTrip(s, at + 2, hi);
  }

  lemma Le64RoundTrip(s: Bytes, at: nat, v: U64)
    requires at + 8 <= |s|
    ensures ReadLe64(s, at) == v <==> s[at..at + 8] == Le64(v)
  {
    Le32RoundTrip(s, at, v % U32_RANGE);
    Le32RoundTrip(s, at + 4, v / U32_RANGE);
    assert s[at..at + 8] == s[at..at + 4] + s[at + 4..at + 8];
    if s[at..at + 8] == Le64(v) {
      SplitEqual(s[at..at + 4], s[at + 4..at + 8], Le32(v % U32_RANGE), Le32(v / U32_RANGE));
    }
  }

  lemma Be16RoundTrip(s: Bytes, at: nat, v: U16)
    requires at + 2 <= |s|
    ensures ReadBe16(s, at) == v <==> s[at..at + 2] == Be16(v)
  {
    assert s[at..at + 2] == [s[at], s[at + 1]];
  }

  lemma Be32RoundTrip(s: Bytes, at: nat, v: U32)
    requires at + 4 <= |s|
    ensures ReadBe32(s, at) == v <==> s[at..at + 4] == Be32(v)
  {
    assert s[at..at + 4] == [s[at], s[at + 1], s[at + 2], s[at + 3]];
    var lo, hi := v % 0x1_0000, v / 0x1_0000;
    HalvesUnique(Join16(s[at + 3], s[at + 2]), Join16(s[at + 1], s[at]), v);
    Be16RoundTrip(s, at, hi);
    Be16RoundTrip(s, at + 2, lo);
  }

  lemma Le32Injective(a: U32, b: U32)
    ensures Le32(a) == Le32(b) ==> a == b
  {
    Le32RoundTrip(Le32(a), 0, a);
    Le32RoundTrip(Le32(b), 0, b);
  }

  lemma Le64Injective(a: U64, b: U64)
    ensures Le64(a) == Le64(b) ==> a == b
  {
    Le64RoundTrip(Le64(a), 0, a);
    Le64RoundTrip(Le64(b), 0, b);
    assert Le64(a)[0..8] == Le64(a) && Le64(b)[0..8] == Le64(b);
  }

  lemma Associative<T>(a: seq<T>, b: seq<T>, c: seq<T>)
    ensures a + (b + c) == a + b + c
  {
  }

  /** Two concatenations with equally long heads split the same way. */
  lemma SplitEqual<T>(a: seq<T>, x: seq<T>, b: seq<T>, y: seq<T>)
    requires |a| == |b|
    requires a + x == b + y
    ensures a == b && x == y
  {
    assert a == (a + x)[..|a|] && b == (b + y)[..|b|];
    assert x == (a + x)[|a|..] && y == (b + y)[|b|..];
  }

  /** A range holds a concatenation exactly when its two parts hold the two pieces. */
  lemma ConcatAt(s: Bytes, lo: nat, a: Bytes, b: Bytes)
    requires lo + |a| + |b| <= |s|
    ensures s[lo..lo + |a| + |b|] == a + b <==> s[lo..lo + |a|] == a && s[lo + |a|..lo + |a| + |b|] == b
  {
    var mid, hi := lo + |a|, lo + |a| + |b|;
    assert s[lo..hi] == s[lo..mid] + s[mid..hi];
    if s[lo..hi] == a + b {
      SplitEqual(s[lo..mid], s[mid..hi], a, b);
    }
  }

  lemma FourAt(s: Bytes, lo: nat, a: Bytes, b: Bytes, c: Bytes, d: Bytes)
    requires lo + |a| + |b| + |c| + |d| <= |s|
    ensures s[lo..lo + |a| + |b| + |c| + |d|] == a + b + c + d <==>
            && s[lo..lo + |a|] == a && s[lo + |a|..lo + |a| + |b|] == b
            && s[lo + |a| + |b|..lo + |a| + |b| + |c|] == c
            && s[lo + |a| + |b| + |c|..lo + |a| + |b| + |c| + |d|] == d
  {
    ConcatAt(s, lo, a, b);
    ConcatAt(s, lo, a + b, c);
    ConcatAt(s, lo, a + b + c, d);
  }

  /** ASCII text as bytes, for domain separators. */
  function Ascii(s: string): (r: Bytes)
    ensures |r| == |s|
  {
    seq(|s|, i requires 0 <= i < |s| => (s[i] as int) % 0x100)
  }
}
