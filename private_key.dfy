/** Decoding of the configured private key (src/Restake-AXS.ts, lines 101-102).

    The key string loses its first two characters (the `0x` prefix, which is not
    checked), the rest is cut into chunks of two characters with a last chunk of one
    when the length is odd, each chunk is read as a hexadecimal number, and the numbers
    become a byte buffer that must hold exactly 32 bytes. */
module PrivateKey {
  import opened Wrappers

  /** A value of a Node.js Buffer element. */
  type Byte = x: int | 0 <= x < 256

  /** Length the decoded buffer must have. */
  const KeyLength: int := 32

  predicate IsHexDigit(c: char) {
    '0' <= c <= '9' || 'a' <= c <= 'f' || 'A' <= c <= 'F'
  }

  /** Every character is a hexadecimal digit. */
  predicate AllHex(s: string) {
    forall i :: 0 <= i < |s| ==> IsHexDigit(s[i])
  }

  /** The sixteen digits in order of value, in either case. */
  const LowerDigits: string := "0123456789abcdef"
  const UpperDigits: string := "0123456789ABCDEF"

  /** The value parseInt gives one hexadecimal digit. */
  function HexDigitValue(c: char): (v: int)
    requires IsHexDigit(c)
    ensures 0 <= v < 16
  {
    if c <= '9' then c as int - '0' as int
    else if c <= 'F' then c as int - 'A' as int + 10
    else c as int - 'a' as int + 10
  }

  /** A digit's value is its place in the digit list, whatever its case. */
  lemma HexDigitPlace(c: char)
    requires IsHexDigit(c)
    ensures LowerDigits[HexDigitValue(c)] == c || UpperDigits[HexDigitValue(c)] == c
  {
  }

  /** The lower-case digit for a value below 16. */
  function LowerHexDigit(v: int): (c: char)
    requires 0 <= v < 16
    ensures IsHexDigit(c) && HexDigitValue(c) == v
  {
    if v < 10 then ('0' as int + v) as char else ('a' as int + v - 10) as char
  }

  /** `substring(2)`: JavaScript clamps the index, so a key shorter than two
      characters leaves the empty string. */
  function Body(key: string): (r: string)
    ensures |key| >= 2 ==> key[..2] + r == key
    ensures |key| < 2 ==> r == ""
  {
    if |key| < 2 then "" else key[2..]
  }

  /** Joins chunks back into one string. */
  function Flatten(cs: seq<string>): string {
    if cs == [] then "" else cs[0] + Flatten(cs[1..])
  }

  /** The global match of one or two characters, on a string of hexadecimal digits: the matches are
      the two-character pieces from the left, and a last piece of one character when
      the length is odd; no match (the empty string) gives the empty list. */
  function Chunks(s: string): (cs: seq<string>)
    ensures |cs| == (|s| + 1) / 2
    ensures forall i :: 0 <= i < |cs| ==> |cs[i]| == 2 || (i == |cs| - 1 && |cs[i]| == 1)
  {
    if |s| <= 2 then
      if s == [] then [] else [s]
    else
      [s[..2]] + Chunks(s[2..])
  }

  /** Joining the chunks gives back the string. */
  lemma {:induction false} FlattenChunks(s: string)
    ensures Flatten(Chunks(s)) == s
    decreases |s|
  {
    if |s| > 2 {
      FlattenChunks(s[2..]);
      assert Chunks(s) == [s[..2]] + Chunks(s[2..]);
      assert Chunks(s)[1..] == Chunks(s[2..]);
      assert s == s[..2] + s[2..];
    }
  }

  /** A chunk `parseInt` reads as a hexadecimal number without stopping early. */
  predicate HexChunk(chunk: string) {
    1 <= |chunk| <= 2 && AllHex(chunk)
  }

  /** A string of hexadecimal digits read as a base-16 numeral, most significant
      digit first. */
  function HexValue(s: string): nat
    requires AllHex(s)
    decreases |s|
  {
    if s == [] then 0 else 16 * HexValue(s[..|s| - 1]) + HexDigitValue(s[|s| - 1])
  }

  /** parseInt with radix 16, on one or two hexadecimal digits. */
  function ParseHex(chunk: string): (v: int)
    requires HexChunk(chunk)
    ensures 0 <= v < 256
    ensures |chunk| == 1 ==> v < 16
  {
    if |chunk| == 1 then HexDigitValue(chunk[0])
    else 16 * HexDigitValue(chunk[0]) + HexDigitValue(chunk[1])
  }

  /** parseInt reads a chunk as the base-16 numeral it is. */
  lemma ParseHexIsNumeral(chunk: string)
    requires HexChunk(chunk)
    ensures ParseHex(chunk) == HexValue(chunk)
  {
    assert chunk[..1][..0] == [] && chunk[..1][0] == chunk[0];
    assert HexValue(chunk[..1]) == HexDigitValue(chunk[0]);
  }

  /** The map of parseInt over the chunks. */
  function ParseAll(cs: seq<string>): (vs: seq<int>)
    requires forall i :: 0 <= i < |cs| ==> HexChunk(cs[i])
    ensures |vs| == |cs|
    ensures forall i :: 0 <= i < |cs| ==> vs[i] == ParseHex(cs[i])
  {
    if cs == [] then [] else [ParseHex(cs[0])] + ParseAll(cs[1..])
  }

  /** Buffer.from on an array: each number is stored as its low eight bits, which for an
      integer is its remainder modulo 256. */
  function BufferFrom(values: seq<int>): (bytes: seq<Byte>)
    ensures |bytes| == |values|
    ensures forall i :: 0 <= i < |values| ==> bytes[i] == values[i] % 256
    ensures forall i :: 0 <= i < |values| && 0 <= values[i] < 256 ==> bytes[i] == values[i]
  {
    if values == [] then [] else [values[0] % 256] + BufferFrom(values[1..])
  }

  /** The buffer built from the key, before its length is checked. */
  function KeyBytes(key: string): (bytes: seq<Byte>)
    requires AllHex(Body(key))
    ensures |bytes| == (|Body(key)| + 1) / 2
  {
    ChunksOfHex(Body(key));
    BufferFrom(ParseAll(Chunks(Body(key))))
  }

  /** A slice of a suffix is the slice of the whole string shifted by the cut. */
  lemma SliceOfSuffix(s: string, d: int, lo: int, hi: int)
    requires 0 <= d <= |s| && 0 <= lo <= hi <= |s| - d
    ensures s[d..][lo..hi] == s[lo + d .. hi + d]
  {
    assert |s[d..][lo..hi]| == |s[lo + d .. hi + d]|;
    forall p | 0 <= p < hi - lo ensures s[d..][lo..hi][p] == s[lo + d .. hi + d][p] {
      assert s[d..][lo..hi][p] == s[d..][lo + p] == s[lo + p + d];
    }
  }

  /** A slice inside the front part of a concatenation is the slice of that part. */
  lemma SliceOfFront(a: string, b: string, lo: int, hi: int)
    requires 0 <= lo <= hi <= |a|
    ensures (a + b)[lo..hi] == a[lo..hi]
  {
    assert (a + b)[..|a|] == a;
    assert (a + b)[lo..hi] == (a + b)[..|a|][lo..hi];
  }

  /** Where chunk `i` of a string of length `n` ends. */
  function ChunkEnd(n: int, i: int): int {
    if 2 * i + 2 <= n then 2 * i + 2 else n
  }

  /** Chunk `i` is the slice of `s` that starts at `2 * i` and holds two characters,
      or one at the end of an odd-length string. */
  lemma {:induction false} ChunkAt(s: string, i: int)
    requires 0 <= i < |Chunks(s)|
    ensures 2 * i < ChunkEnd(|s|, i) <= |s|
    ensures Chunks(s)[i] == s[2 * i .. ChunkEnd(|s|, i)]
    decreases i
  {
    if |s| <= 2 {
      assert s != [] && Chunks(s) == [s] && i == 0;
      assert s[0 .. |s|] == s;
    } else {
      var tail := s[2..];
      assert Chunks(s) == [s[..2]] + Chunks(tail);
      if i > 0 {
        ChunkAt(tail, i - 1);
        var e := ChunkEnd(|tail|, i - 1);
        assert e + 2 == ChunkEnd(|s|, i);
        SliceOfSuffix(s, 2, 2 * (i - 1), e);
      }
    }
  }

  /** The chunks of a string of hexadecimal digits are numbers parseInt reads whole. */
  lemma ChunksOfHex(s: string)
    requires AllHex(s)
    ensures forall i :: 0 <= i < |Chunks(s)| ==> HexChunk(Chunks(s)[i])
  {
    forall i | 0 <= i < |Chunks(s)| ensures HexChunk(Chunks(s)[i]) {
      ChunkAt(s, i);
    }
  }

  /** Byte `i` of the buffer is the value of the `i`-th pair of digits after the prefix. */
  lemma KeyBytesAt(key: string, i: int)
    requires AllHex(Body(key))
    requires 0 <= i < (|Body(key)| + 1) / 2
    ensures 2 * i < ChunkEnd(|Body(key)|, i) <= |Body(key)|
    ensures HexChunk(Body(key)[2 * i .. ChunkEnd(|Body(key)|, i)])
    ensures KeyBytes(key)[i] == ParseHex(Body(key)[2 * i .. ChunkEnd(|Body(key)|, i)])
  {
    var body := Body(key);
    var cs := Chunks(body);
    ChunkAt(body, i);
    ChunksOfHex(body);
    var vs := ParseAll(cs);
    assert HexChunk(cs[i]);
    assert vs[i] == ParseHex(cs[i]);
    assert KeyBytes(key) == BufferFrom(vs);
  }

  /** Outcome of the key check: the 32 bytes, or the length of a buffer of any other
      size (the assertion of line 102 fails). */
  function DecodeKey(key: string): (r: Result<seq<Byte>, nat>)
    requires AllHex(Body(key))
    ensures r.Ok? <==> |Body(key)| == 2 * KeyLength || |Body(key)| == 2 * KeyLength - 1
    ensures r.Ok? ==> |r.value| == KeyLength && r.value == KeyBytes(key)
    ensures r.Err? ==> r.error == (|Body(key)| + 1) / 2
  {
    var buffer := KeyBytes(key);
    if |buffer| == KeyLength then Ok(buffer) else Err(|buffer|)
  }

  /** Two lower-case hexadecimal digits for a byte. */
  function HexByte(b: Byte): (s: string)
    ensures |s| == 2 && AllHex(s) && ParseHex(s) == b
  {
    [LowerHexDigit(b / 16), LowerHexDigit(b % 16)]
  }

  /** A byte string written as hexadecimal, two digits per byte. */
  function ToHex(bytes: seq<Byte>): (s: string)
    ensures |s| == 2 * |bytes| && AllHex(s)
  {
    if bytes == [] then "" else HexByte(bytes[0]) + ToHex(bytes[1..])
  }

  /** Slice `i` of the hexadecimal text is the text of byte `i`. */
  lemma {:induction false} ToHexAt(bytes: seq<Byte>, i: int)
    requires 0 <= i < |bytes|
    ensures ToHex(bytes)[2 * i .. 2 * i + 2] == HexByte(bytes[i])
  {
    if i > 0 {
      ToHexAt(bytes[1..], i - 1);
      assert ToHex(bytes) == HexByte(bytes[0]) + ToHex(bytes[1..]);
      assert ToHex(bytes)[2 * i .. 2 * i + 2] == ToHex(bytes[1..])[2 * (i - 1) .. 2 * (i - 1) + 2];
    }
  }

  /** A character JavaScript stores in one UTF-16 code unit, so that `substring`
      counts it as one character. */
  predicate OneCodeUnit(c: char) {
    c as int < 0x1_0000
  }

  /** A 32-byte key written as a two-character prefix and 64 hexadecimal digits
      decodes back to itself. */
  lemma DecodeHexKey(prefix: string, bytes: seq<Byte>)
    requires |prefix| == 2 && OneCodeUnit(prefix[0]) && OneCodeUnit(prefix[1])
    requires |bytes| == KeyLength
    ensures Body(prefix + ToHex(bytes)) == ToHex(bytes)
    ensures DecodeKey(prefix + ToHex(bytes)) == Ok(bytes)
  {
    var hex := ToHex(bytes);
    var key := prefix + hex;
    assert Body(key) == hex;
    var decoded := KeyBytes(key);
    forall i | 0 <= i < KeyLength ensures decoded[i] == bytes[i] {
      KeyBytesAt(key, i);
      ToHexAt(bytes, i);
      assert ChunkEnd(|hex|, i) == 2 * i + 2;
      assert decoded[i] == ParseHex(hex[2 * i .. 2 * i + 2]) == ParseHex(HexByte(bytes[i]));
    }
    assert decoded == bytes;
  }

  /** Pair `i` of 31 bytes' text followed by one more digit is still the text of byte `i`. */
  lemma OddHexPairAt(bytes: seq<Byte>, last: int, i: int)
    requires 0 <= i < |bytes| && 0 <= last < 16
    ensures (ToHex(bytes) + [LowerHexDigit(last)])[2 * i .. 2 * i + 2] == HexByte(bytes[i])
  {
    ToHexAt(bytes, i);
    SliceOfFront(ToHex(bytes), [LowerHexDigit(last)], 2 * i, 2 * i + 2);
  }

  /** Byte `i` of a key of 63 digits after the prefix. */
  lemma OddHexKeyByte(prefix: string, bytes: seq<Byte>, last: int, i: int)
    requires |prefix| == 2 && |bytes| == KeyLength - 1 && 0 <= last < 16
    requires 0 <= i < KeyLength
    ensures Body(prefix + (ToHex(bytes) + [LowerHexDigit(last)])) == ToHex(bytes) + [LowerHexDigit(last)]
    ensures KeyBytes(prefix + (ToHex(bytes) + [LowerHexDigit(last)]))[i] == (bytes + [last])[i]
  {
    var hex := ToHex(bytes) + [LowerHexDigit(last)];
    var key := prefix + hex;
    assert Body(key) == hex;
    KeyBytesAt(key, i);
    if i < KeyLength - 1 {
      OddHexPairAt(bytes, last, i);
      assert ChunkEnd(|hex|, i) == 2 * i + 2;
    } else {
      assert ChunkEnd(|hex|, i) == 2 * i + 1;
      assert hex[2 * i .. 2 * i + 1] == [LowerHexDigit(last)];
    }
  }

  /** A key of 63 digits after the prefix: the last digit stands alone and becomes the
      last byte, with its value below 16. */
  lemma DecodeOddHexKey(prefix: string, bytes: seq<Byte>, last: int)
    requires |prefix| == 2 && OneCodeUnit(prefix[0]) && OneCodeUnit(prefix[1])
    requires |bytes| == KeyLength - 1 && 0 <= last < 16
    ensures DecodeKey(prefix + ToHex(bytes) + [LowerHexDigit(last)]) == Ok(bytes + [last])
  {
    var key := prefix + (ToHex(bytes) + [LowerHexDigit(last)]);
    assert key == prefix + ToHex(bytes) + [LowerHexDigit(last)];
    OddHexKeyByte(prefix, bytes, last, 0);
    var decoded := KeyBytes(key);
    forall i | 0 <= i < KeyLength ensures decoded[i] == (bytes + [last])[i] {
      OddHexKeyByte(prefix, bytes, last, i);
    }
    assert decoded == bytes + [last];
  }
}
