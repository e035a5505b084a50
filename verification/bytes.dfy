/** Byte buffers as the server sees them: zero-filled positional reads,
    little-endian integers, byte-to-text decoding, NUL stripping, searches
    and decimal rendering of numbers. */
module Bytes {
  import opened Wrappers

  newtype byte = x: int | 0 <= x < 256

  // ---------------------------------------------------------------------------
  // Zero-filled reads
  // ---------------------------------------------------------------------------

  /** `readBytes(fd, offset, length)`: a zeroed buffer of `length` bytes into
      which whatever the file holds from `offset` on is copied. Bytes past
      the end of the file stay zero, so the result is never short. */
  function ReadBytes(data: seq<byte>, offset: nat, length: nat): (r: seq<byte>)
    ensures |r| == length
    ensures offset + length <= |data| ==> r == data[offset..offset + length]
    ensures forall i :: 0 <= i < length && offset + i < |data| ==> r[i] == data[offset + i]
    ensures forall i :: 0 <= i < length && |data| <= offset + i ==> r[i] == 0
  {
    seq(length, i requires 0 <= i < length => if offset + i < |data| then data[offset + i] else 0)
  }

  // ---------------------------------------------------------------------------
  // Little-endian integers
  // ---------------------------------------------------------------------------

  function Pow256(width: nat): (r: nat)
    ensures r >= 1
  {
    if width == 0 then 1 else 256 * Pow256(width - 1)
  }

  /** The unsigned little-endian value of a byte run. */
  function LittleEndian(bs: seq<byte>): nat {
    if |bs| == 0 then 0 else bs[0] as nat + 256 * LittleEndian(bs[1..])
  }

  lemma {:induction false} LittleEndianBound(bs: seq<byte>)
    ensures LittleEndian(bs) < Pow256(|bs|)
  {
    if |bs| > 0 {
      LittleEndianBound(bs[1..]);
    }
  }

  /** `buffer.readUIntLE(offset, width)` for the widths 2 and 4 the parser uses. */
  function ReadUInt(buf: seq<byte>, offset: nat, width: nat): nat
    requires offset + width <= |buf|
  {
    LittleEndian(buf[offset..offset + width])
  }

  /** The `width`-byte little-endian encoding of `n`; its inverse is
      `LittleEndian`. */
  function ToLittleEndian(n: nat, width: nat): (r: seq<byte>)
    requires n < Pow256(width)
    ensures |r| == width
    ensures LittleEndian(r) == n
  {
    if width == 0 then []
    else
      var rest := ToLittleEndian(n / 256, width - 1);
      var r := [(n % 256) as byte] + rest;
      assert r[1..] == rest;
      r
  }

  /** Reading back is injective: the bytes of a run are the encoding of
      their value at their own width. */
  lemma {:induction false} LittleEndianRoundTrip(bs: seq<byte>)
    ensures LittleEndian(bs) < Pow256(|bs|)
    ensures ToLittleEndian(LittleEndian(bs), |bs|) == bs
  {
    LittleEndianBound(bs);
    if |bs| > 0 {
      var n := LittleEndian(bs);
      var rest := LittleEndian(bs[1..]);
      assert n == bs[0] as nat + 256 * rest;
      assert n % 256 == bs[0] as nat;
      assert n / 256 == rest;
      LittleEndianRoundTrip(bs[1..]);
      assert ToLittleEndian(n, |bs|) == [(n % 256) as byte] + ToLittleEndian(rest, |bs| - 1);
    }
  }

  // ---------------------------------------------------------------------------
  // Text
  // ---------------------------------------------------------------------------

  /** Byte-to-text decoding: each byte becomes the character with the same
      code. This agrees with UTF-8 decoding on ASCII input. */
  function Decode(bs: seq<byte>): (s: string)
    ensures |s| == |bs|
  {
    seq(|bs|, i requires 0 <= i < |bs| => (bs[i] as int) as char)
  }

  /** A character that fits in one byte. */
  predicate IsByteChar(c: char) {
    c as int < 256
  }

  /** The inverse of `Decode` on text made of one-byte characters. */
  function Encode(s: string): (bs: seq<byte>)
    requires forall i :: 0 <= i < |s| ==> IsByteChar(s[i])
    ensures |bs| == |s|
    ensures Decode(bs) == s
  {
    seq(|s|, i requires 0 <= i < |s| => assert IsByteChar(s[i]); (s[i] as int) as byte)
  }

  lemma EncodeDecode(bs: seq<byte>)
    ensures forall i :: 0 <= i < |Decode(bs)| ==> IsByteChar(Decode(bs)[i])
    ensures Encode(Decode(bs)) == bs
  {
  }

  /** `.replace(/\0/g, '')`: the text with every NUL character removed,
      everything else kept in order. */
  function StripNul(s: string): (r: string)
    ensures |r| <= |s|
    ensures forall i :: 0 <= i < |r| ==> r[i] != '\0'
    ensures forall c :: c != '\0' ==> (c in r <==> c in s)
    ensures (forall i :: 0 <= i < |s| ==> s[i] != '\0') ==> r == s
  {
    if |s| == 0 then ""
    else if s[0] == '\0' then StripNul(s[1..])
    else [s[0]] + StripNul(s[1..])
  }

  /** One character: a NUL disappears, anything else is kept. */
  lemma StripNulChar(c: char)
    ensures StripNul([c]) == if c == '\0' then "" else [c]
  {
    assert [c][1..] == [];
  }

  /** Stripping works piece by piece, so with `StripNulChar` it fixes the
      result character by character: every non-NUL character is kept, in
      order and as often as it occurs. */
  lemma {:induction false} StripNulConcat(a: string, b: string)
    ensures StripNul(a + b) == StripNul(a) + StripNul(b)
  {
    if |a| > 0 {
      assert (a + b)[0] == a[0];
      assert (a + b)[1..] == a[1..] + b;
      StripNulConcat(a[1..], b);
    } else {
      assert a + b == b;
    }
  }

  // ---------------------------------------------------------------------------
  // Searches
  // ---------------------------------------------------------------------------

  /** `buf.indexOf(b, from)` with `-1` replaced by `|s|`: the first position at
      or after `from` holding `b`, or the end. */
  function IndexOfByte(s: seq<byte>, b: byte, from: nat): (r: nat)
    requires from <= |s|
    ensures from <= r <= |s|
    ensures forall j :: from <= j < r ==> s[j] != b
    ensures r < |s| ==> s[r] == b
    decreases |s| - from
  {
    if from == |s| then |s|
    else if s[from] == b then from
    else IndexOfByte(s, b, from + 1)
  }

  /** `pat` occurs in `hay` starting at `i`. */
  predicate Occurs(hay: seq<byte>, pat: seq<byte>, i: nat) {
    i + |pat| <= |hay| && hay[i..i + |pat|] == pat
  }

  /** `hay.indexOf(pat)`: the first position where `pat` occurs. */
  function FirstIndex(hay: seq<byte>, pat: seq<byte>): (r: Option<nat>)
    ensures r.Some? ==> Occurs(hay, pat, r.value) && forall j :: 0 <= j < r.value ==> !Occurs(hay, pat, j)
    ensures r.None? ==> forall j :: 0 <= j ==> !Occurs(hay, pat, j)
  {
    FirstIndexFrom(hay, pat, 0)
  }

  function FirstIndexFrom(hay: seq<byte>, pat: seq<byte>, from: nat): (r: Option<nat>)
    ensures r.Some? ==> from <= r.value && Occurs(hay, pat, r.value)
    ensures r.Some? ==> forall j :: from <= j < r.value ==> !Occurs(hay, pat, j)
    ensures r.None? ==> forall j :: from <= j ==> !Occurs(hay, pat, j)
    decreases |hay| - from
  {
    if from + |pat| > |hay| then None
    else if hay[from..from + |pat|] == pat then Some(from)
    else FirstIndexFrom(hay, pat, from + 1)
  }

  // ---------------------------------------------------------------------------
  // Decimal rendering (`String(n)`, template literals, `.toString()`)
  // ---------------------------------------------------------------------------

  predicate IsDigit(c: char) {
    '0' <= c <= '9'
  }

  function DigitValue(c: char): nat
    requires IsDigit(c)
  {
    c as int - '0' as int
  }

  /** The value of a run of decimal digits. */
  function DecimalValue(s: string): nat
    requires forall i :: 0 <= i < |s| ==> IsDigit(s[i])
  {
    if |s| == 0 then 0 else 10 * DecimalValue(s[..|s| - 1]) + DigitValue(s[|s| - 1])
  }

  /** The decimal text of `n`, without leading zeros. */
  function NatToDecimal(n: nat): (s: string)
    ensures |s| >= 1
    ensures forall i :: 0 <= i < |s| ==> IsDigit(s[i])
    ensures |s| > 1 ==> s[0] != '0'
    ensures n < 10 <==> |s| == 1
  {
    var d := ((n % 10) + '0' as int) as char;
    if n < 10 then [d] else NatToDecimal(n / 10) + [d]
  }

  lemma {:induction false} DecimalRoundTrip(n: nat)
    ensures DecimalValue(NatToDecimal(n)) == n
  {
    var s := NatToDecimal(n);
    if n >= 10 {
      DecimalRoundTrip(n / 10);
      assert s[..|s| - 1] == NatToDecimal(n / 10);
    }
  }
}
