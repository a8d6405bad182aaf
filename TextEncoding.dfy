/** `new TextEncoder().encode(str)`, used by `B64.encodeStr` and by
    `Argon2.__encodeUtf8`: the UTF-8 encoding form of section 3 of RFC 3629.
    A Dafny `char` is a Unicode scalar value, so every string here is well
    formed (a JavaScript string may hold lone surrogates; see README). */
module TextEncoding {

  /** Number of bytes UTF-8 uses for a scalar value, by the ranges of the
      table in section 3 of RFC 3629. */
  function Width(c: char): nat
  {
    if c as int < 0x80 then 1
    else if c as int < 0x800 then 2
    else if c as int < 0x1_0000 then 3
    else 4
  }

  /** The bytes of one scalar value: a lead byte carrying the high bits and
      `Width(c) - 1` continuation bytes of six bits each. */
  function EncodeChar(c: char): (r: seq<bv8>)
    ensures |r| == Width(c)
    ensures |r| == 1 ==> r[0] as int == c as int
    ensures |r| == 2 ==> 0xC0 <= r[0] as int < 0xE0
    ensures |r| == 3 ==> 0xE0 <= r[0] as int < 0xF0
    ensures |r| == 4 ==> 0xF0 <= r[0] as int < 0xF8
    ensures forall j :: 1 <= j < |r| ==> 0x80 <= r[j] as int < 0xC0
  {
    var n := c as int;
    if n < 0x80 then [Octet(n)]
    else if n < 0x800 then Encode2(n)
    else if n < 0x1_0000 then Encode3(n)
    else Encode4(n)
  }

  function Encode2(n: int): (r: seq<bv8>)
    requires 0x80 <= n < 0x800
    ensures |r| == 2 && 0xC0 <= r[0] as int < 0xE0 && 0x80 <= r[1] as int < 0xC0
  {
    [Octet(0xC0 + n / 0x40), Continuation(n)]
  }

  function Encode3(n: int): (r: seq<bv8>)
    requires 0x800 <= n < 0x1_0000
    ensures |r| == 3 && 0xE0 <= r[0] as int < 0xF0
    ensures forall j :: 1 <= j < 3 ==> 0x80 <= r[j] as int < 0xC0
  {
    [Octet(0xE0 + n / 0x1000), Continuation(n / 0x40), Continuation(n)]
  }

  function Encode4(n: int): (r: seq<bv8>)
    requires 0x1_0000 <= n < 0x11_0000
    ensures |r| == 4 && 0xF0 <= r[0] as int < 0xF8
    ensures forall j :: 1 <= j < 4 ==> 0x80 <= r[j] as int < 0xC0
  {
    [Octet(0xF0 + n / 0x4_0000), Continuation(n / 0x1000), Continuation(n / 0x40), Continuation(n)]
  }

  /** A continuation byte: `10` followed by the low six bits of `n`. */
  function Continuation(n: int): (b: bv8)
    requires 0 <= n
    ensures 0x80 <= b as int < 0xC0 && b as int % 0x40 == n % 0x40
  {
    Octet(0x80 + n % 0x40)
  }

  /** The byte with numeric value `x`, counted up from zero so that its
      value is known without converting between integers and bit-vectors. */
  function Octet(x: int): (b: bv8)
    requires 0 <= x < 0x100
    ensures b as int == x
  {
    if x == 0 then 0 else Octet(x - 1) + 1
  }

  /** `TextEncoder.encode`: the concatenation of the characters' encodings;
      its length is the sum of the characters' widths. */
  function Utf8(s: string): (r: seq<bv8>)
    ensures |r| == Utf8Length(s)
  {
    if s == [] then [] else EncodeChar(s[0]) + Utf8(s[1..])
  }

  /** The encoded length is the sum of the characters' widths. */
  function Utf8Length(s: string): nat
  {
    if s == [] then 0 else Width(s[0]) + Utf8Length(s[1..])
  }

  /** Encoding distributes over concatenation. */
  lemma {:induction false} Utf8Append(s: string, t: string)
    ensures Utf8(s + t) == Utf8(s) + Utf8(t)
  {
    if s == [] {
      assert s + t == t;
    } else {
      assert (s + t)[1..] == s[1..] + t;
      Utf8Append(s[1..], t);
    }
  }

  /** A string of ASCII characters encodes to its own code units, one byte each. */
  lemma {:induction false} Utf8Ascii(s: string)
    requires forall i :: 0 <= i < |s| ==> s[i] as int < 0x80
    ensures |Utf8(s)| == |s|
    ensures forall i :: 0 <= i < |s| ==> Utf8(s)[i] as int == s[i] as int
  {
    if s != [] {
      Utf8Ascii(s[1..]);
      assert Utf8(s) == EncodeChar(s[0]) + Utf8(s[1..]);
      forall i | 1 <= i < |s| ensures Utf8(s)[i] as int == s[i] as int {
        assert Utf8(s)[i] == Utf8(s[1..])[i - 1];
      }
    }
  }
}
