/** The Base64 codec of src/ts/b64.ts.

    JavaScript numbers that pass through the bitwise operators are 32-bit
    two's-complement integers; they are modelled as `bv32`, so that `<<`
    (which drops bits past bit 31), `>>>` (a logical shift), `|` and `&`
    mean exactly what they mean in the source. A `Uint8Array` element is a
    `bv8`. `encode` delegates to the platform's `btoa`; it is specified here
    as the Base64 encoding of section 4 of RFC 4648. */
module B64 {
  import opened TextEncoding

  type Byte = bv8

  const Upper: string := "ABCDEFGHIJKLMNOPQRSTUVWXYZ"
  const Lower: string := "abcdefghijklmnopqrstuvwxyz"
  const Digits: string := "0123456789"

  /** The codec's character table, `__map`: the 64 symbols of RFC 4648,
      Table 1, in order, followed by the pad character at index 64. */
  const Map: string := Upper + Lower + Digits + "+/="

  /** The pad character, `Map.charAt(64)`. */
  const PadChar: char := '='

  /** The RFC 4648 symbol for the 6-bit value `v`, written by ranges as the
      RFC's Table 1 lists them; index 64 is the pad. */
  function Symbol(v: int): char
    requires 0 <= v < 65
  {
    if v < 26 then ('A' as int + v) as char
    else if v < 52 then ('a' as int + (v - 26)) as char
    else if v < 62 then ('0' as int + (v - 52)) as char
    else if v == 62 then '+'
    else if v == 63 then '/'
    else '='
  }

  lemma UpperAt(j: int)
    requires 0 <= j < 26
    ensures Upper[j] == ('A' as int + j) as char
  {}

  lemma LowerAt(j: int)
    requires 0 <= j < 26
    ensures Lower[j] == ('a' as int + j) as char
  {}

  lemma DigitAt(j: int)
    requires 0 <= j < 10
    ensures Digits[j] == ('0' as int + j) as char
  {}

  /** The table holds the RFC's symbols at their values. */
  lemma MapIsTable(j: int)
    requires 0 <= j < 65
    ensures |Map| == 65 && Map[j] == Symbol(j)
  {
    if j < 26 {
      UpperAt(j);
    } else if j < 52 {
      LowerAt(j - 26);
    } else if j < 62 {
      DigitAt(j - 52);
    }
  }

  /** `String.prototype.indexOf` for one character: the first position of
      `c` in `s`, or -1 when `c` does not occur (IndexOfSpec). */
  function IndexOf(s: string, c: char): (r: int)
    ensures -1 <= r < |s|
  {
    if |s| == 0 then -1
    else if s[0] == c then 0
    else
      var r := IndexOf(s[1..], c);
      if r == -1 then -1 else r + 1
  }

  lemma {:induction false} IndexOfSpec(s: string, c: char)
    ensures IndexOf(s, c) == -1 <==> c !in s
    ensures IndexOf(s, c) != -1 ==> s[IndexOf(s, c)] == c && c !in s[..IndexOf(s, c)]
  {
    if |s| > 0 && s[0] != c {
      IndexOfSpec(s[1..], c);
      var r := IndexOf(s[1..], c);
      assert s == [s[0]] + s[1..];
      if r != -1 {
        assert s[..r + 1] == [s[0]] + s[1..][..r];
      }
    }
  }

  /** The table position of each symbol is its value: the characters of the
      table are pairwise distinct, so `indexOf` finds each at its own index. */
  lemma {:induction false} IndexOfSymbol(v: int)
    requires 0 <= v < 65
    ensures IndexOf(Map, Map[v]) == v
  {
    var r := IndexOf(Map, Map[v]);
    MapIsTable(v);
    IndexOfSpec(Map, Map[v]);
    MapIsTable(r);
  }

  /** The value the source computes for one character,
      `__map.indexOf(c)`, as the 32-bit integer the shift operators see:
      -1 (not in the table) is all ones. */
  function Value(c: char): bv32
  {
    var v := IndexOf(Map, c);
    if v == -1 then 0xFFFF_FFFF else v as bv32
  }

  /** A symbol's value is the 6-bit number it encodes. */
  lemma ValueOfSymbol(x: bv32)
    requires x < 64
    ensures Map[x as int] != PadChar
    ensures Value(Map[x as int]) == x
  {
    IndexOfSymbol(x as int);
    IndexOfSymbol(64);
    MapIsTable(64);
  }

  /** A character outside the table, and only such a character, gets the
      all-ones value. */
  lemma {:induction false} ValueOutside(c: char)
    ensures Value(c) == 0xFFFF_FFFF <==> c !in Map
  {
    IndexOfSpec(Map, c);
    var v := IndexOf(Map, c);
    if v != -1 {
      SmallToBv(v % 64);
      assert v < 65;
    }
  }

  lemma SmallToBv(v: int)
    requires 0 <= v < 64
    ensures v as bv32 < 64
  {}

  /** Every character of the table other than the pad has a 6-bit value. */
  lemma ValueBelow64(c: char)
    requires c in Map && c != PadChar
    ensures Value(c) < 64
  {
    var v := IndexOf(Map, c);
    IndexOfSpec(Map, c);
    MapIsTable(64);
    SmallToBv(v);
  }

  /** `bits1 | bits2` of the decoder for a character at position `i` with
      `k == i % 4`, before it is shifted into its word: the previous
      character's value `hi` shifted left by `2 * k`, OR the current one's
      value `lo` shifted right by `6 - 2 * k`. Written with one literal
      shift per case; CombineIsSourceShifts shows it is the source's
      expression. */
  function Combine(hi: bv32, lo: bv32, k: int): bv32
    requires 1 <= k <= 3
  {
    if k == 1 then (hi << 2) | (lo >> 4)
    else if k == 2 then (hi << 4) | (lo >> 2)
    else (hi << 6) | lo
  }

  lemma CombineIsSourceShifts(hi: bv32, lo: bv32, k: int)
    requires 1 <= k <= 3
    ensures (hi << (k * 2)) | (lo >> (6 - k * 2)) == Combine(hi, lo, k)
  {
    if k == 1 {} else if k == 2 {} else {}
  }

  /** The decoder's loop body computes `bits1 = hi << (k * 2)`,
      `bits2 = lo >>> (6 - k * 2)` and `(bits1 | bits2) << (24 - p * 8)`,
      with `k` the position of the character in its quantum and `p` the
      position of the byte in its word: the combination of `hi` and `lo`
      moved to byte `p`. */
  method PlaceBits(hi: bv32, lo: bv32, k: int, p: int) returns (x: bv32)
    requires 1 <= k <= 3 && 0 <= p < 4
    ensures x == ToPosition(Combine(hi, lo, k), p)
  {
    var bits1 := hi << (k * 2);
    var bits2 := lo >> (6 - k * 2);
    CombineIsSourceShifts(hi, lo, k);
    var c := bits1 | bits2;
    ToPositionIsSourceShift(c, p);
    x := c << (24 - p * 8);
  }

  /** `x << (24 - p * 8)`: moves a byte to position `p` of a word
      (0 = most significant); bits pushed past bit 31 are lost. */
  function ToPosition(x: bv32, p: int): bv32
    requires 0 <= p < 4
  {
    if p == 0 then x << 24 else if p == 1 then x << 16 else if p == 2 then x << 8 else x
  }

  lemma ToPositionIsSourceShift(x: bv32, p: int)
    requires 0 <= p < 4
    ensures x << (24 - p * 8) == ToPosition(x, p)
  {
    if p == 0 {} else if p == 1 {} else if p == 2 {} else {}
  }

  /** Byte `p` of a word, most significant first, as `__w2bytes` reads it:
      `word >>> 24`, `(word >>> 16) & 0xFF`, `(word >>> 8) & 0xFF`, `word & 0xFF`. */
  function ByteOf(w: bv32, p: int): Byte
    requires 0 <= p < 4
  {
    (if p == 0 then w >> 24
     else if p == 1 then (w >> 16) & 0xFF
     else if p == 2 then (w >> 8) & 0xFF
     else w & 0xFF) as Byte
  }

  /** ByteOf gives the big-endian bytes of a word: put back in order they
      rebuild it. */
  lemma BigEndianBytes(w: bv32)
    ensures (ByteOf(w, 0) as bv32 << 24) | (ByteOf(w, 1) as bv32 << 16)
            | (ByteOf(w, 2) as bv32 << 8) | ByteOf(w, 3) as bv32 == w
  {}

  /** The word whose big-endian bytes are `b0 b1 b2 b3`. */
  function Word(b0: Byte, b1: Byte, b2: Byte, b3: Byte): bv32
  {
    (b0 as bv32 << 24) | (b1 as bv32 << 16) | (b2 as bv32 << 8) | b3 as bv32
  }

  /** Reading byte `p` of a word gives back the byte it was built from. */
  lemma ByteOfWord(b0: Byte, b1: Byte, b2: Byte, b3: Byte, p: int)
    requires 0 <= p < 4
    ensures ByteOf(Word(b0, b1, b2, b3), p) == [b0, b1, b2, b3][p]
  {
    if p == 0 {} else if p == 1 {} else if p == 2 {} else {}
  }

  /** The low eight bits of a value, as `& 0xFF` and a `Uint8Array` store keep them. */
  function Low(x: bv32): Byte
  {
    (x & 0xFF) as Byte
  }

  /** The word with bytes `c0 c1 c2` before position `p`, the byte `v` at
      `p` and zero bytes after it. */
  function Placed(c0: Byte, c1: Byte, c2: Byte, p: int, v: Byte): bv32
    requires 0 <= p < 4
  {
    if p == 0 then Word(v, 0, 0, 0)
    else if p == 1 then Word(c0, v, 0, 0)
    else if p == 2 then Word(c0, c1, v, 0)
    else Word(c0, c1, c2, v)
  }

  /** A combination shifted to position 0 keeps only its low eight bits. */
  lemma NewWord(x: bv32)
    ensures ToPosition(x, 0) == Word(Low(x), 0, 0, 0)
  {}

  /** OR-ing a value below 2^12 into a word whose bytes 1..3 are still zero
      stores its low eight bits as byte 1; its higher bits go into byte 0,
      which they leave unchanged when that byte already has them set. The
      next two lemmas are the same for bytes 2 and 3. */
  lemma StoreByte1(w: bv32, c0: Byte, x: bv32)
    requires w == Word(c0, 0, 0, 0) && x < 0x1000
    requires c0 | Low(x >> 8) == c0
    ensures w | (x << 16) == Word(c0, Low(x), 0, 0)
  {}

  lemma StoreByte2(w: bv32, c0: Byte, c1: Byte, x: bv32)
    requires w == Word(c0, c1, 0, 0) && x < 0x1000
    requires c1 | Low(x >> 8) == c1
    ensures w | (x << 8) == Word(c0, c1, Low(x), 0)
  {}

  lemma StoreByte3(w: bv32, c0: Byte, c1: Byte, c2: Byte, x: bv32)
    requires w == Word(c0, c1, c2, 0) && x < 0x1000
    requires c2 | Low(x >> 8) == c2
    ensures w | x == Word(c0, c1, c2, Low(x))
  {}

  /** The decoder does not mask its combinations: `hi << 4` and `hi << 6`
      carry up to four bits past the low eight. Those bits are the low bits
      of the byte stored one step earlier from the same character `a`. */
  lemma CombineOverlap(a0: bv32, a: bv32, b: bv32, k: int)
    requires 1 <= k <= 3 && a0 < 64 && a < 64 && b < 64
    ensures Combine(a, b, k) < 0x1000
    ensures k == 1 ==> Combine(a, b, k) >> 8 == 0
    ensures k > 1 ==> Low(Combine(a0, a, k - 1)) | Low(Combine(a, b, k) >> 8) == Low(Combine(a0, a, k - 1))
  {
    if k == 1 {} else if k == 2 {} else {}
  }

  // ---------------------------------------------------------------------
  // What `decode` computes, byte by byte

  /** The logical length of a Base64 string: the position of its first pad
      character, or its whole length when it has none. */
  function LogicalLength(s: string): (r: nat)
    ensures r <= |s|
    ensures PadChar !in s[..r]
    ensures r < |s| ==> s[r] == PadChar
  {
    var p := IndexOf(s, PadChar);
    IndexOfSpec(s, PadChar);
    if p == -1 then
      assert s[..|s|] == s;
      |s|
    else p
  }

  /** The logical length is the one position with these three properties. */
  lemma LogicalLengthIs(s: string, r: nat)
    requires r <= |s|
    requires PadChar !in s[..r]
    requires r < |s| ==> s[r] == PadChar
    ensures LogicalLength(s) == r
  {
  }

  /** The strings `decode` is meant for: every character before the first
      pad is a symbol of the table. (Other characters give `indexOf` -1 and
      garbage bytes; see README.) */
  ghost predicate WellFormed(s: string)
  {
    forall i :: 0 <= i < LogicalLength(s) ==> s[i] in Map
  }

  /** Number of bytes decoded from `n` characters: every position `i < n`
      with `i % 4 != 0` yields one, so four characters give three bytes
      and a lone last character gives none. */
  function DataCount(n: nat): nat
  {
    3 * (n / 4) + (if n % 4 == 0 then 0 else n % 4 - 1)
  }

  /** The byte decoded at position `i` (with `i % 4 != 0`):
      `((v(i-1) << 2*(i%4)) | (v(i) >>> (6 - 2*(i%4)))) & 0xFF`. */
  function CharByte(s: string, i: int): Byte
    requires 0 < i < |s| && i % 4 != 0
  {
    Low(Combine(Value(s[i - 1]), Value(s[i]), i % 4))
  }

  /** The bytes decoded from the first `n` characters of `s`, one for each
      position `i < n` with `i % 4 != 0`, in order. */
  function DecodePrefix(s: string, n: nat): (r: seq<Byte>)
    requires n <= |s|
    ensures |r| == DataCount(n)
  {
    if n == 0 then []
    else if (n - 1) % 4 != 0 then DecodePrefix(s, n - 1) + [CharByte(s, n - 1)]
    else DecodePrefix(s, n - 1)
  }

  /** What `decode` is meant to return: the bytes of the logical prefix. */
  function DecodeSpec(s: string): seq<Byte>
  {
    DecodePrefix(s, LogicalLength(s))
  }

  /** Each further character adds a byte exactly when its position is not
      a multiple of 4. */
  lemma DataCountStep(n: nat)
    ensures DataCount(n + 1) == DataCount(n) + (if n % 4 != 0 then 1 else 0)
  {
    var q, r := n / 4, n % 4;
    assert n == 4 * q + r;
    if r == 3 {
      assert (n + 1) / 4 == q + 1 && (n + 1) % 4 == 0;
    } else {
      assert (n + 1) / 4 == q && (n + 1) % 4 == r + 1;
    }
  }

  /** The position whose character yields byte `j` of the output. */
  function SourcePosition(j: nat): (i: nat)
    ensures i / 4 == j / 3 && i % 4 == j % 3 + 1
  {
    4 * (j / 3) + j % 3 + 1
  }

  lemma SourcePositionOfLast(n: nat)
    requires n % 4 != 0
    ensures SourcePosition(DataCount(n)) == n
  {
    var q, r := n / 4, n % 4;
    assert n == 4 * q + r;
    var j := DataCount(n);
    assert j == 3 * q + r - 1;
    assert j / 3 == q && j % 3 == r - 1;
  }

  /** Byte `j` of the decoded prefix comes from the character at position
      `4 * (j / 3) + j % 3 + 1` and the one before it. */
  lemma {:induction false} DecodedByteAt(s: string, n: nat, j: nat)
    requires n <= |s| && j < DataCount(n)
    ensures SourcePosition(j) < n
    ensures DecodePrefix(s, n)[j] == CharByte(s, SourcePosition(j))
  {
    var m := n - 1;
    DataCountStep(m);
    if j < DataCount(m) {
      DecodedByteAt(s, m, j);
      assert DecodePrefix(s, n)[j] == DecodePrefix(s, m)[j];
    } else {
      assert m % 4 != 0 && j == DataCount(m);
      SourcePositionOfLast(m);
      assert DecodePrefix(s, n) == DecodePrefix(s, m) + [CharByte(s, m)];
    }
  }

  /** The decoded prefix depends only on the characters it covers. */
  lemma {:induction false} DecodePrefixAgree(u: string, v: string, n: nat)
    requires n <= |u| && n <= |v| && u[..n] == v[..n]
    ensures DecodePrefix(u, n) == DecodePrefix(v, n)
  {
    if n > 0 {
      assert u[..n - 1] == v[..n - 1] by {
        assert u[..n - 1] == u[..n][..n - 1] && v[..n - 1] == v[..n][..n - 1];
      }
      DecodePrefixAgree(u, v, n - 1);
      assert u[n - 1] == u[..n][n - 1] && v[n - 1] == v[..n][n - 1];
      if n >= 2 {
        assert u[n - 2] == u[..n][n - 2] && v[n - 2] == v[..n][n - 2];
      }
    }
  }

  // ---------------------------------------------------------------------
  // Word packing: `buf[nBytes >>> 2] |= (bits1 | bits2) << (24 - (nBytes % 4) * 8)`

  /** Byte `j` of `bytes`, or 0 past its end. */
  function At(bytes: seq<Byte>, j: int): Byte
  {
    if 0 <= j < |bytes| then bytes[j] else 0
  }

  /** `bytes` packed big-endian, four to a 32-bit word, the last word
      filled up with zero bytes. */
  function Pack(bytes: seq<Byte>): (r: seq<bv32>)
    ensures |r| == (|bytes| + 3) / 4
  {
    seq((|bytes| + 3) / 4, q => Word(At(bytes, 4 * q), At(bytes, 4 * q + 1), At(bytes, 4 * q + 2), At(bytes, 4 * q + 3)))
  }

  /** `buf[n >>> 2] |= ToPosition(x, n % 4)`: a new word when `n` starts one
      (JavaScript's `undefined | v` is `v`), an OR into the last word
      otherwise. */
  function OrInto(buf: seq<bv32>, n: nat, x: bv32): (r: seq<bv32>)
    requires n / 4 <= |buf|
    ensures |r| == if n / 4 == |buf| then |buf| + 1 else |buf|
    ensures r[..n / 4] == buf[..n / 4]
    ensures n / 4 < |buf| ==> r[n / 4 + 1..] == buf[n / 4 + 1..]
    ensures r[n / 4] & ToPosition(x, n % 4) == ToPosition(x, n % 4)
  {
    if n / 4 == |buf| then buf + [ToPosition(x, n % 4)]
    else buf[n / 4 := buf[n / 4] | ToPosition(x, n % 4)]
  }

  /** OrInto adds a word exactly when the byte count reaches a multiple of 4. */
  lemma OrIntoLength(buf: seq<bv32>, n: nat, x: bv32)
    requires |buf| == (n + 3) / 4
    ensures n / 4 <= |buf| && |OrInto(buf, n, x)| == (n + 4) / 4
  {
    var q, p := n / 4, n % 4;
    assert n == 4 * q + p;
    if p == 0 {
      assert (n + 3) / 4 == q && (n + 4) / 4 == q + 1;
    } else {
      assert (n + 3) / 4 == q + 1 && (n + 4) / 4 == q + 1;
    }
  }

  /** The decoder's two ways of storing `x`, appending a word or OR-ing
      into the last one, are OrInto. */
  lemma StoreNew(buf: seq<bv32>, n: nat, c: bv32, x: bv32)
    requires n / 4 == |buf| && x == ToPosition(c, n % 4)
    ensures buf + [x] == OrInto(buf, n, c)
  {}

  lemma StoreLast(buf: seq<bv32>, n: nat, c: bv32, x: bv32)
    requires n / 4 < |buf| && x == ToPosition(c, n % 4)
    ensures buf[n / 4 := buf[n / 4] | x] == OrInto(buf, n, c)
  {}

  /** Appending a byte at a multiple of 4 appends the word holding it. */
  lemma PackAppendNew(bytes: seq<Byte>, b: Byte)
    requires |bytes| % 4 == 0
    ensures Pack(bytes + [b]) == Pack(bytes) + [Word(b, 0, 0, 0)]
  {
    var n, q := |bytes|, |bytes| / 4;
    var bytes' := bytes + [b];
    assert n == 4 * q && (n + 3) / 4 == q && (n + 4) / 4 == q + 1;
    forall t | 0 <= t < q
      ensures Pack(bytes')[t] == Pack(bytes)[t]
    {
      assert 4 * t + 3 < n;
      assert At(bytes', 4 * t) == At(bytes, 4 * t);
      assert At(bytes', 4 * t + 1) == At(bytes, 4 * t + 1);
      assert At(bytes', 4 * t + 2) == At(bytes, 4 * t + 2);
      assert At(bytes', 4 * t + 3) == At(bytes, 4 * t + 3);
    }
    assert Pack(bytes')[q] == Word(b, 0, 0, 0);
  }

  /** The last word of a packing whose length is not a multiple of 4: its
      bytes from position `|bytes| % 4` on are zero, and the byte before
      that is the last byte. */
  lemma PackLastWord(bytes: seq<Byte>)
    requires |bytes| % 4 != 0
    ensures var q, p := |bytes| / 4, |bytes| % 4;
            var c0, c1, c2 := At(bytes, 4 * q), At(bytes, 4 * q + 1), At(bytes, 4 * q + 2);
            && q < |Pack(bytes)|
            && (p <= 1 ==> c1 == 0) && (p <= 2 ==> c2 == 0)
            && (p == 1 ==> c0 == bytes[|bytes| - 1])
            && (p == 2 ==> c1 == bytes[|bytes| - 1])
            && (p == 3 ==> c2 == bytes[|bytes| - 1])
            && Pack(bytes)[q] == Word(c0, c1, c2, 0)
  {
    var n, q, p := |bytes|, |bytes| / 4, |bytes| % 4;
    assert n == 4 * q + p && (n + 3) / 4 == q + 1;
    assert At(bytes, 4 * q + 3) == 0;
  }

  /** Appending a byte elsewhere replaces the last word by the one that
      also holds it. */
  lemma PackAppendLast(bytes: seq<Byte>, b: Byte)
    requires |bytes| % 4 != 0
    ensures var q, p := |bytes| / 4, |bytes| % 4;
            && q < |Pack(bytes)|
            && Pack(bytes + [b])
               == Pack(bytes)[q := Placed(At(bytes, 4 * q), At(bytes, 4 * q + 1), At(bytes, 4 * q + 2), p, b)]
  {
    var n, q, p := |bytes|, |bytes| / 4, |bytes| % 4;
    assert n == 4 * q + p && (n + 3) / 4 == q + 1 && (n + 4) / 4 == q + 1;
    forall t | 0 <= t < q
      ensures Pack(bytes + [b])[t] == Pack(bytes)[t]
    {
      PackAppendKeeps(bytes, b, t);
    }
    PackAppendLastWord(bytes, b);
  }

  /** A word completed before the last one is unchanged by an append. */
  lemma PackAppendKeeps(bytes: seq<Byte>, b: Byte, t: int)
    requires 0 <= t < |bytes| / 4
    ensures t < |Pack(bytes)| && t < |Pack(bytes + [b])|
    ensures Pack(bytes + [b])[t] == Pack(bytes)[t]
  {
    var bytes' := bytes + [b];
    assert 4 * t + 3 < |bytes|;
    assert At(bytes', 4 * t) == At(bytes, 4 * t);
    assert At(bytes', 4 * t + 1) == At(bytes, 4 * t + 1);
    assert At(bytes', 4 * t + 2) == At(bytes, 4 * t + 2);
    assert At(bytes', 4 * t + 3) == At(bytes, 4 * t + 3);
  }

  /** The last word after an append holds the earlier bytes of its group and `b`. */
  lemma PackAppendLastWord(bytes: seq<Byte>, b: Byte)
    requires |bytes| % 4 != 0
    ensures var q, p := |bytes| / 4, |bytes| % 4;
            && q < |Pack(bytes + [b])|
            && Pack(bytes + [b])[q] == Placed(At(bytes, 4 * q), At(bytes, 4 * q + 1), At(bytes, 4 * q + 2), p, b)
  {
    var n, q, p := |bytes|, |bytes| / 4, |bytes| % 4;
    var bytes' := bytes + [b];
    assert n == 4 * q + p && (n + 4) / 4 == q + 1;
    if p == 1 {
      assert At(bytes', 4 * q) == At(bytes, 4 * q);
    } else if p == 2 {
      assert At(bytes', 4 * q) == At(bytes, 4 * q);
      assert At(bytes', 4 * q + 1) == At(bytes, 4 * q + 1);
    } else {
      assert At(bytes', 4 * q) == At(bytes, 4 * q);
      assert At(bytes', 4 * q + 1) == At(bytes, 4 * q + 1);
      assert At(bytes', 4 * q + 2) == At(bytes, 4 * q + 2);
    }
  }

  /** Storing the next combination keeps the packing: OR-ing it into the
      word array of `bytes` gives the word array of `bytes` followed by the
      combination's low eight bits, when the byte before it (if it belongs
      to the same character group) came from the previous combination. */
  lemma PackStep(bytes: seq<Byte>, k: int, a0: bv32, a: bv32, b: bv32)
    requires 1 <= k <= 3 && a0 < 64 && a < 64 && b < 64
    requires k > 1 && |bytes| % 4 != 0 ==> bytes[|bytes| - 1] == Low(Combine(a0, a, k - 1))
    ensures |bytes| / 4 <= |Pack(bytes)|
    ensures OrInto(Pack(bytes), |bytes|, Combine(a, b, k)) == Pack(bytes + [Low(Combine(a, b, k))])
  {
    var x := Combine(a, b, k);
    CombineOverlap(a0, a, b, k);
    if |bytes| % 4 == 0 {
      PackStepNew(bytes, x);
    } else {
      PackStepLast(bytes, x);
    }
  }

  /** PackStep for a byte that starts a new word. */
  lemma PackStepNew(bytes: seq<Byte>, x: bv32)
    requires |bytes| % 4 == 0
    ensures |bytes| / 4 <= |Pack(bytes)|
    ensures OrInto(Pack(bytes), |bytes|, x) == Pack(bytes + [Low(x)])
  {
    var n, q := |bytes|, |bytes| / 4;
    assert n == 4 * q && (n + 3) / 4 == q;
    NewWord(x);
    PackAppendNew(bytes, Low(x));
  }

  /** PackStep for a byte that goes into the partly filled last word. */
  lemma PackStepLast(bytes: seq<Byte>, x: bv32)
    requires |bytes| % 4 != 0 && x < 0x1000
    requires bytes[|bytes| - 1] | Low(x >> 8) == bytes[|bytes| - 1]
    ensures |bytes| / 4 <= |Pack(bytes)|
    ensures OrInto(Pack(bytes), |bytes|, x) == Pack(bytes + [Low(x)])
  {
    if |bytes| % 4 == 1 {
      PackStepAt1(bytes, x);
    } else if |bytes| % 4 == 2 {
      PackStepAt2(bytes, x);
    } else {
      PackStepAt3(bytes, x);
    }
  }

  /** PackStepLast for a byte at position 1 of its word. */
  lemma PackStepAt1(bytes: seq<Byte>, x: bv32)
    requires |bytes| % 4 == 1 && x < 0x1000
    requires bytes[|bytes| - 1] | Low(x >> 8) == bytes[|bytes| - 1]
    ensures |bytes| / 4 <= |Pack(bytes)|
    ensures OrInto(Pack(bytes), |bytes|, x) == Pack(bytes + [Low(x)])
  {
    var q := |bytes| / 4;
    var c0, c1, c2 := At(bytes, 4 * q), At(bytes, 4 * q + 1), At(bytes, 4 * q + 2);
    PackAppendLast(bytes, Low(x));
    PackLastWord(bytes);
    OrIntoAt1(Pack(bytes), |bytes|, x, c0, c1, c2);
  }

  /** PackStepLast for a byte at position 2 of its word. */
  lemma PackStepAt2(bytes: seq<Byte>, x: bv32)
    requires |bytes| % 4 == 2 && x < 0x1000
    requires bytes[|bytes| - 1] | Low(x >> 8) == bytes[|bytes| - 1]
    ensures |bytes| / 4 <= |Pack(bytes)|
    ensures OrInto(Pack(bytes), |bytes|, x) == Pack(bytes + [Low(x)])
  {
    var q := |bytes| / 4;
    var c0, c1, c2 := At(bytes, 4 * q), At(bytes, 4 * q + 1), At(bytes, 4 * q + 2);
    PackAppendLast(bytes, Low(x));
    PackLastWord(bytes);
    OrIntoAt2(Pack(bytes), |bytes|, x, c0, c1, c2);
  }

  /** PackStepLast for a byte at position 3 of its word. */
  lemma PackStepAt3(bytes: seq<Byte>, x: bv32)
    requires |bytes| % 4 == 3 && x < 0x1000
    requires bytes[|bytes| - 1] | Low(x >> 8) == bytes[|bytes| - 1]
    ensures |bytes| / 4 <= |Pack(bytes)|
    ensures OrInto(Pack(bytes), |bytes|, x) == Pack(bytes + [Low(x)])
  {
    var q := |bytes| / 4;
    var c0, c1, c2 := At(bytes, 4 * q), At(bytes, 4 * q + 1), At(bytes, 4 * q + 2);
    PackAppendLast(bytes, Low(x));
    PackLastWord(bytes);
    OrIntoAt3(Pack(bytes), |bytes|, x, c0, c1, c2);
  }

  /** OR-ing into an existing word replaces that word. */
  lemma OrIntoLast(buf: seq<bv32>, n: nat, x: bv32, w: bv32)
    requires n / 4 < |buf| && buf[n / 4] | ToPosition(x, n % 4) == w
    ensures OrInto(buf, n, x) == buf[n / 4 := w]
  {}

  /** OR-ing a byte into position 1, 2 or 3 of the last word of a buffer. */
  lemma OrIntoAt1(buf: seq<bv32>, n: nat, x: bv32, c0: Byte, c1: Byte, c2: Byte)
    requires n % 4 == 1 && n / 4 < |buf| && buf[n / 4] == Word(c0, c1, c2, 0)
    requires c1 == 0 && c2 == 0 && x < 0x1000 && c0 | Low(x >> 8) == c0
    ensures OrInto(buf, n, x) == buf[n / 4 := Placed(c0, c1, c2, n % 4, Low(x))]
  {
    StoreAt1(buf[n / 4], c0, c1, c2, x, n % 4);
    OrIntoLast(buf, n, x, Placed(c0, c1, c2, n % 4, Low(x)));
  }

  lemma OrIntoAt2(buf: seq<bv32>, n: nat, x: bv32, c0: Byte, c1: Byte, c2: Byte)
    requires n % 4 == 2 && n / 4 < |buf| && buf[n / 4] == Word(c0, c1, c2, 0)
    requires c2 == 0 && x < 0x1000 && c1 | Low(x >> 8) == c1
    ensures OrInto(buf, n, x) == buf[n / 4 := Placed(c0, c1, c2, n % 4, Low(x))]
  {
    StoreAt2(buf[n / 4], c0, c1, c2, x, n % 4);
    OrIntoLast(buf, n, x, Placed(c0, c1, c2, n % 4, Low(x)));
  }

  lemma OrIntoAt3(buf: seq<bv32>, n: nat, x: bv32, c0: Byte, c1: Byte, c2: Byte)
    requires n % 4 == 3 && n / 4 < |buf| && buf[n / 4] == Word(c0, c1, c2, 0)
    requires x < 0x1000 && c2 | Low(x >> 8) == c2
    ensures OrInto(buf, n, x) == buf[n / 4 := Placed(c0, c1, c2, n % 4, Low(x))]
  {
    StoreAt3(buf[n / 4], c0, c1, c2, x, n % 4);
    OrIntoLast(buf, n, x, Placed(c0, c1, c2, n % 4, Low(x)));
  }

  /** StoreByte1 in the terms of ToPosition and Placed. */
  lemma StoreAt1(w: bv32, c0: Byte, c1: Byte, c2: Byte, x: bv32, p: int)
    requires p == 1 && w == Word(c0, c1, c2, 0) && c1 == 0 && c2 == 0 && x < 0x1000
    requires c0 | Low(x >> 8) == c0
    ensures w | ToPosition(x, p) == Placed(c0, c1, c2, p, Low(x))
  {
    StoreByte1(w, c0, x);
  }

  /** StoreByte2 in the terms of ToPosition and Placed. */
  lemma StoreAt2(w: bv32, c0: Byte, c1: Byte, c2: Byte, x: bv32, p: int)
    requires p == 2 && w == Word(c0, c1, c2, 0) && c2 == 0 && x < 0x1000
    requires c1 | Low(x >> 8) == c1
    ensures w | ToPosition(x, p) == Placed(c0, c1, c2, p, Low(x))
  {
    StoreByte2(w, c0, c1, x);
  }

  /** StoreByte3 in the terms of ToPosition and Placed. */
  lemma StoreAt3(w: bv32, c0: Byte, c1: Byte, c2: Byte, x: bv32, p: int)
    requires p == 3 && w == Word(c0, c1, c2, 0) && x < 0x1000
    requires c2 | Low(x >> 8) == c2
    ensures w | ToPosition(x, p) == Placed(c0, c1, c2, p, Low(x))
  {
    StoreByte3(w, c0, c1, c2, x);
  }

  /** Every byte of a packing reads back. */
  lemma UnpackPack(bytes: seq<Byte>, j: int)
    requires 0 <= j < |bytes|
    ensures ByteAt(Pack(bytes), j) == bytes[j]
  {
    var q, r := j / 4, j % 4;
    assert j == 4 * q + r && q < (|bytes| + 3) / 4;
    ByteOfWord(At(bytes, 4 * q), At(bytes, 4 * q + 1), At(bytes, 4 * q + 2), At(bytes, 4 * q + 3), r);
  }

  // ---------------------------------------------------------------------
  // Encoding: `btoa` of the bytes, the Base64 of section 4 of RFC 4648

  /** Number of symbols, pads not counted, that encode `n` bytes: four for
      each full group of three bytes and, for a final group of one or two
      bytes, one more symbol than it has bytes. */
  function SymbolCount(n: nat): nat
  {
    4 * (n / 3) + (if n % 3 == 0 then 0 else n % 3 + 1)
  }

  /** Sextet `k` (0 = most significant) of the 24-bit group `a b c`. */
  function Sextet(a: Byte, b: Byte, c: Byte, k: int): (v: bv32)
    requires 0 <= k < 4
    ensures v < 64
  {
    var x, y, z := a as bv32, b as bv32, c as bv32;
    if k == 0 then x >> 2
    else if k == 1 then ((x & 3) << 4) | (y >> 4)
    else if k == 2 then ((y & 15) << 2) | (z >> 6)
    else z & 63
  }

  /** The sextets of `buf`, most significant first: sextet `i % 4` of
      group `i / 4`, a final partial group filled up with zero bits. */
  function Sextets(buf: seq<Byte>): (vs: seq<bv32>)
    ensures |vs| == SymbolCount(|buf|)
    ensures forall i :: 0 <= i < |vs| ==> vs[i] < 64
  {
    seq(SymbolCount(|buf|), i => Sextet(At(buf, 3 * (i / 4)), At(buf, 3 * (i / 4) + 1), At(buf, 3 * (i / 4) + 2), i % 4))
  }

  /** The table symbols of the sextets `vs`, then pads up to length `n`. */
  function Spell(vs: seq<bv32>, n: nat): string
  {
    seq(n, i => if 0 <= i < |vs| then Digit(vs[i]) else PadChar)
  }

  /** The table symbol of a sextet. */
  function Digit(v: bv32): char
  {
    MapIsTable(64);
    if v < 64 then Map[v as int] else PadChar
  }

  /** `B64.encode(buf)`: the padded Base64 text of `buf`, four characters
      for each group of three bytes, the last group completed with `=`. */
  function Encode(buf: seq<Byte>): (s: string)
    ensures |s| == 4 * ((|buf| + 2) / 3)
  {
    SymbolCountBounds(|buf|);
    Spell(Sextets(buf), 4 * ((|buf| + 2) / 3))
  }

  /** `B64.encodeStr(str)`: the encoding of the UTF-8 bytes of `str`, whose
      length follows from the widths of the characters. */
  function EncodeStr(str: string): (s: string)
    ensures |s| == 4 * ((Utf8Length(str) + 2) / 3)
  {
    Encode(Utf8(str))
  }

  /** The symbols of a text of `n` bytes stop at most two characters
      before the end of its padded length. */
  lemma SymbolCountBounds(n: nat)
    ensures SymbolCount(n) <= 4 * ((n + 2) / 3) <= SymbolCount(n) + 2
    ensures DataCount(SymbolCount(n)) == n
  {
    var q, r := n / 3, n % 3;
    assert n == 3 * q + r;
    if r == 0 {
      assert (n + 2) / 3 == q;
    } else {
      assert (n + 2) / 3 == q + 1;
      assert SymbolCount(n) / 4 == q && SymbolCount(n) % 4 == r + 1;
    }
  }

  /** A spelled text: every character is in the table, the pads are
      exactly the positions past the sextets, and `indexOf` gives back
      each sextet from its symbol. */
  lemma SpellShape(vs: seq<bv32>, n: nat)
    requires |vs| <= n && forall i :: 0 <= i < |vs| ==> vs[i] < 64
    ensures forall i :: 0 <= i < n ==> Spell(vs, n)[i] in Map
    ensures forall i :: 0 <= i < n ==> (Spell(vs, n)[i] == PadChar <==> i >= |vs|)
    ensures forall i :: 0 <= i < |vs| ==> Value(Spell(vs, n)[i]) == vs[i]
  {
    MapIsTable(64);
    forall i | 0 <= i < |vs|
      ensures Spell(vs, n)[i] in Map && Spell(vs, n)[i] != PadChar && Value(Spell(vs, n)[i]) == vs[i]
    {
      SymbolOfSextet(vs[i]);
    }
  }

  /** The shape of an encoding: its length is a multiple of 4, every
      character is in the table, and the pads are exactly its last
      (at most two) characters. */
  lemma EncodeShape(buf: seq<Byte>)
    ensures |Encode(buf)| % 4 == 0 && SymbolCount(|buf|) <= |Encode(buf)| <= SymbolCount(|buf|) + 2
    ensures forall i :: 0 <= i < |Encode(buf)| ==> Encode(buf)[i] in Map
    ensures forall i :: 0 <= i < |Encode(buf)| ==> (Encode(buf)[i] == PadChar <==> i >= SymbolCount(|buf|))
  {
    SymbolCountBounds(|buf|);
    SpellShape(Sextets(buf), 4 * ((|buf| + 2) / 3));
  }

  /** A sextet's symbol is a table character other than the pad, and
      `indexOf` maps it back to the sextet. */
  lemma SymbolOfSextet(v: bv32)
    requires v < 64
    ensures Digit(v) in Map && Digit(v) != PadChar
    ensures Value(Digit(v)) == v
  {
    MapIsTable(64);
    ValueOfSymbol(v);
  }

  /** The decoder's combination of two neighbouring sextets of a group
      gives back the byte between them: the first, second and third byte
      of the group. */
  lemma GroupByte1(a: Byte, b: Byte, c: Byte)
    ensures Low(Combine(Sextet(a, b, c, 0), Sextet(a, b, c, 1), 1)) == a
  {}

  lemma GroupByte2(a: Byte, b: Byte, c: Byte)
    ensures Low(Combine(Sextet(a, b, c, 1), Sextet(a, b, c, 2), 2)) == b
  {}

  lemma GroupByte3(a: Byte, b: Byte, c: Byte)
    ensures Low(Combine(Sextet(a, b, c, 2), Sextet(a, b, c, 3), 3)) == c
  {}

  /** Byte `j` of `buf` is what the decoder computes from the two
      characters of the encoding that carry its bits. */
  lemma EncodedByte(buf: seq<Byte>, j: int)
    requires 0 <= j < |buf|
    ensures SourcePosition(j) < |Encode(buf)|
    ensures CharByte(Encode(buf), SourcePosition(j)) == buf[j]
  {
    var i := SourcePosition(j);
    SextetsByte(buf, j);
    EncodedValue(buf, i - 1);
    EncodedValue(buf, i);
    CharByteIs(Encode(buf), i, Sextets(buf)[i - 1], Sextets(buf)[i], i % 4, buf[j]);
  }

  /** The byte a group's two neighbouring sextets give back. */
  lemma SextetsByte(buf: seq<Byte>, j: int)
    requires 0 <= j < |buf|
    ensures 0 < SourcePosition(j) < |Sextets(buf)|
    ensures var i := SourcePosition(j);
            Low(Combine(Sextets(buf)[i - 1], Sextets(buf)[i], i % 4)) == buf[j]
  {
    SourcePositionInGroup(|buf|, j);
    if j % 3 == 0 {
      SextetsByte1(buf, j);
    } else if j % 3 == 1 {
      SextetsByte2(buf, j);
    } else {
      SextetsByte3(buf, j);
    }
  }

  lemma SextetsByte1(buf: seq<Byte>, j: int)
    requires 0 <= j < |buf| && j % 3 == 0
    ensures 0 < SourcePosition(j) < |Sextets(buf)|
    ensures var i := SourcePosition(j);
            Low(Combine(Sextets(buf)[i - 1], Sextets(buf)[i], 1)) == buf[j]
  {
    var i, q := SourcePosition(j), j / 3;
    SourcePositionInGroup(|buf|, j);
    SextetsAt(buf, i - 1, q, 0);
    SextetsAt(buf, i, q, 1);
    assert At(buf, 3 * q + 0) == buf[j];
    GroupByte1(At(buf, 3 * q), At(buf, 3 * q + 1), At(buf, 3 * q + 2));
  }

  lemma SextetsByte2(buf: seq<Byte>, j: int)
    requires 0 <= j < |buf| && j % 3 == 1
    ensures 0 < SourcePosition(j) < |Sextets(buf)|
    ensures var i := SourcePosition(j);
            Low(Combine(Sextets(buf)[i - 1], Sextets(buf)[i], 2)) == buf[j]
  {
    var i, q := SourcePosition(j), j / 3;
    SourcePositionInGroup(|buf|, j);
    SextetsAt(buf, i - 1, q, 1);
    SextetsAt(buf, i, q, 2);
    assert At(buf, 3 * q + 1) == buf[j];
    GroupByte2(At(buf, 3 * q), At(buf, 3 * q + 1), At(buf, 3 * q + 2));
  }

  lemma SextetsByte3(buf: seq<Byte>, j: int)
    requires 0 <= j < |buf| && j % 3 == 2
    ensures 0 < SourcePosition(j) < |Sextets(buf)|
    ensures var i := SourcePosition(j);
            Low(Combine(Sextets(buf)[i - 1], Sextets(buf)[i], 3)) == buf[j]
  {
    var i, q := SourcePosition(j), j / 3;
    SourcePositionInGroup(|buf|, j);
    SextetsAt(buf, i - 1, q, 2);
    SextetsAt(buf, i, q, 3);
    assert At(buf, 3 * q + 2) == buf[j];
    GroupByte3(At(buf, 3 * q), At(buf, 3 * q + 1), At(buf, 3 * q + 2));
  }

  /** The decoder's byte at `i` from the values of the two characters that carry it. */
  lemma CharByteIs(s: string, i: int, x: bv32, y: bv32, k: int, b: Byte)
    requires 0 < i < |s| && i % 4 == k && 1 <= k <= 3
    requires Value(s[i - 1]) == x && Value(s[i]) == y
    requires Low(Combine(x, y, k)) == b
    ensures CharByte(s, i) == b
  {}

  /** The value of symbol `i` of an encoding is sextet `i`. */
  lemma EncodedValue(buf: seq<Byte>, i: int)
    requires 0 <= i < |Sextets(buf)|
    ensures i < |Encode(buf)| && Value(Encode(buf)[i]) == Sextets(buf)[i]
  {
    EncodeValues(buf);
  }

  /** Sextet `i` of `buf` is sextet `i % 4` of group `i / 4`. */
  lemma SextetsAt(buf: seq<Byte>, i: int, q: int, k: int)
    requires 0 <= i < SymbolCount(|buf|) && q == i / 4 && k == i % 4
    ensures Sextets(buf)[i] == Sextet(At(buf, 3 * q), At(buf, 3 * q + 1), At(buf, 3 * q + 2), k)
  {}

  /** `indexOf` maps each symbol of an encoding back to its sextet. */
  lemma EncodeValues(buf: seq<Byte>)
    ensures |Sextets(buf)| <= |Encode(buf)|
    ensures forall i :: 0 <= i < |Sextets(buf)| ==> Value(Encode(buf)[i]) == Sextets(buf)[i]
  {
    SymbolCountBounds(|buf|);
    SpellShape(Sextets(buf), 4 * ((|buf| + 2) / 3));
  }

  /** Byte `j` of `n` is carried by the characters at `SourcePosition(j)`
      and the one before it, which are in the same group and are symbols. */
  lemma SourcePositionInGroup(n: nat, j: int)
    requires 0 <= j < n
    ensures var i, q, k := SourcePosition(j), j / 3, j % 3 + 1;
            && j == 3 * q + k - 1 && i == 4 * q + k
            && (i - 1) / 4 == q && (i - 1) % 4 == k - 1 && i / 4 == q && i % 4 == k
            && i < SymbolCount(n)
  {
    var i, q, k := SourcePosition(j), j / 3, j % 3 + 1;
    assert j == 3 * q + k - 1 && i == 4 * q + k;
    assert n == 3 * (n / 3) + n % 3;
    if q < n / 3 {
      assert i < 4 * (q + 1) <= 4 * (n / 3);
    } else {
      assert q == n / 3 && k <= n % 3;
    }
  }

  /** Decoding an encoding gives back the bytes: the text is well formed,
      its logical length is its symbol count, and every byte is recovered. */
  lemma DecodeEncode(buf: seq<Byte>)
    ensures WellFormed(Encode(buf))
    ensures LogicalLength(Encode(buf)) == SymbolCount(|buf|)
    ensures DecodeSpec(Encode(buf)) == buf
  {
    var s, n := Encode(buf), SymbolCount(|buf|);
    EncodeShape(buf);
    SymbolCountBounds(|buf|);
    assert PadChar !in s[..n];
    LogicalLengthIs(s, n);
    var d := DecodeSpec(s);
    forall j | 0 <= j < |buf|
      ensures d[j] == buf[j]
    {
      DecodedByteAt(s, n, j);
      EncodedByte(buf, j);
    }
  }

  /** `decode(encodeStr(str))` gives the UTF-8 bytes of `str`. */
  lemma DecodeEncodeStr(str: string)
    ensures DecodeSpec(EncodeStr(str)) == Utf8(str)
  {
    DecodeEncode(Utf8(str));
  }

  /** Padding is optional: `decode` stops at the first pad, so a text and
      the same text followed by a pad and anything else decode alike. */
  lemma PaddingIgnored(s: string, t: string)
    requires PadChar !in s
    ensures LogicalLength(s + [PadChar] + t) == LogicalLength(s) == |s|
    ensures DecodeSpec(s + [PadChar] + t) == DecodeSpec(s)
  {
    var u := s + [PadChar] + t;
    assert u[..|s|] == s;
    assert s[..|s|] == s;
    LogicalLengthIs(u, |s|);
    LogicalLengthIs(s, |s|);
    DecodePrefixAgree(u, s, |s|);
  }

  /** The concrete case: "Zg" and "Zg==" both decode to the single byte
      0x66 ('f'). */
  lemma PaddingExample()
    ensures DecodeSpec("Zg") == DecodeSpec("Zg==") == [0x66]
  {
    DecodeZg();
    PaddingIgnored("Zg", "=");
    assert "Zg==" == "Zg" + [PadChar] + "=";
  }

  lemma DecodeZg()
    ensures DecodeSpec("Zg") == [0x66]
  {
    ValueOfZ();
    ValueOfg();
    LogicalLengthIs("Zg", 2);
    assert DecodePrefix("Zg", 2) == [CharByte("Zg", 1)];
    assert CharByte("Zg", 1) == Low(Combine(25, 32, 1));
  }

  lemma ValueOfZ()
    ensures Value('Z') == 25
  {
    MapIsTable(25);
    ValueOfSymbol(25);
  }

  lemma ValueOfg()
    ensures Value('g') == 32
  {
    MapIsTable(32);
    ValueOfSymbol(32);
  }

  /** ... and the encoder writes the padded form. */
  lemma EncodeExample()
    ensures Encode([0x66]) == "Zg=="
  {
    MapIsTable(25);
    MapIsTable(32);
    var buf: seq<Byte> := [0x66];
    assert Sextets(buf) == [25, 32] by {
      assert At(buf, 0) == 0x66 && At(buf, 1) == 0 && At(buf, 2) == 0;
    }
  }

  /** The remaining RFC 4648 test vectors up to three bytes: "", "fo" and "foo". */
  lemma EncodeVectors()
    ensures Encode([]) == ""
    ensures Encode([0x66, 0x6f]) == "Zm8="
    ensures Encode([0x66, 0x6f, 0x6f]) == "Zm9v"
  {
    MapIsTable(25);
    MapIsTable(38);
    MapIsTable(60);
    MapIsTable(61);
    MapIsTable(47);
    var fo: seq<Byte> := [0x66, 0x6f];
    assert Sextets(fo) == [25, 38, 60] by {
      assert At(fo, 0) == 0x66 && At(fo, 1) == 0x6f && At(fo, 2) == 0;
    }
    var foo: seq<Byte> := [0x66, 0x6f, 0x6f];
    assert Sextets(foo) == [25, 38, 61, 47] by {
      assert At(foo, 0) == 0x66 && At(foo, 1) == 0x6f && At(foo, 2) == 0x6f;
    }
  }

  // ---------------------------------------------------------------------
  // The three operations of the decoder

  /** `B64.__w2bytes(word, length)`: the first `min(length, 4)` bytes of
      `word`, most significant first. */
  method WordToBytes(word: bv32, length: int) returns (ba: seq<Byte>)
    ensures |ba| == if length < 0 then 0 else if length > 4 then 4 else length
    ensures forall j :: 0 <= j < |ba| ==> ba[j] == ByteOf(word, j)
  {
    ba := [];
    if length > 0 {
      ba := ba + [(word >> 24) as Byte];
    }
    if length > 1 {
      ba := ba + [((word >> 16) & 0xFF) as Byte];
    }
    if length > 2 {
      ba := ba + [((word >> 8) & 0xFF) as Byte];
    }
    if length > 3 {
      ba := ba + [(word & 0xFF) as Byte];
    }
  }

  /** A word of a JavaScript array: past its end the array yields
      `undefined`, which the shift operators read as 0. */
  function WordAt(warray: seq<bv32>, i: int): bv32
  {
    if 0 <= i < |warray| then warray[i] else 0
  }

  /** Byte `j` of a word array read as big-endian bytes, four to a word. */
  function ByteAt(words: seq<bv32>, j: nat): Byte
  {
    ByteOf(WordAt(words, j / 4), j % 4)
  }

  /** `B64.__warray2bytes(warray, length)`: the big-endian bytes of
      `warray[0]`, `warray[1]`, ..., cut off after `length` bytes. */
  method WordsToBytes(warray: seq<bv32>, length: int) returns (result: seq<Byte>)
    ensures |result| == if length < 0 then 0 else length
    ensures forall j :: 0 <= j < |result| ==> result[j] == ByteAt(warray, j)
  {
    result := [];
    var bytes: seq<Byte> := [];
    var i := 0;
    var len := length;
    while len > 0
      invariant |result| + len == length
      invariant len > 0 ==> |result| == 4 * i
      invariant length > 0 ==> len >= 0
      invariant length <= 0 ==> result == []
      invariant forall j :: 0 <= j < |result| ==> result[j] == ByteAt(warray, j)
    {
      bytes := WordToBytes(WordAt(warray, i), if len < 4 then len else 4);
      len := len - |bytes|;
      result := result + bytes;
      i := i + 1;
    }
  }

  /** `B64.decode(b64)`. It always returns one byte per position before the
      first pad whose index is not a multiple of 4; for a well-formed string
      the word array is at every step the packing of the bytes decoded so
      far, although the code ORs unmasked values into shared 32-bit words,
      so the result is DecodeSpec. */
  method Decode(b64: string) returns (bytes: seq<Byte>)
    ensures |bytes| == DataCount(LogicalLength(b64))
    ensures forall j :: 0 <= j < |bytes| ==> bytes[j] == ByteAt(Words(b64, LogicalLength(b64)), j)
    ensures WellFormed(b64) ==> bytes == DecodeSpec(b64)
  {
    var base64StrLength := |b64|;

    // Ignore padding: `paddingChar` is the table's last character, never empty.
    MapIsTable(64);
    var paddingChar := Map[64];
    var paddingIndex := IndexOf(b64, paddingChar);
    if paddingIndex != -1 {
      base64StrLength := paddingIndex;
    }
    assert base64StrLength == LogicalLength(b64);

    var buf: seq<bv32> := [];
    var nBytes := 0;
    var i := 0;
    while i < base64StrLength
      invariant 0 <= i <= base64StrLength
      invariant nBytes == DataCount(i) && buf == Words(b64, i)
    {
      DataCountStep(i);
      if i % 4 != 0 {
        var x := PlaceBits(Value(b64[i - 1]), Value(b64[i]), i % 4, nBytes % 4);
        ghost var c := Combine(Value(b64[i - 1]), Value(b64[i]), i % 4);
        WordsNext(b64, i);
        if nBytes / 4 == |buf| {
          StoreNew(buf, nBytes, c, x);
          buf := buf + [x];
        } else {
          StoreLast(buf, nBytes, c, x);
          buf := buf[nBytes / 4 := buf[nBytes / 4] | x];
        }
        nBytes := nBytes + 1;
      } else {
        WordsSkip(b64, i);
      }
      i := i + 1;
    }

    bytes := WordsToBytes(buf, nBytes);
    if WellFormed(b64) {
      DecodeResult(b64, bytes);
    }
  }

  /** The word array Decode holds after the first `n` characters of `s`:
      each position `i` with `i % 4 != 0` ORs its combination into it. */
  function Words(s: string, n: nat): (r: seq<bv32>)
    requires n <= |s|
    ensures |r| == (DataCount(n) + 3) / 4
  {
    if n == 0 then []
    else
      var m := n - 1;
      var prev := Words(s, m);
      DataCountStep(m);
      if m % 4 == 0 then prev
      else
        var c := Combine(Value(s[m - 1]), Value(s[m]), m % 4);
        OrIntoLength(prev, DataCount(m), c);
        OrInto(prev, DataCount(m), c)
  }

  /** A position with `i % 4 != 0` ORs its combination into the word array. */
  lemma WordsNext(s: string, i: nat)
    requires 0 < i < |s| && i % 4 != 0
    ensures DataCount(i) / 4 <= |Words(s, i)|
    ensures Words(s, i + 1) == OrInto(Words(s, i), DataCount(i), Combine(Value(s[i - 1]), Value(s[i]), i % 4))
  {
    OrIntoLength(Words(s, i), DataCount(i), Combine(Value(s[i - 1]), Value(s[i]), i % 4));
  }

  /** A position with `i % 4 == 0` leaves the word array as it is. */
  lemma WordsSkip(s: string, i: nat)
    requires i < |s| && i % 4 == 0
    ensures Words(s, i + 1) == Words(s, i)
  {}

  /** For a well-formed string the word array is at every step the packing
      of the bytes decoded so far, although the decoder ORs unmasked values
      into shared 32-bit words. */
  lemma {:induction false} WordsArePacked(s: string, n: nat)
    requires WellFormed(s) && n <= LogicalLength(s)
    ensures Words(s, n) == Pack(DecodePrefix(s, n))
  {
    if n > 0 {
      WordsArePacked(s, n - 1);
      if (n - 1) % 4 != 0 {
        DecodeStep(s, n - 1, Words(s, n - 1));
      }
    }
  }

  /** Reading the final word array back gives the decoded prefix. */
  lemma DecodeResult(s: string, bytes: seq<Byte>)
    requires WellFormed(s)
    requires |bytes| == DataCount(LogicalLength(s))
    requires forall j :: 0 <= j < |bytes| ==> bytes[j] == ByteAt(Words(s, LogicalLength(s)), j)
    ensures bytes == DecodeSpec(s)
  {
    var l := LogicalLength(s);
    WordsArePacked(s, l);
    forall j | 0 <= j < |bytes|
      ensures bytes[j] == DecodeSpec(s)[j]
    {
      UnpackPack(DecodePrefix(s, l), j);
    }
  }

  /** The loop step of Decode: storing the byte of position `i` turns the
      packing of the prefix before `i` into the packing of the prefix
      through `i`. */
  lemma DecodeStep(s: string, i: nat, buf: seq<bv32>)
    requires WellFormed(s) && 0 < i < LogicalLength(s) && i % 4 != 0
    requires buf == Pack(DecodePrefix(s, i))
    ensures DataCount(i) / 4 <= |buf|
    ensures OrInto(buf, DataCount(i), Combine(Value(s[i - 1]), Value(s[i]), i % 4)) == Pack(DecodePrefix(s, i + 1))
  {
    ValuesBelow64(s);
    if i % 4 == 1 {
      DecodeStep1(s, i);
    } else if i % 4 == 2 {
      DecodeStep2(s, i);
    } else {
      DecodeStep3(s, i);
    }
  }

  /** Every character before the first pad of a well-formed text has a 6-bit value. */
  lemma ValuesBelow64(s: string)
    requires WellFormed(s)
    ensures forall j :: 0 <= j < LogicalLength(s) ==> Value(s[j]) < 64
  {
    forall j | 0 <= j < LogicalLength(s) ensures Value(s[j]) < 64 {
      ValueBelow64(s[j]);
    }
  }

  lemma DecodeStep1(s: string, i: nat)
    requires 0 < i < |s| && i % 4 == 1 && Value(s[i - 1]) < 64 && Value(s[i]) < 64
    ensures DataCount(i) / 4 <= |Pack(DecodePrefix(s, i))|
    ensures OrInto(Pack(DecodePrefix(s, i)), DataCount(i), Combine(Value(s[i - 1]), Value(s[i]), 1))
            == Pack(DecodePrefix(s, i + 1))
  {
    assert DecodePrefix(s, i + 1) == DecodePrefix(s, i) + [CharByte(s, i)];
    PackStep(DecodePrefix(s, i), 1, 0, Value(s[i - 1]), Value(s[i]));
  }

  lemma DecodeStep2(s: string, i: nat)
    requires 1 < i < |s| && i % 4 == 2 && Value(s[i - 2]) < 64 && Value(s[i - 1]) < 64 && Value(s[i]) < 64
    ensures DataCount(i) / 4 <= |Pack(DecodePrefix(s, i))|
    ensures OrInto(Pack(DecodePrefix(s, i)), DataCount(i), Combine(Value(s[i - 1]), Value(s[i]), 2))
            == Pack(DecodePrefix(s, i + 1))
  {
    assert (i - 1) % 4 == 1;
    assert CharByte(s, i - 1) == Low(Combine(Value(s[i - 2]), Value(s[i - 1]), 1));
    assert DecodePrefix(s, i) == DecodePrefix(s, i - 1) + [CharByte(s, i - 1)];
    assert DecodePrefix(s, i + 1) == DecodePrefix(s, i) + [CharByte(s, i)];
    PackStep(DecodePrefix(s, i), 2, Value(s[i - 2]), Value(s[i - 1]), Value(s[i]));
  }

  lemma DecodeStep3(s: string, i: nat)
    requires 2 < i < |s| && i % 4 == 3 && Value(s[i - 2]) < 64 && Value(s[i - 1]) < 64 && Value(s[i]) < 64
    ensures DataCount(i) / 4 <= |Pack(DecodePrefix(s, i))|
    ensures OrInto(Pack(DecodePrefix(s, i)), DataCount(i), Combine(Value(s[i - 1]), Value(s[i]), 3))
            == Pack(DecodePrefix(s, i + 1))
  {
    assert (i - 1) % 4 == 2;
    assert CharByte(s, i - 1) == Low(Combine(Value(s[i - 2]), Value(s[i - 1]), 2));
    assert DecodePrefix(s, i) == DecodePrefix(s, i - 1) + [CharByte(s, i - 1)];
    assert DecodePrefix(s, i + 1) == DecodePrefix(s, i) + [CharByte(s, i)];
    PackStep(DecodePrefix(s, i), 3, Value(s[i - 2]), Value(s[i - 1]), Value(s[i]));
  }
}
