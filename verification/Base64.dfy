/** Unpadded base64url (RFC 4648, section 5) with the canonical-padding-bits check of its section 3.5. */
module Base64 {
  import opened Calendar

  type Byte = n: nat | n < 256

  type Bytes = seq<Byte>

  type Sextet = n: nat | n < 64

  /** The URL and filename safe alphabet. */
  function Letter(v: Sextet): char {
    if v < 26 then ('A' as int + v) as char
    else if v < 52 then ('a' as int + v - 26) as char
    else if v < 62 then ('0' as int + v - 52) as char
    else if v == 62 then '-' else '_'
  }

  predicate InAlphabet(c: char) { 'A' <= c <= 'Z' || 'a' <= c <= 'z' || '0' <= c <= '9' || c == '-' || c == '_' }

  function ValueOf(c: char): Sextet
    requires InAlphabet(c)
  {
    if 'A' <= c <= 'Z' then c as int - 'A' as int
    else if 'a' <= c <= 'z' then c as int - 'a' as int + 26
    else if '0' <= c <= '9' then c as int - '0' as int + 52
    else if c == '-' then 62 else 63
  }

  lemma LetterValue(v: Sextet, c: char)
    ensures InAlphabet(Letter(v)) && ValueOf(Letter(v)) == v
    ensures InAlphabet(c) ==> Letter(ValueOf(c)) == c
  {
  }

  predicate Spelled(s: string) { forall c | c in s :: InAlphabet(c) }

  // One to three bytes as two to four characters, and back.

  function Pair(b0: Byte): string { [Letter(b0 / 4), Letter(b0 % 4 * 16)] }

  function Triple(b0: Byte, b1: Byte): string { [Letter(b0 / 4), Letter(b0 % 4 * 16 + b1 / 16), Letter(b1 % 16 * 4)] }

  function Quad(b0: Byte, b1: Byte, b2: Byte): string {
    [Letter(b0 / 4), Letter(b0 % 4 * 16 + b1 / 16), Letter(b1 % 16 * 4 + b2 / 64), Letter(b2 % 64)]
  }

  function First(v0: Sextet, v1: Sextet): Byte { v0 * 4 + v1 / 16 }

  function Second(v1: Sextet, v2: Sextet): Byte { v1 % 16 * 16 + v2 / 4 }

  function Third(v2: Sextet, v3: Sextet): Byte { v2 % 4 * 64 + v3 }

  /** Packing sextets into bytes and splitting bytes into sextets are inverse. */
  lemma BytesOfSextets(b0: Byte, b1: Byte, b2: Byte)
    ensures First(b0 / 4, b0 % 4 * 16 + b1 / 16) == b0
    ensures Second(b0 % 4 * 16 + b1 / 16, b1 % 16 * 4 + b2 / 64) == b1
    ensures Third(b1 % 16 * 4 + b2 / 64, b2 % 64) == b2
  {
  }

  lemma SextetsOfBytes(v0: Sextet, v1: Sextet, v2: Sextet, v3: Sextet)
    ensures var b0, b1, b2 := First(v0, v1), Second(v1, v2), Third(v2, v3);
      && b0 / 4 == v0 && b0 % 4 * 16 + b1 / 16 == v1 && b1 % 16 * 4 + b2 / 64 == v2 && b2 % 64 == v3
    ensures First(v0, v1) % 4 * 16 == v1 <==> v1 % 16 == 0
    ensures Second(v1, v2) % 16 * 4 == v2 <==> v2 % 4 == 0
  {
  }

  /** _b64encode: groups of three bytes, the last one shorter, without the padding. */
  function Encode(b: Bytes): string {
    if |b| == 0 then ""
    else if |b| == 1 then Pair(b[0])
    else if |b| == 2 then Triple(b[0], b[1])
    else Quad(b[0], b[1], b[2]) + Encode(b[3..])
  }

  /** urlsafe_b64decode of the text padded with '=': bits left over after the last whole byte are dropped, and a last
      group of one character is an error. */
  function DecodeLoosely(s: string): Option<Bytes>
    requires Spelled(s)
  {
    if |s| == 0 then Some([])
    else if |s| == 1 then None
    else
      var v0, v1 := ValueOf(s[0]), ValueOf(s[1]);
      if |s| == 2 then Some([First(v0, v1)]) else
        var v2 := ValueOf(s[2]);
        if |s| == 3 then Some([First(v0, v1), Second(v1, v2)]) else
          match DecodeLoosely(s[4..])
          case None => None
          case Some(rest) => Some([First(v0, v1), Second(v1, v2), Third(v2, ValueOf(s[3]))] + rest)
  }

  /** _b64decode */
  function Decode(s: string): Option<Bytes> {
    if s == "" || !Spelled(s) then None else
      match DecodeLoosely(s)
      case None => None
      case Some(b) => if Encode(b) == s then Some(b) else None
  }

  lemma GroupInverse(b0: Byte, b1: Byte, b2: Byte)
    ensures var q := Quad(b0, b1, b2);
      && Spelled(q) && First(ValueOf(q[0]), ValueOf(q[1])) == b0 && Second(ValueOf(q[1]), ValueOf(q[2])) == b1
      && Third(ValueOf(q[2]), ValueOf(q[3])) == b2
    ensures var t := Triple(b0, b1);
      Spelled(t) && First(ValueOf(t[0]), ValueOf(t[1])) == b0 && Second(ValueOf(t[1]), ValueOf(t[2])) == b1
    ensures var p := Pair(b0); Spelled(p) && First(ValueOf(p[0]), ValueOf(p[1])) == b0
  {
    hide Letter, ValueOf, InAlphabet, First, Second, Third;
    BytesOfSextets(b0, b1, b2);
    BytesOfSextets(b0, b1, 0);
    BytesOfSextets(b0, 0, 0);
    LetterValue(b0 / 4, 'A');
    LetterValue(b0 % 4 * 16, 'A');
    LetterValue(b0 % 4 * 16 + b1 / 16, 'A');
    LetterValue(b1 % 16 * 4, 'A');
    LetterValue(b1 % 16 * 4 + b2 / 64, 'A');
    LetterValue(b2 % 64, 'A');
  }

  lemma {:induction false} LooseInverse(b: Bytes)
    ensures Spelled(Encode(b)) && DecodeLoosely(Encode(b)) == Some(b)
  {
    hide Quad, Triple, Pair, First, Second, Third, ValueOf, InAlphabet;
    if |b| == 1 {
      GroupInverse(b[0], 0, 0);
      PairLength(b[0], 0, 0);
      assert b == [b[0]];
    } else if |b| == 2 {
      GroupInverse(b[0], b[1], 0);
      PairLength(b[0], b[1], 0);
      assert b == [b[0], b[1]];
    } else if |b| >= 3 {
      GroupInverse(b[0], b[1], b[2]);
      PairLength(b[0], b[1], b[2]);
      LooseInverse(b[3..]);
      assert Encode(b)[4..] == Encode(b[3..]);
      assert b == [b[0], b[1], b[2]] + b[3..];
    }
  }

  lemma PairLength(b0: Byte, b1: Byte, b2: Byte)
    ensures |Pair(b0)| == 2 && |Triple(b0, b1)| == 3 && |Quad(b0, b1, b2)| == 4
  {
  }

  /** Every non-empty byte string decodes from its encoding. */
  lemma DecodeInvertsEncode(b: Bytes)
    ensures Decode(Encode(b)) == if b == [] then None else Some(b)
  {
    LooseInverse(b);
  }

  /** The bits a last short group carries beyond its bytes. */
  predicate PadBitsZero(s: string)
    requires Spelled(s)
  {
    if |s| % 4 == 2 then ValueOf(s[|s| - 1]) % 16 == 0
    else if |s| % 4 == 3 then ValueOf(s[|s| - 1]) % 4 == 0
    else true
  }

  lemma Regroup(c0: char, c1: char, c2: char, c3: char)
    requires InAlphabet(c0) && InAlphabet(c1) && InAlphabet(c2) && InAlphabet(c3)
    ensures var v0, v1, v2, v3 := ValueOf(c0), ValueOf(c1), ValueOf(c2), ValueOf(c3);
      && Quad(First(v0, v1), Second(v1, v2), Third(v2, v3)) == [c0, c1, c2, c3]
      && (Triple(First(v0, v1), Second(v1, v2)) == [c0, c1, c2] <==> v2 % 4 == 0)
      && (Pair(First(v0, v1)) == [c0, c1] <==> v1 % 16 == 0)
  {
    hide Letter, ValueOf, InAlphabet, First, Second, Third;
    var v0, v1, v2, v3 := ValueOf(c0), ValueOf(c1), ValueOf(c2), ValueOf(c3);
    SextetsOfBytes(v0, v1, v2, v3);
    LetterValue(0, c0);
    LetterValue(0, c1);
    LetterValue(0, c2);
    LetterValue(0, c3);
    LetterValue(First(v0, v1) % 4 * 16, 'A');
    LetterValue(Second(v1, v2) % 16 * 4, 'A');
  }

  lemma {:induction false} ReencodesExactly(s: string)
    requires Spelled(s)
    ensures DecodeLoosely(s).None? <==> |s| % 4 == 1
    ensures DecodeLoosely(s).Some? ==> (Encode(DecodeLoosely(s).value) == s <==> PadBitsZero(s))
  {
    hide Quad, Triple, Pair, First, Second, Third, ValueOf, InAlphabet;
    if |s| == 2 {
      assert s == [s[0], s[1]];
      Regroup(s[0], s[1], s[0], s[0]);
    } else if |s| == 3 {
      assert s == [s[0], s[1], s[2]];
      Regroup(s[0], s[1], s[2], s[0]);
    } else if |s| >= 4 {
      ReencodesExactly(s[4..]);
      if DecodeLoosely(s).Some? { FullGroupReencodes(s); }
    }
  }

  /** A full group is encoded back as it was read. */
  lemma FullGroupReencodes(s: string)
    requires Spelled(s) && |s| >= 4 && DecodeLoosely(s).Some?
    ensures DecodeLoosely(s[4..]).Some?
    ensures Encode(DecodeLoosely(s).value) == s <==> Encode(DecodeLoosely(s[4..]).value) == s[4..]
  {
    hide Quad, Triple, Pair, First, Second, Third, ValueOf, InAlphabet;
    Regroup(s[0], s[1], s[2], s[3]);
    var rest := DecodeLoosely(s[4..]).value;
    assert DecodeLoosely(s).value[3..] == rest;
    assert Encode(DecodeLoosely(s).value) == [s[0], s[1], s[2], s[3]] + Encode(rest);
    assert s == [s[0], s[1], s[2], s[3]] + s[4..];
    PrefixCancels([s[0], s[1], s[2], s[3]], Encode(rest), s[4..]);
  }

  lemma PrefixCancels(p: string, x: string, y: string)
    ensures p + x == p + y <==> x == y
  {
    if p + x == p + y { assert x == (p + x)[|p|..] == (p + y)[|p|..] == y; }
  }

  /** A text is accepted exactly when it is non-empty, in the alphabet, of a possible length, and its spare bits are
      zero; it is then the only encoding of its bytes. */
  lemma AcceptsExactlyEncodings(s: string)
    ensures Decode(s).Some? <==> s != "" && Spelled(s) && |s| % 4 != 1 && PadBitsZero(s)
    ensures forall b | b != [] :: Decode(s) == Some(b) <==> Encode(b) == s
  {
    if Spelled(s) { ReencodesExactly(s); }
    forall b | b != [] && Encode(b) == s ensures Decode(s) == Some(b) { DecodeInvertsEncode(b); }
    forall b | b != [] && Decode(s) == Some(b) ensures Encode(b) == s {}
  }

  lemma {:induction false} EncodedLength(b: Bytes)
    ensures 3 * |Encode(b)| <= 4 * |b| + 2
    ensures Encode(b) == "" <==> b == []
  {
    if |b| >= 3 { EncodedLength(b[3..]); }
  }

  // ---------------------------------------------------------------- the encoding, digit by digit

  /** Bytes beyond the end count as zero. */
  function ByteAt(b: Bytes, i: nat): nat { if i < |b| then b[i] else 0 }

  /** The character at place `i` stands for the value in the URL-safe alphabet, by ASCII code; characters beyond the end
      stand for zero. */
  ghost predicate Spells(s: string, i: nat, v: nat) {
    && v < 64
    && if i >= |s| then v == 0
       else s[i] as int == if v < 26 then 65 + v else if v < 52 then 71 + v else if v < 62 then v - 4
         else if v == 62 then 45 else 95
  }

  /** Each three bytes, read as one number of 24 bits, are the four characters read as digits to base 64; and there are
      as many characters as it takes to hold the bits. */
  lemma {:induction false} EncodeMeans(b: Bytes, g: nat) returns (v: seq<nat>)
    requires 3 * g < |b|
    ensures |Encode(b)| == (4 * |b| + 2) / 3
    ensures |v| == 4 && forall i | 0 <= i < 4 :: Spells(Encode(b), 4 * g + i, v[i])
    ensures ByteAt(b, 3 * g) * 65536 + ByteAt(b, 3 * g + 1) * 256 + ByteAt(b, 3 * g + 2)
      == v[0] * 262144 + v[1] * 4096 + v[2] * 64 + v[3]
  {
    hide Quad, Triple, Pair;
    ExactLength(b);
    if g == 0 {
      var b0, b1, b2 := b[0], ByteAt(b, 1), ByteAt(b, 2);
      v := [b0 / 4, b0 % 4 * 16 + b1 / 16, b1 % 16 * 4 + b2 / 64, b2 % 64];
      SameBits(b0, b1, b2);
      FirstLetters(b);
    } else {
      v := EncodeMeans(b[3..], g - 1);
      PairLength(b[0], b[1], b[2]);
      assert Encode(b)[4..] == Encode(b[3..]);
      forall i | 0 <= i < 4 ensures Spells(Encode(b), 4 * g + i, v[i]) {
        LaterLetter(Encode(b), 4 * (g - 1) + i, v[i]);
      }
    }
  }

  lemma LaterLetter(s: string, i: nat, v: nat)
    requires |s| >= 4
    ensures Spells(s[4..], i, v) <==> Spells(s, i + 4, v)
  {
  }

  lemma {:induction false} ExactLength(b: Bytes)
    ensures |Encode(b)| == (4 * |b| + 2) / 3
  {
    if |b| >= 3 { ExactLength(b[3..]); }
  }

  lemma SameBits(b0: Byte, b1: Byte, b2: Byte)
    ensures b0 * 65536 + b1 * 256 + b2
      == b0 / 4 * 262144 + (b0 % 4 * 16 + b1 / 16) * 4096 + (b1 % 16 * 4 + b2 / 64) * 64 + b2 % 64
  {
  }

  lemma LetterSpells(s: string, i: nat, v: Sextet)
    requires i < |s| && s[i] == Letter(v)
    ensures Spells(s, i, v)
  {
  }

  lemma FirstLetters(b: Bytes)
    requires b != []
    ensures var (b0, b1, b2) := (b[0], ByteAt(b, 1), ByteAt(b, 2)); var s := Encode(b);
      && Spells(s, 0, b0 / 4) && Spells(s, 1, b0 % 4 * 16 + b1 / 16)
      && Spells(s, 2, b1 % 16 * 4 + b2 / 64) && Spells(s, 3, b2 % 64)
  {
    hide Letter, Spells;
    var s := Encode(b);
    if |b| == 1 {
      LetterSpells(s, 0, b[0] / 4);
      LetterSpells(s, 1, b[0] % 4 * 16);
      BeyondEnd(s, 2);
      BeyondEnd(s, 3);
    } else if |b| == 2 {
      LetterSpells(s, 0, b[0] / 4);
      LetterSpells(s, 1, b[0] % 4 * 16 + b[1] / 16);
      LetterSpells(s, 2, b[1] % 16 * 4);
      BeyondEnd(s, 3);
    } else {
      FullGroup(b);
    }
  }

  lemma BeyondEnd(s: string, i: nat)
    requires i >= |s|
    ensures Spells(s, i, 0)
  {
  }

  lemma FullGroup(b: Bytes)
    requires |b| >= 3
    ensures var s := Encode(b);
      && Spells(s, 0, b[0] / 4) && Spells(s, 1, b[0] % 4 * 16 + b[1] / 16)
      && Spells(s, 2, b[1] % 16 * 4 + b[2] / 64) && Spells(s, 3, b[2] % 64)
  {
    hide Letter, Spells;
    var s := Encode(b);
    assert s[..4] == Quad(b[0], b[1], b[2]);
    LetterSpells(s, 0, b[0] / 4);
    LetterSpells(s, 1, b[0] % 4 * 16 + b[1] / 16);
    LetterSpells(s, 2, b[1] % 16 * 4 + b[2] / 64);
    LetterSpells(s, 3, b[2] % 64);
  }
}
