/** Base64 with padding, section 4 of RFC 4648, over the ASCII codes of its alphabet.
    Bytes are first regrouped into 6-bit symbols, and the symbols are then spelled out. */
module Base64 {
  import opened Types

  /** Six bits, or 64 for the padding mark. */
  type symbol = v: int | 0 <= v <= 64

  const PAD: symbol := 64

  // ----- Spelling -----

  function Letter(v: symbol): byte {
    if v < 26 then 65 + v
    else if v < 52 then 71 + v
    else if v < 62 then v - 4
    else if v == 62 then 43
    else if v == 63 then 47
    else 61
  }

  function LetterValue(c: byte): Option<symbol> {
    if 65 <= c <= 90 then Some(c - 65)
    else if 97 <= c <= 122 then Some(c - 71)
    else if 48 <= c <= 57 then Some(c + 4)
    else if c == 43 then Some(62)
    else if c == 47 then Some(63)
    else if c == 61 then Some(64)
    else None
  }

  lemma {:induction false} LetterRoundTrip(v: symbol, c: byte)
    ensures LetterValue(c) == Some(v) <==> c == Letter(v)
  {
  }

  function Spell(vs: seq<symbol>): Bytes {
    seq(|vs|, i requires 0 <= i < |vs| => Letter(vs[i]))
  }

  function Read(t: Bytes): Option<seq<symbol>> {
    if forall i | 0 <= i < |t| :: LetterValue(t[i]).Some?
    then Some(seq(|t|, i requires 0 <= i < |t| => LetterValue(t[i]).value))
    else None
  }

  lemma {:induction false} ReadIffSpelled(t: Bytes, vs: seq<symbol>)
    ensures Read(t) == Some(vs) <==> t == Spell(vs)
  {
    forall i | 0 <= i < |t| && i < |vs|
      ensures LetterValue(t[i]) == Some(vs[i]) <==> t[i] == Letter(vs[i])
    {
      LetterRoundTrip(vs[i], t[i]);
    }
    if Read(t) == Some(vs) {
      assert forall i | 0 <= i < |t| :: vs[i] == LetterValue(t[i]).value;
      assert t == Spell(vs);
    }
    if t == Spell(vs) {
      assert forall i | 0 <= i < |t| :: LetterValue(t[i]) == Some(vs[i]);
      assert Read(t).value == vs;
    }
  }

  // ----- Regrouping -----

  function Byte0(a: int, b: int): byte
    requires 0 <= a < 64 && 0 <= b < 64
  {
    a * 4 + b / 16
  }

  function Byte1(b: int, c: int): byte
    requires 0 <= b < 64 && 0 <= c < 64
  {
    b % 16 * 16 + c / 4
  }

  function Byte2(c: int, d: int): byte
    requires 0 <= c < 64 && 0 <= d < 64
  {
    c % 4 * 64 + d
  }

  function Pack(s: Bytes): seq<symbol>
    decreases |s|
  {
    if |s| == 0 then []
    else if |s| == 1 then [s[0] / 4, s[0] % 4 * 16, PAD, PAD]
    else if |s| == 2 then [s[0] / 4, s[0] % 4 * 16 + s[1] / 16, s[1] % 16 * 4, PAD]
    else
      [s[0] / 4, s[0] % 4 * 16 + s[1] / 16, s[1] % 16 * 4 + s[2] / 64, s[2] % 64] + Pack(s[3..])
  }

  /** Strict: padding only at the end, and the bits it leaves unused are zero. */
  function Unpack(v: seq<symbol>): Option<Bytes>
    decreases |v|
  {
    if |v| == 0 then Some([])
    else if |v| < 4 || v[0] == PAD || v[1] == PAD then None
    else if v[2] == PAD then
      if v[3] == PAD && |v| == 4 && v[1] % 16 == 0 then Some([Byte0(v[0], v[1])]) else None
    else if v[3] == PAD then
      if |v| == 4 && v[2] % 4 == 0 then Some([Byte0(v[0], v[1]), Byte1(v[1], v[2])]) else None
    else
      match Unpack(v[4..])
      case None => None
      case Some(rest) => Some([Byte0(v[0], v[1]), Byte1(v[1], v[2]), Byte2(v[2], v[3])] + rest)
  }

  /** Regrouping three bytes into sextets and back. */
  lemma {:induction false} Regroups(x: int, y: int, z: int)
    requires 0 <= x < 256 && 0 <= y < 256 && 0 <= z < 256
    ensures var a, b, c, d := x / 4, x % 4 * 16 + y / 16, y % 16 * 4 + z / 64, z % 64;
            && 0 <= a < 64 && 0 <= b < 64 && 0 <= c < 64 && 0 <= d < 64
            && Byte0(a, b) == x && Byte1(b, c) == y && Byte2(c, d) == z
  {
  }

  lemma {:induction false} UnpackPack(s: Bytes)
    ensures Unpack(Pack(s)) == Some(s)
    decreases |s|
  {
    hide Byte0, Byte1, Byte2;
    if |s| > 2 {
      UnpackPack(s[3..]);
      Regroups(s[0], s[1], s[2]);
      assert Pack(s)[4..] == Pack(s[3..]);
      assert s == [s[0], s[1], s[2]] + s[3..];
    } else if |s| == 2 {
      Regroups(s[0], s[1], 0);
      assert s == [s[0], s[1]];
    } else if |s| == 1 {
      Regroups(s[0], 0, 0);
      assert s == [s[0]];
    }
  }

  lemma {:induction false} Sextets(a: int, b: int, c: int, d: int)
    requires 0 <= a < 64 && 0 <= b < 64 && 0 <= c < 64 && 0 <= d < 64
    ensures Byte0(a, b) / 4 == a && Byte0(a, b) % 4 * 16 + Byte1(b, c) / 16 == b
    ensures Byte1(b, c) % 16 * 4 + Byte2(c, d) / 64 == c && Byte2(c, d) % 64 == d
    ensures b % 16 == 0 ==> Byte0(a, b) % 4 * 16 == b
    ensures c % 4 == 0 ==> Byte1(b, c) % 16 * 4 == c
  {
  }

  lemma {:induction false} PackFullGroup(a: symbol, b: symbol, c: symbol, d: symbol, rest: Bytes)
    requires a < 64 && b < 64 && c < 64 && d < 64
    ensures Pack([Byte0(a, b), Byte1(b, c), Byte2(c, d)] + rest) == [a, b, c, d] + Pack(rest)
  {
    hide Byte0, Byte1, Byte2;
    var x, y, z := Byte0(a, b), Byte1(b, c), Byte2(c, d);
    Sextets(a, b, c, d);
    assert ([x, y, z] + rest)[3..] == rest;
  }

  lemma {:induction false} PackLastGroup(v: seq<symbol>)
    requires |v| == 4 && v[3] == PAD && Unpack(v).Some?
    ensures Pack(Unpack(v).value) == v
  {
    Sextets(v[0], v[1], if v[2] == PAD then 0 else v[2], 0);
    assert v == [v[0], v[1], v[2], v[3]];
  }

  lemma {:induction false} PackUnpack(v: seq<symbol>)
    requires Unpack(v).Some?
    ensures Pack(Unpack(v).value) == v
    decreases |v|
  {
    if |v| > 0 {
      if v[3] == PAD {
        PackLastGroup(v);
      } else {
        PackUnpack(v[4..]);
        PackFullGroup(v[0], v[1], v[2], v[3], Unpack(v[4..]).value);
        assert v == [v[0], v[1], v[2], v[3]] + v[4..];
      }
    }
  }

  // ----- Text -----

  function Encode(s: Bytes): Bytes {
    Spell(Pack(s))
  }

  function Decode(t: Bytes): Option<Bytes> {
    match Read(t)
    case None => None
    case Some(vs) => Unpack(vs)
  }

  /** Decoding accepts a text exactly when it is the encoding of the result. */
  lemma {:induction false} DecodeIffEncoded(t: Bytes, s: Bytes)
    ensures Decode(t) == Some(s) <==> t == Encode(s)
  {
    UnpackPack(s);
    ReadIffSpelled(t, Pack(s));
    if Decode(t) == Some(s) {
      PackUnpack(Read(t).value);
    }
  }

  /** Equal text means equal bytes, so the text may serve as a map key. */
  lemma {:induction false} EncodeInjective(a: Bytes, b: Bytes)
    requires Encode(a) == Encode(b)
    ensures a == b
  {
    DecodeIffEncoded(Encode(a), a);
    DecodeIffEncoded(Encode(b), b);
  }

  lemma {:induction false} NoQuotes(s: Bytes)
    ensures forall i | 0 <= i < |Encode(s)| :: Encode(s)[i] != 34
  {
  }

  // ----- The text itself -----

  const ALPHABET := "ABCDEFGHIJKLMNOPQRSTUVWXYZabcdefghijklmnopqrstuvwxyz0123456789+/"

  /** The letters are those of table 1 in RFC 4648, and the padding mark is `=`. */
  lemma {:induction false} LettersOfAlphabet(v: symbol)
    ensures |ALPHABET| == 64
    ensures Letter(v) == if v < 64 then ALPHABET[v] as int else '=' as int
  {
    if v < 26 {
      UpperLetters(v);
      assert ALPHABET[v] == "ABCDEFGHIJKLMNOPQRSTUVWXYZ"[v];
    }
  }

  lemma {:induction false} UpperLetters(v: int)
    requires 0 <= v < 26
    ensures "ABCDEFGHIJKLMNOPQRSTUVWXYZ"[v] as int == 65 + v
  {
  }

  /** `t` spells the sextets `a`, `b`, `c`, `d` in four letters; 64 stands for padding. */
  ghost predicate Spells(t: Bytes, a: int, b: int, c: int, d: int) {
    && |t| >= 4
    && 0 <= a < 64 && 0 <= b < 64 && 0 <= c <= 64 && 0 <= d <= 64
    && t[0] == ALPHABET[a] as int
    && t[1] == ALPHABET[b] as int
    && t[2] == (if c < 64 then ALPHABET[c] as int else '=' as int)
    && t[3] == (if d < 64 then ALPHABET[d] as int else '=' as int)
  }

  lemma {:induction false} SpellsLetters(t: Bytes, a: symbol, b: symbol, c: symbol, d: symbol)
    requires a < 64 && b < 64 && |t| >= 4
    requires t[0] == Letter(a) && t[1] == Letter(b) && t[2] == Letter(c) && t[3] == Letter(d)
    ensures Spells(t, a, b, c, d)
  {
    hide Letter;
    LettersOfAlphabet(a);
    LettersOfAlphabet(b);
    LettersOfAlphabet(c);
    LettersOfAlphabet(d);
  }

  /** Three bytes become four letters whose sextets have the same value in base 64; the rest of
      the text encodes the rest of the bytes. */
  lemma {:induction false} FullGroupText(s: Bytes) returns (a: int, b: int, c: int, d: int)
    requires |s| >= 3
    ensures Spells(Encode(s), a, b, c, d) && c < 64 && d < 64
    ensures a * 262144 + b * 4096 + c * 64 + d == s[0] as int * 65536 + s[1] as int * 256 + s[2] as int
    ensures Encode(s)[4..] == Encode(s[3..])
  {
    var x: int, y: int, z: int := s[0], s[1], s[2];
    a, b, c, d := x / 4, x % 4 * 16 + y / 16, y % 16 * 4 + z / 64, z % 64;
    assert Pack(s) == [a, b, c, d] + Pack(s[3..]);
    SpellsLetters(Encode(s), a, b, c, d);
    assert Encode(s)[4..] == Encode(s[3..]);
  }

  /** A last group of two bytes becomes three letters and one padding mark, of one byte two
      letters and two marks; the sextets have the value of the bytes followed by zero bits. */
  lemma {:induction false} LastGroupText(s: Bytes) returns (a: int, b: int, c: int)
    ensures |s| == 0 ==> Encode(s) == []
    ensures |s| == 1 ==> |Encode(s)| == 4 && Spells(Encode(s), a, b, 64, 64) && a * 64 + b == s[0] as int * 16
    ensures |s| == 2 ==> |Encode(s)| == 4 && Spells(Encode(s), a, b, c, 64) && c < 64
                         && a * 4096 + b * 64 + c == (s[0] as int * 256 + s[1] as int) * 4
  {
    a, b, c := 0, 0, 0;
    if |s| == 1 {
      var x: int := s[0];
      a, b := x / 4, x % 4 * 16;
      SpellsLetters(Encode(s), a, b, 64, 64);
    } else if |s| == 2 {
      var x: int, y: int := s[0], s[1];
      a, b, c := x / 4, x % 4 * 16 + y / 16, y % 16 * 4;
      SpellsLetters(Encode(s), a, b, c, 64);
    }
  }
}
