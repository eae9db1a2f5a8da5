/** Octets, the unit every buffer of the vault is made of. */
module Bytes {
  type Byte = b: int | 0 <= b < 256
}

/**
 * Hexadecimal text as Node's `Buffer.from(s, "hex")` reads it: digit pairs are decoded
 * from the left until the first pair that is not two hex digits; a trailing odd digit
 * is dropped. The master key reaches the cipher through this decoder.
 */
module Hex {
  import opened Wrappers
  import opened Bytes

  function DigitChar(v: int): char
    requires 0 <= v < 16
  {
    if v < 10 then (48 + v) as char else (87 + v) as char
  }

  function DigitValue(c: char): (r: Option<int>)
    ensures r.Some? ==> 0 <= r.value < 16
  {
    if '0' <= c <= '9' then Some(c as int - 48)
    else if 'a' <= c <= 'f' then Some(c as int - 87)
    else if 'A' <= c <= 'F' then Some(c as int - 55)
    else None
  }

  predicate IsDigit(c: char) {
    DigitValue(c).Some?
  }

  /** Lower-case hex text of `b`, two digits per byte, as `buf.toString("hex")` writes it. */
  function Encode(b: seq<Byte>): (s: string)
    ensures |s| == 2 * |b|
    ensures forall i :: 0 <= i < |s| ==> IsDigit(s[i])
  {
    if |b| == 0 then ""
    else [DigitChar(b[0] / 16), DigitChar(b[0] % 16)] + Encode(b[1..])
  }

  /** Lenient decoding: stop at the first pair that is not two hex digits. */
  function Decode(s: string): (b: seq<Byte>)
    ensures |b| <= |s| / 2
  {
    if |s| < 2 then []
    else match (DigitValue(s[0]), DigitValue(s[1]))
      case (Some(hi), Some(lo)) => [hi * 16 + lo] + Decode(s[2..])
      case _ => []
  }

  lemma {:induction false} DecodeEncode(b: seq<Byte>)
    ensures Decode(Encode(b)) == b
  {
    if |b| > 0 {
      var s := Encode(b);
      assert s[2..] == Encode(b[1..]);
      DecodeEncode(b[1..]);
      assert DigitValue(s[0]) == Some(b[0] / 16);
      assert DigitValue(s[1]) == Some(b[0] % 16);
    }
  }

  /** Text made only of hex digits, of even length, decodes completely. */
  lemma {:induction false} DecodeAllDigits(s: string)
    requires |s| % 2 == 0
    requires forall i :: 0 <= i < |s| ==> IsDigit(s[i])
    ensures |Decode(s)| == |s| / 2
  {
    if |s| >= 2 {
      DecodeAllDigits(s[2..]);
    }
  }

  /** A non-digit among the first `2n` characters leaves fewer than `n` decoded bytes. */
  lemma {:induction false} DecodeStopsAtNonDigit(s: string, i: nat)
    requires i < |s| && !IsDigit(s[i])
    ensures |Decode(s)| <= i / 2
  {
    if |s| >= 2 && IsDigit(s[0]) && IsDigit(s[1]) {
      assert i >= 2;
      DecodeStopsAtNonDigit(s[2..], i - 2);
    }
  }
}

/**
 * Base64 with the standard alphabet and `=` padding, section 4 of RFC 4648, as
 * `buf.toString("base64")` writes it. Decoding is strict: text that is not a sequence
 * of complete, correctly padded quads is rejected.
 */
module Base64 {
  import opened Wrappers
  import opened Bytes

  type Sextet = v: int | 0 <= v < 64

  function CharOf(v: Sextet): char {
    if v < 26 then (65 + v) as char
    else if v < 52 then (71 + v) as char
    else if v < 62 then (v - 4) as char
    else if v == 62 then '+'
    else '/'
  }

  function SextetOf(c: char): Option<Sextet> {
    if 'A' <= c <= 'Z' then Some(c as int - 65)
    else if 'a' <= c <= 'z' then Some(c as int - 71)
    else if '0' <= c <= '9' then Some(c as int + 4)
    else if c == '+' then Some(62)
    else if c == '/' then Some(63)
    else None
  }

  lemma SextetOfCharOf(v: Sextet)
    ensures SextetOf(CharOf(v)) == Some(v)
    ensures CharOf(v) != '='
  {
  }

  /** The four characters of one full group of three bytes. */
  function Quad(b0: Byte, b1: Byte, b2: Byte): (q: string)
    ensures |q| == 4
  {
    [CharOf(b0 / 4), CharOf(b0 % 4 * 16 + b1 / 16), CharOf(b1 % 16 * 4 + b2 / 64), CharOf(b2 % 64)]
  }

  function Encode(b: seq<Byte>): (s: string)
    ensures |b| == 0 <==> |s| == 0
  {
    if |b| == 0 then ""
    else if |b| == 1 then
      [CharOf(b[0] / 4), CharOf(b[0] % 4 * 16), '=', '=']
    else if |b| == 2 then
      [CharOf(b[0] / 4), CharOf(b[0] % 4 * 16 + b[1] / 16), CharOf(b[1] % 16 * 4), '=']
    else
      Quad(b[0], b[1], b[2]) + Encode(b[3..])
  }

  /** Output length is four characters per started group of three bytes. */
  lemma {:induction false} EncodeLength(b: seq<Byte>)
    ensures |Encode(b)| == (|b| + 2) / 3 * 4
    decreases |b|
  {
    if |b| > 2 {
      EncodeLength(b[3..]);
      assert |Encode(b)| == 4 + |Encode(b[3..])|;
      assert (|b| + 2) / 3 == (|b| - 1) / 3 + 1;
    }
  }

  function Join(v0: Sextet, v1: Sextet, v2: Sextet, v3: Sextet): seq<Byte> {
    [v0 * 4 + v1 / 16, v1 % 16 * 16 + v2 / 4, v2 % 4 * 64 + v3]
  }

  /** A quad of four alphabet characters. */
  function DecodeFull(c0: char, c1: char, c2: char, c3: char): Option<seq<Byte>> {
    match (SextetOf(c0), SextetOf(c1), SextetOf(c2), SextetOf(c3))
    case (Some(v0), Some(v1), Some(v2), Some(v3)) => Some(Join(v0, v1, v2, v3))
    case _ => None
  }

  /** The last quad, which may end in one or two `=`. */
  function DecodeLast(c0: char, c1: char, c2: char, c3: char): Option<seq<Byte>> {
    if c2 == '=' && c3 == '=' then
      match (SextetOf(c0), SextetOf(c1))
      case (Some(v0), Some(v1)) => Some(Join(v0, v1, 0, 0)[..1])
      case _ => None
    else if c3 == '=' then
      match (SextetOf(c0), SextetOf(c1), SextetOf(c2))
      case (Some(v0), Some(v1), Some(v2)) => Some(Join(v0, v1, v2, 0)[..2])
      case _ => None
    else DecodeFull(c0, c1, c2, c3)
  }

  function Decode(s: string): (r: Option<seq<Byte>>)
    ensures |s| == 0 ==> r == Some([])
  {
    if |s| == 0 then Some([])
    else if |s| < 4 then None
    else if |s| == 4 then DecodeLast(s[0], s[1], s[2], s[3])
    else
      match DecodeFull(s[0], s[1], s[2], s[3])
      case None => None
      case Some(g) =>
        match Decode(s[4..])
        case None => None
        case Some(rest) => Some(g + rest)
  }

  /** Only text made of whole quads decodes. */
  lemma {:induction false} DecodeLength(s: string)
    requires Decode(s).Some?
    ensures |s| % 4 == 0
    decreases |s|
  {
    if |s| > 4 {
      DecodeLength(s[4..]);
    }
  }

  lemma EncodeOne(b0: Byte)
    ensures Decode(Encode([b0])) == Some([b0])
  {
    var s := Encode([b0]);
    SextetOfCharOf(b0 / 4);
    SextetOfCharOf(b0 % 4 * 16);
    assert s == [CharOf(b0 / 4), CharOf(b0 % 4 * 16), '=', '='];
    assert Join(b0 / 4, b0 % 4 * 16, 0, 0)[..1] == [b0];
  }

  lemma EncodeTwo(b0: Byte, b1: Byte)
    ensures Decode(Encode([b0, b1])) == Some([b0, b1])
  {
    var s := Encode([b0, b1]);
    SextetOfCharOf(b0 / 4);
    SextetOfCharOf(b0 % 4 * 16 + b1 / 16);
    SextetOfCharOf(b1 % 16 * 4);
    assert s == [CharOf(b0 / 4), CharOf(b0 % 4 * 16 + b1 / 16), CharOf(b1 % 16 * 4), '='];
    assert Join(b0 / 4, b0 % 4 * 16 + b1 / 16, b1 % 16 * 4, 0)[..2] == [b0, b1];
  }

  /** Splitting three bytes into four sextets and joining them again is the identity. */
  lemma JoinSplit(b0: Byte, b1: Byte, b2: Byte)
    ensures Join(b0 / 4, b0 % 4 * 16 + b1 / 16, b1 % 16 * 4 + b2 / 64, b2 % 64) == [b0, b1, b2]
  {
    var hi0, lo0 := b0 / 4, b0 % 4;
    var hi1, lo1 := b1 / 16, b1 % 16;
    var hi2, lo2 := b2 / 64, b2 % 64;
    var v1, v2 := lo0 * 16 + hi1, lo1 * 4 + hi2;
    assert v1 / 16 == lo0 && v1 % 16 == hi1;
    assert v2 / 4 == lo1 && v2 % 4 == hi2;
  }

  lemma EncodeThree(b0: Byte, b1: Byte, b2: Byte)
    ensures var q := Quad(b0, b1, b2);
      DecodeFull(q[0], q[1], q[2], q[3]) == Some([b0, b1, b2]) && q[3] != '='
  {
    SextetOfCharOf(b0 / 4);
    SextetOfCharOf(b0 % 4 * 16 + b1 / 16);
    SextetOfCharOf(b1 % 16 * 4 + b2 / 64);
    SextetOfCharOf(b2 % 64);
    JoinSplit(b0, b1, b2);
  }

  /** Decoding inverts encoding (the stored ciphertext and nonce are read back exactly). */
  lemma {:induction false} DecodeEncode(b: seq<Byte>)
    ensures Decode(Encode(b)) == Some(b)
    decreases |b|
  {
    if |b| == 1 {
      EncodeOne(b[0]);
      assert b == [b[0]];
    } else if |b| == 2 {
      EncodeTwo(b[0], b[1]);
      assert b == [b[0], b[1]];
    } else if |b| >= 3 {
      SplitThree(b);
      assert Encode(b) == Quad(b[0], b[1], b[2]) + Encode(b[3..]);
      DecodeEncode(b[3..]);
      DecodeStep(b[0], b[1], b[2], b[3..]);
    }
  }

  /** A full unpadded quad in front of decodable text decodes to its group followed by the rest. */
  lemma DecodePrefix(q: string, rest: string, g: seq<Byte>, r: seq<Byte>)
    requires |q| == 4 && q[3] != '='
    requires DecodeFull(q[0], q[1], q[2], q[3]) == Some(g)
    requires Decode(rest) == Some(r)
    ensures Decode(q + rest) == Some(g + r)
  {
    var s := q + rest;
    assert s[0] == q[0] && s[1] == q[1] && s[2] == q[2] && s[3] == q[3];
    if |rest| == 0 {
      assert s == q;
      assert r == [];
      assert g + r == g;
    } else {
      assert s[4..] == rest;
    }
  }

  lemma SplitThree<T>(b: seq<T>)
    requires |b| >= 3
    ensures b == [b[0], b[1], b[2]] + b[3..]
  {
    assert [b[0], b[1], b[2]] == b[..3];
  }

  /** One full group in front of bytes whose encoding already decodes back. */
  lemma DecodeStep(b0: Byte, b1: Byte, b2: Byte, rest: seq<Byte>)
    requires Decode(Encode(rest)) == Some(rest)
    ensures Decode(Quad(b0, b1, b2) + Encode(rest)) == Some([b0, b1, b2] + rest)
  {
    EncodeThree(b0, b1, b2);
    DecodePrefix(Quad(b0, b1, b2), Encode(rest), [b0, b1, b2], rest);
  }
}
