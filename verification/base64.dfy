/**
  The standard base-64 encoding with `=` padding (RFC 4648, section 4), as
  Go's `base64.StdEncoding.EncodeToString` computes it. The generator encodes
  the 32-byte digest with it; the 44-character ceiling on password lengths
  follows from `Encode`'s length contract instead of being assumed.
*/
module Base64 {
  import opened Wrappers
  import opened Bytes

  /** A 6-bit group: the value one base-64 character carries. */
  type sextet = x: int | 0 <= x < 64

  const UpperLetters: string := "ABCDEFGHIJKLMNOPQRSTUVWXYZ"
  const LowerLetters: string := "abcdefghijklmnopqrstuvwxyz"
  const Digits: string := "0123456789"

  /** Table 1 of RFC 4648: value v is written as Alphabet[v]. */
  const Alphabet: string := UpperLetters + LowerLetters + Digits + "+/"

  /** The padding character. */
  const Pad: char := '='

  /** The character for value v, computed by ranges; `CharOfTable` shows it is Alphabet[v]. */
  function CharOf(v: sextet): char
  {
    if v < 26 then ('A' as int + v) as char
    else if v < 52 then ('a' as int + (v - 26)) as char
    else if v < 62 then ('0' as int + (v - 52)) as char
    else if v == 62 then '+'
    else '/'
  }

  /** The decoding table: the value a character stands for, if it belongs to the alphabet. */
  function IndexOf(c: char): Option<sextet>
  {
    if 'A' <= c <= 'Z' then Some(c as int - 'A' as int)
    else if 'a' <= c <= 'z' then Some(c as int - 'a' as int + 26)
    else if '0' <= c <= '9' then Some(c as int - '0' as int + 52)
    else if c == '+' then Some(62)
    else if c == '/' then Some(63)
    else None
  }

  /** True when c is one of the 64 alphabet characters. */
  predicate InAlphabet(c: char)
  {
    IndexOf(c).Some?
  }

  /** `CharOf` is Table 1 of RFC 4648. */
  lemma CharOfTable(v: sextet)
    ensures |Alphabet| == 64
    ensures CharOf(v) == Alphabet[v]
  {
    assert forall i | 0 <= i < 26 :: UpperLetters[i] == ('A' as int + i) as char;
    assert forall i | 0 <= i < 26 :: LowerLetters[i] == ('a' as int + i) as char;
    assert forall i | 0 <= i < 10 :: Digits[i] == ('0' as int + i) as char;
  }

  /** Encoding and decoding tables are inverse, and the padding character is in neither. */
  lemma IndexOfCharOf(v: sextet)
    ensures IndexOf(CharOf(v)) == Some(v)
    ensures CharOf(v) != Pad
  {
  }

  /** Every character the decoding table accepts is the encoding of its value. */
  lemma CharOfIndexOf(c: char)
    ensures IndexOf(c).Some? ==> CharOf(IndexOf(c).value) == c
  {
  }

  /** The decoding table accepts exactly the characters of the alphabet. */
  lemma InAlphabetIsTable(c: char)
    ensures InAlphabet(c) <==> c in Alphabet
  {
    if InAlphabet(c) {
      CharOfIndexOf(c);
      CharOfTable(IndexOf(c).value);
    }
    if c in Alphabet {
      CharOfTable(0);
      var k :| 0 <= k < 64 && Alphabet[k] == c;
      CharOfTable(k);
      IndexOfCharOf(k);
    }
  }

  /** Length of the padded encoding of n bytes: four characters per started 3-byte group. */
  function EncodedLength(n: nat): nat
  {
    4 * ((n + 2) / 3)
  }

  /** Number of `=` characters that close the encoding of n bytes. */
  function PadCount(n: nat): nat
  {
    (3 - n % 3) % 3
  }

  /** A full 24-bit group, written as four characters, most significant bits first. */
  function EncodeGroup(a: byte, b: byte, c: byte): string
  {
    [CharOf(a / 4), CharOf((a % 4) * 16 + b / 16), CharOf((b % 16) * 4 + c / 64), CharOf(c % 64)]
  }

  /** A final group of two bytes: three characters, zero-filled, and one `=`. */
  function EncodeTwo(a: byte, b: byte): string
  {
    [CharOf(a / 4), CharOf((a % 4) * 16 + b / 16), CharOf((b % 16) * 4), Pad]
  }

  /** A final group of one byte: two characters, zero-filled, and `==`. */
  function EncodeOne(a: byte): string
  {
    [CharOf(a / 4), CharOf((a % 4) * 16), Pad, Pad]
  }

  /** True when every character is from the alphabet or the padding character. */
  predicate IsEncodingChars(s: string)
  {
    forall i | 0 <= i < |s| :: s[i] == Pad || InAlphabet(s[i])
  }

  /**
    Standard base-64 encoding with padding: four characters for every started
    3-byte group (`EncodeShape` describes which of them are padding).
  */
  function Encode(b: seq<byte>): (s: string)
    ensures |s| == EncodedLength(|b|)
    decreases |b|
  {
    if |b| == 0 then ""
    else if |b| == 1 then EncodeOne(b[0])
    else if |b| == 2 then EncodeTwo(b[0], b[1])
    else
      EncodeGroup(b[0], b[1], b[2]) + Encode(b[3..])
  }

  /** The four characters of a full group are alphabet characters. */
  lemma GroupChars(a: byte, b: byte, c: byte)
    ensures forall i | 0 <= i < 4 :: InAlphabet(EncodeGroup(a, b, c)[i]) && EncodeGroup(a, b, c)[i] != Pad
  {
    IndexOfCharOf(a / 4);
    IndexOfCharOf((a % 4) * 16 + b / 16);
    IndexOfCharOf((b % 16) * 4 + c / 64);
    IndexOfCharOf(c % 64);
  }

  /** A two-byte group has three alphabet characters before its `=`. */
  lemma TwoChars(a: byte, b: byte)
    ensures forall i | 0 <= i < 3 :: InAlphabet(EncodeTwo(a, b)[i]) && EncodeTwo(a, b)[i] != Pad
  {
    IndexOfCharOf(a / 4);
    IndexOfCharOf((a % 4) * 16 + b / 16);
    IndexOfCharOf((b % 16) * 4);
  }

  /** A one-byte group has two alphabet characters before its `==`. */
  lemma OneChars(a: byte)
    ensures forall i | 0 <= i < 2 :: InAlphabet(EncodeOne(a)[i]) && EncodeOne(a)[i] != Pad
  {
    IndexOfCharOf(a / 4);
    IndexOfCharOf((a % 4) * 16);
  }

  /** Decodes one full group of four alphabet characters into three bytes. */
  function DecodeGroup(c0: char, c1: char, c2: char, c3: char): Option<seq<byte>>
  {
    match (IndexOf(c0), IndexOf(c1), IndexOf(c2), IndexOf(c3))
    case (Some(v0), Some(v1), Some(v2), Some(v3)) =>
      Some([v0 as int * 4 + v1 as int / 16, (v1 as int % 16) * 16 + v2 as int / 4, (v2 as int % 4) * 64 + v3 as int])
    case _ => None
  }

  /** Decodes the last group, which may end in `=` or `==`. */
  function DecodeLast(c0: char, c1: char, c2: char, c3: char): Option<seq<byte>>
  {
    if c2 == Pad && c3 == Pad then
      match (IndexOf(c0), IndexOf(c1))
      case (Some(v0), Some(v1)) => Some([v0 as int * 4 + v1 as int / 16])
      case _ => None
    else if c3 == Pad then
      match (IndexOf(c0), IndexOf(c1), IndexOf(c2))
      case (Some(v0), Some(v1), Some(v2)) => Some([v0 as int * 4 + v1 as int / 16, (v1 as int % 16) * 16 + v2 as int / 4])
      case _ => None
    else
      DecodeGroup(c0, c1, c2, c3)
  }

  /**
    Decoding of padded base-64 text: groups of four characters, only the last
    of which may carry padding. Anything else has no decoding.
  */
  function Decode(s: string): Option<seq<byte>>
    decreases |s|
  {
    if |s| == 0 then Some([])
    else if |s| < 4 then None
    else if |s| == 4 then DecodeLast(s[0], s[1], s[2], s[3])
    else
      match (DecodeGroup(s[0], s[1], s[2], s[3]), Decode(s[4..]))
      case (Some(g), Some(rest)) => Some(g + rest)
      case _ => None
  }

  /**
    The encoding consists of alphabet characters followed by exactly
    PadCount(|b|) padding characters.
  */
  lemma {:induction false} EncodeShape(b: seq<byte>)
    ensures IsEncodingChars(Encode(b))
    ensures forall i | 0 <= i < |Encode(b)| :: (Encode(b)[i] == Pad <==> EncodedLength(|b|) - PadCount(|b|) <= i)
    decreases |b|
  {
    if |b| == 1 {
      OneChars(b[0]);
    } else if |b| == 2 {
      TwoChars(b[0], b[1]);
    } else if |b| >= 3 {
      GroupChars(b[0], b[1], b[2]);
      EncodeShape(b[3..]);
      var rest := Encode(b[3..]);
      var s := Encode(b);
      assert s == EncodeGroup(b[0], b[1], b[2]) + rest;
      assert PadCount(|b|) == PadCount(|b| - 3);
      assert forall i | 4 <= i < |s| :: s[i] == rest[i - 4];
    }
  }

  /** Byte arithmetic behind a full group's round trip. */
  lemma GroupArith(a: byte, b: byte, c: byte)
    ensures ((a % 4) * 16 + b / 16) / 16 == a % 4
    ensures ((a % 4) * 16 + b / 16) % 16 == b / 16
    ensures ((b % 16) * 4 + c / 64) / 4 == b % 16
    ensures ((b % 16) * 4 + c / 64) % 4 == c / 64
  {
  }

  /** The three bytes of a full group survive being split into four sextets. */
  lemma GroupRoundTrip(a: byte, b: byte, c: byte)
    ensures var e := EncodeGroup(a, b, c); DecodeGroup(e[0], e[1], e[2], e[3]) == Some([a, b, c])
  {
    var v0, v1, v2, v3 := a / 4, (a % 4) * 16 + b / 16, (b % 16) * 4 + c / 64, c % 64;
    DecodeCharsOf(v0, v1, v2, v3);
    GroupArith(a, b, c);
    assert [v0 * 4 + v1 / 16, (v1 % 16) * 16 + v2 / 4, (v2 % 4) * 64 + v3] == [a, b, c];
  }

  /** Four alphabet characters decode to the bytes their sextets spell. */
  lemma DecodeCharsOf(v0: sextet, v1: sextet, v2: sextet, v3: sextet)
    ensures DecodeGroup(CharOf(v0), CharOf(v1), CharOf(v2), CharOf(v3))
      == Some([v0 * 4 + v1 / 16, (v1 % 16) * 16 + v2 / 4, (v2 % 4) * 64 + v3])
  {
    IndexOfCharOf(v0);
    IndexOfCharOf(v1);
    IndexOfCharOf(v2);
    IndexOfCharOf(v3);
  }

  /** A final pair of bytes survives its `=`-padded group. */
  lemma TwoRoundTrip(a: byte, b: byte)
    ensures var e := EncodeTwo(a, b); DecodeLast(e[0], e[1], e[2], e[3]) == Some([a, b])
  {
    var v1, v2 := (a % 4) * 16 + b / 16, (b % 16) * 4;
    IndexOfCharOf(a / 4);
    IndexOfCharOf(v1);
    IndexOfCharOf(v2);
    assert v1 / 16 == a % 4 && v1 % 16 == b / 16;
    assert v2 / 4 == b % 16;
  }

  /** A final single byte survives its `==`-padded group. */
  lemma OneRoundTrip(a: byte)
    ensures var e := EncodeOne(a); DecodeLast(e[0], e[1], e[2], e[3]) == Some([a])
  {
    IndexOfCharOf(a / 4);
    IndexOfCharOf((a % 4) * 16);
  }

  /** A full group in front of a decodable text decodes to its three bytes in front. */
  lemma DecodeAppend(g: string, rest: string, x: seq<byte>, y: seq<byte>)
    requires |g| == 4 && |rest| > 0
    requires DecodeGroup(g[0], g[1], g[2], g[3]) == Some(x)
    requires Decode(rest) == Some(y)
    ensures Decode(g + rest) == Some(x + y)
  {
    var s := g + rest;
    assert s[4..] == rest;
    assert s[0] == g[0] && s[1] == g[1] && s[2] == g[2] && s[3] == g[3];
  }

  /** Three bytes encode to one full group, which decodes back to them. */
  lemma ThreeRoundTrip(b: seq<byte>)
    requires |b| == 3
    ensures Decode(Encode(b)) == Some(b)
  {
    var g := EncodeGroup(b[0], b[1], b[2]);
    GroupRoundTrip(b[0], b[1], b[2]);
    assert Encode(b) == g;
    IndexOfCharOf(b[2] % 64);
    assert [b[0], b[1], b[2]] == b;
  }

  /** The inductive step: a leading full group in front of a round-tripping rest. */
  lemma GroupThenRest(b: seq<byte>)
    requires |b| > 3
    requires Decode(Encode(b[3..])) == Some(b[3..])
    ensures Decode(Encode(b)) == Some(b)
  {
    assert b == b[..3] + b[3..];
    assert b[..3] == [b[0], b[1], b[2]];
    var g := EncodeGroup(b[0], b[1], b[2]);
    assert Encode(b) == g + Encode(b[3..]);
    GroupRoundTrip(b[0], b[1], b[2]);
    DecodeAppend(g, Encode(b[3..]), b[..3], b[3..]);
  }

  /** Decoding inverts encoding, for every byte sequence. */
  lemma {:induction false} RoundTrip(b: seq<byte>)
    ensures Decode(Encode(b)) == Some(b)
    decreases |b|
  {
    if |b| == 1 {
      OneRoundTrip(b[0]);
      assert [b[0]] == b;
    } else if |b| == 2 {
      TwoRoundTrip(b[0], b[1]);
      assert [b[0], b[1]] == b;
    } else if |b| == 3 {
      ThreeRoundTrip(b);
    } else if |b| > 3 {
      RoundTrip(b[3..]);
      GroupThenRest(b);
    }
  }

  /** Two byte sequences with the same encoding are equal. */
  lemma EncodeInjective(b1: seq<byte>, b2: seq<byte>)
    requires Encode(b1) == Encode(b2)
    ensures b1 == b2
  {
    RoundTrip(b1);
    RoundTrip(b2);
  }

  /** Test vectors of RFC 4648, section 10: "f", "fo", "foo" and "foobar". */
  lemma RfcTestVectors()
    ensures Encode([102]) == "Zg=="
    ensures Encode([102, 111]) == "Zm8="
    ensures Encode([102, 111, 111]) == "Zm9v"
    ensures Encode([102, 111, 111, 98, 97, 114]) == "Zm9vYmFy"
  {
    assert [102, 111, 111, 98, 97, 114][3..] == [98, 97, 114];
  }
}
