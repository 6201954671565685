/** Base64 with the standard alphabet and '=' padding (section 4 of RFC 4648): the
    reversible encoding under which both the server and the client store passwords.
    Decoding follows the forgiving-base64 decode of the WHATWG Infra standard, which is
    what the browser's `atob` runs. */
module Base64 {
  import opened Wrappers
  import Seqs

  type byte = x: int | 0 <= x < 256
  type sextet = x: int | 0 <= x < 64

  /** The alphabet of section 4 of RFC 4648: A-Z, a-z, 0-9, '+', '/'. */
  function CharOf(v: sextet): char {
    if v < 26 then (65 + v) as char
    else if v < 52 then (97 + v - 26) as char
    else if v < 62 then (48 + v - 52) as char
    else if v == 62 then '+'
    else '/'
  }

  /** The value of an alphabet character; `None` for any other character. */
  function ValueOf(c: char): Option<sextet> {
    if 'A' <= c <= 'Z' then Some(c as int - 65)
    else if 'a' <= c <= 'z' then Some(c as int - 97 + 26)
    else if '0' <= c <= '9' then Some(c as int - 48 + 52)
    else if c == '+' then Some(62)
    else if c == '/' then Some(63)
    else None
  }

  lemma ValueOfCharOf(v: sextet)
    ensures ValueOf(CharOf(v)) == Some(v)
    ensures CharOf(v) != '='
  {
  }

  /** The six-bit groups of a byte string: four per full group of three bytes, then three
      for a trailing pair and two for a trailing single byte (zero bits fill the last). */
  function Sextets(b: seq<byte>): (v: seq<sextet>)
    ensures |v| == 4 * (|b| / 3) + (if |b| % 3 == 0 then 0 else |b| % 3 + 1)
  {
    if |b| == 0 then []
    else if |b| == 1 then [S0(b[0]), S1(b[0], 0)]
    else if |b| == 2 then [S0(b[0]), S1(b[0], b[1]), S2(b[1], 0)]
    else [S0(b[0]), S1(b[0], b[1]), S2(b[1], b[2]), S3(b[2])] + Sextets(b[3..])
  }

  /** The four sextets of a group of three bytes x, y, z: the high six bits of x; the low
      two of x and high four of y; the low four of y and high two of z; the low six of z. */
  function S0(x: byte): sextet { x / 4 }
  function S1(x: byte, y: byte): sextet { (x % 4) * 16 + y / 16 }
  function S2(y: byte, z: byte): sextet { (y % 16) * 4 + z / 64 }
  function S3(z: byte): sextet { z % 64 }

  function Chars(v: seq<sextet>): string {
    seq(|v|, i requires 0 <= i < |v| => CharOf(v[i]))
  }

  /** The '=' characters that fill the last group of four. */
  function PaddingFor(n: nat): string {
    if n % 3 == 1 then "==" else if n % 3 == 2 then "=" else ""
  }

  /** Base64 encoding: `Buffer.from(bytes).toString('base64')` and `btoa`. */
  function Encode(b: seq<byte>): (s: string)
    ensures |s| == 4 * ((|b| + 2) / 3)
    ensures |s| % 4 == 0
  {
    assert |PaddingFor(|b|)| == (if |b| % 3 == 0 then 0 else 3 - |b| % 3);
    Chars(Sextets(b)) + PaddingFor(|b|)
  }

  /** Bytes from six-bit groups; a final group of two or three sextets gives one or two
      bytes and its leftover bits are discarded. */
  function DecodeSextets(v: seq<sextet>): seq<byte> {
    if |v| < 2 then []
    else if |v| == 2 then [First(v[0], v[1])]
    else if |v| == 3 then [First(v[0], v[1]), Second(v[1], v[2])]
    else [First(v[0], v[1]), Second(v[1], v[2]), Third(v[2], v[3])] + DecodeSextets(v[4..])
  }

  /** The three bytes of a group, each from the bits of two neighbouring sextets. */
  function First(a: sextet, b: sextet): byte { a * 4 + b / 16 }
  function Second(b: sextet, c: sextet): byte { (b % 16) * 16 + c / 4 }
  function Third(c: sextet, d: sextet): byte { (c % 4) * 64 + d }

  /** ASCII whitespace in the sense of the WHATWG Infra standard: TAB, LF, FF, CR, SPACE. */
  predicate NotAsciiWhitespace(c: char) {
    !(c == '\t' || c == '\n' || c == '\U{000C}' || c == '\r' || c == ' ')
  }

  /** When the length is a multiple of four, one or two final '=' are removed. */
  function StripPadding(s: string): string {
    if |s| % 4 == 0 && |s| >= 2 && s[|s| - 1] == '=' && s[|s| - 2] == '=' then s[..|s| - 2]
    else if |s| % 4 == 0 && |s| >= 1 && s[|s| - 1] == '=' then s[..|s| - 1]
    else s
  }

  /** The values of all characters, or `None` when one is outside the alphabet. */
  function Values(s: string): Option<seq<sextet>> {
    if s == [] then Some([])
    else match (ValueOf(s[0]), Values(s[1..]))
      case (Some(x), Some(rest)) => Some([x] + rest)
      case _ => None
  }

  /** Forgiving-base64 decode (`atob`): drop ASCII whitespace, then the padding; fail on a
      length of 1 modulo 4 or a character outside the alphabet. */
  function Decode(s: string): Option<seq<byte>> {
    var t := StripPadding(Seqs.Filter(s, NotAsciiWhitespace));
    if |t| % 4 == 1 then None
    else match Values(t)
      case None => None
      case Some(v) => Some(DecodeSextets(v))
  }

  lemma FirstOf(x: byte, y: byte)
    ensures First(S0(x), S1(x, y)) == x
  {
    assert S1(x, y) / 16 == x % 4;
  }

  lemma SecondOf(x: byte, y: byte, z: byte)
    ensures Second(S1(x, y), S2(y, z)) == y
  {
    assert S1(x, y) % 16 == y / 16;
    assert S2(y, z) / 4 == y % 16;
  }

  lemma ThirdOf(y: byte, z: byte)
    ensures Third(S2(y, z), S3(z)) == z
  {
    assert S2(y, z) % 4 == z / 64;
  }

  /** Decoding the six-bit groups of a byte string gives back the bytes. */
  lemma {:induction false} DecodeSextetsOfSextets(b: seq<byte>)
    ensures DecodeSextets(Sextets(b)) == b
  {
    if |b| == 1 {
      FirstOf(b[0], 0);
      assert [b[0]] == b;
    } else if |b| == 2 {
      FirstOf(b[0], b[1]);
      SecondOf(b[0], b[1], 0);
      assert [b[0], b[1]] == b;
    } else if |b| >= 3 {
      FirstOf(b[0], b[1]);
      SecondOf(b[0], b[1], b[2]);
      ThirdOf(b[1], b[2]);
      var q := [S0(b[0]), S1(b[0], b[1]), S2(b[1], b[2]), S3(b[2])];
      var v := q + Sextets(b[3..]);
      assert v[..4] == q && v[4..] == Sextets(b[3..]);
      DecodeSextetsOfSextets(b[3..]);
      assert b == [b[0], b[1], b[2]] + b[3..];
    }
  }

  lemma {:induction false} ValuesOfChars(v: seq<sextet>)
    ensures Values(Chars(v)) == Some(v)
  {
    if v != [] {
      ValueOfCharOf(v[0]);
      assert Chars(v)[1..] == Chars(v[1..]);
      ValuesOfChars(v[1..]);
      assert v == [v[0]] + v[1..];
    }
  }

  /** What `StripPadding` does to alphabet characters followed by the padding `pad`. */
  lemma StripPaddingOf(c: string, pad: string)
    requires c == [] || c[|c| - 1] != '='
    requires pad == "" || pad == "=" || pad == "=="
    requires (|c| + |pad|) % 4 == 0
    requires pad == "" || c != []
    ensures StripPadding(c + pad) == c
  {
    var s := c + pad;
    assert s[..|c|] == c;
    if c != [] {
      assert s[|c| - 1] == c[|c| - 1];
    }
  }

  /** Removing the padding of an encoding leaves its alphabet characters. */
  lemma StripPaddingOfEncode(b: seq<byte>)
    ensures StripPadding(Encode(b)) == Chars(Sextets(b))
  {
    var v := Sextets(b);
    var c := Chars(v);
    var pad := PaddingFor(|b|);
    assert Encode(b) == c + pad;
    if |c| > 0 {
      ValueOfCharOf(v[|c| - 1]);
    }
    assert pad != "" ==> |b| % 3 != 0 && |c| >= 2;
    StripPaddingOf(c, pad);
  }

  /** The sextets never leave a single character over in the last group. */
  lemma SextetsLengthMod(b: seq<byte>)
    ensures |Sextets(b)| % 4 != 1
  {
    var k := |b| / 3;
    var r := |b| % 3;
    assert |Sextets(b)| == 4 * k + (if r == 0 then 0 else r + 1);
  }

  /** Decoding an encoding gives back exactly the encoded bytes. */
  lemma DecodeEncode(b: seq<byte>)
    ensures Decode(Encode(b)) == Some(b)
  {
    var s := Encode(b);
    var v := Sextets(b);
    EncodeAlphabet(b);
    forall i | 0 <= i < |s| ensures NotAsciiWhitespace(s[i]) {
      assert ValueOf(s[i]).Some? || s[i] == '=';
    }
    Seqs.FilterKeepsAll(s, NotAsciiWhitespace);
    var t := StripPadding(s);
    StripPaddingOfEncode(b);
    assert t == Chars(v) && |t| == |v|;
    SextetsLengthMod(b);
    ValuesOfChars(v);
    DecodeSextetsOfSextets(b);
    assert Decode(s) == Some(DecodeSextets(v));
  }

  /** The encoding never contains ASCII whitespace; every character is from the alphabet
      or is padding. */
  lemma EncodeAlphabet(b: seq<byte>)
    ensures forall i :: 0 <= i < |Encode(b)| ==> ValueOf(Encode(b)[i]).Some? || Encode(b)[i] == '='
  {
    var s := Encode(b);
    forall i | 0 <= i < |s| ensures ValueOf(s[i]).Some? || s[i] == '=' {
      if i < |Sextets(b)| {
        ValueOfCharOf(Sextets(b)[i]);
      }
    }
  }

  /** A string whose characters are all at most U+00FF, read as bytes (Latin-1). */
  function Latin1Bytes(s: string): seq<byte>
    requires forall i :: 0 <= i < |s| ==> s[i] as int < 256
  {
    seq(|s|, i requires 0 <= i < |s| => s[i] as int)
  }

  function Latin1String(b: seq<byte>): string {
    seq(|b|, i requires 0 <= i < |b| => b[i] as char)
  }

  /** `btoa`: fails (throws, in the source) when a character is above U+00FF. */
  function Btoa(s: string): Option<string> {
    if forall i | 0 <= i < |s| :: s[i] as int < 256 then Some(Encode(Latin1Bytes(s))) else None
  }

  /** `atob`: the decoded bytes as a string of characters U+0000 to U+00FF. */
  function Atob(s: string): Option<string> {
    match Decode(s)
    case None => None
    case Some(b) => Some(Latin1String(b))
  }

  /** What `btoa` encodes, `atob` restores. */
  lemma AtobBtoa(p: string)
    requires Btoa(p).Some?
    ensures Atob(Btoa(p).value) == Some(p)
  {
    var b := Latin1Bytes(p);
    DecodeEncode(b);
    assert Latin1String(b) == p;
  }
}
