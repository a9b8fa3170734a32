/** Base 64 encoding with the URL- and filename-safe alphabet and padding,
    as defined in section 5 of RFC 4648 (Go's `base64.URLEncoding`).
    Only the encoder is used by the program; the decoder is its inverse and
    serves to prove that the encoding loses nothing. */
module Base64Url {
  import opened Errors

  type byte = x: int | 0 <= x < 256
  type Bytes = seq<byte>

  const Pad: char := '='

  /** The 64 characters of the alphabet (RFC 4648, section 5, table 2). */
  predicate IsAlphabetChar(c: char) {
    ('A' <= c <= 'Z') || ('a' <= c <= 'z') || ('0' <= c <= '9') || c == '-' || c == '_'
  }

  /** A character that can occur in an encoding: the alphabet or the pad. */
  predicate IsEncodedChar(c: char) {
    IsAlphabetChar(c) || c == Pad
  }

  /** The character that encodes the 6-bit value `i`. */
  function Char(i: int): (c: char)
    requires 0 <= i < 64
    ensures IsAlphabetChar(c)
  {
    if i < 26 then ('A' as int + i) as char
    else if i < 52 then ('a' as int + (i - 26)) as char
    else if i < 62 then ('0' as int + (i - 52)) as char
    else if i == 62 then '-'
    else '_'
  }

  /** The 6-bit value encoded by an alphabet character. */
  function Index(c: char): (i: int)
    requires IsAlphabetChar(c)
    ensures 0 <= i < 64
  {
    if 'A' <= c <= 'Z' then c as int - 'A' as int
    else if 'a' <= c <= 'z' then c as int - 'a' as int + 26
    else if '0' <= c <= '9' then c as int - '0' as int + 52
    else if c == '-' then 62
    else 63
  }

  lemma IndexOfChar(i: int)
    requires 0 <= i < 64
    ensures Index(Char(i)) == i
  {
  }

  /** The four 6-bit values of three bytes, most significant first.  A
      missing byte of a last group is encoded as zero bits. */
  function Sextet0(b0: byte): (r: int)
    ensures 0 <= r < 64
  {
    b0 / 4
  }

  function Sextet1(b0: byte, b1: byte): (r: int)
    ensures 0 <= r < 64
  {
    (b0 % 4) * 16 + b1 / 16
  }

  function Sextet2(b1: byte, b2: byte): (r: int)
    ensures 0 <= r < 64
  {
    (b1 % 16) * 4 + b2 / 64
  }

  function Sextet3(b2: byte): (r: int)
    ensures 0 <= r < 64
  {
    b2 % 64
  }

  /** The three bytes of four 6-bit values. */
  function Octet0(i0: int, i1: int): (r: byte)
    requires 0 <= i0 < 64 && 0 <= i1 < 64
  {
    i0 * 4 + i1 / 16
  }

  function Octet1(i1: int, i2: int): (r: byte)
    requires 0 <= i1 < 64 && 0 <= i2 < 64
  {
    (i1 % 16) * 16 + i2 / 4
  }

  function Octet2(i2: int, i3: int): (r: byte)
    requires 0 <= i2 < 64 && 0 <= i3 < 64
  {
    (i2 % 4) * 64 + i3
  }

  /** Splitting three bytes into 6-bit values and joining them again gives
      the bytes back. */
  lemma Regroup(b0: byte, b1: byte, b2: byte)
    ensures Octet0(Sextet0(b0), Sextet1(b0, b1)) == b0
    ensures Octet1(Sextet1(b0, b1), Sextet2(b1, b2)) == b1
    ensures Octet2(Sextet2(b1, b2), Sextet3(b2)) == b2
  {
    assert Sextet1(b0, b1) / 16 == b0 % 4 && Sextet1(b0, b1) % 16 == b1 / 16;
    assert Sextet2(b1, b2) / 4 == b1 % 16 && Sextet2(b1, b2) % 4 == b2 / 64;
  }

  /** Three bytes become four characters. */
  function EncodeGroup(b0: byte, b1: byte, b2: byte): string {
    [Char(Sextet0(b0)), Char(Sextet1(b0, b1)), Char(Sextet2(b1, b2)), Char(Sextet3(b2))]
  }

  /** A last group of two bytes: three characters and a pad. */
  function EncodeTwo(b0: byte, b1: byte): string {
    [Char(Sextet0(b0)), Char(Sextet1(b0, b1)), Char(Sextet2(b1, 0)), Pad]
  }

  /** A last group of one byte: two characters and two pads. */
  function EncodeOne(b0: byte): string {
    [Char(Sextet0(b0)), Char(Sextet1(b0, 0)), Pad, Pad]
  }

  /** The padded encoding of `b`: 4 characters per started group of 3 bytes. */
  function Encode(b: Bytes): (s: string)
    ensures |s| == 4 * ((|b| + 2) / 3)
    decreases |b|
  {
    if |b| >= 3 then
      assert (|b| + 2) / 3 == (|b[3..]| + 2) / 3 + 1;
      EncodeGroup(b[0], b[1], b[2]) + Encode(b[3..])
    else if |b| == 2 then EncodeTwo(b[0], b[1])
    else if |b| == 1 then EncodeOne(b[0])
    else []
  }

  /** Every character of an encoding is drawn from the alphabet and the pad. */
  lemma {:induction false} EncodeAlphabet(b: Bytes)
    ensures forall i :: 0 <= i < |Encode(b)| ==> IsEncodedChar(Encode(b)[i])
    decreases |b|
  {
    if |b| >= 3 {
      EncodeAlphabet(b[3..]);
      var g, rest := EncodeGroup(b[0], b[1], b[2]), Encode(b[3..]);
      assert Encode(b) == g + rest;
      forall i | 0 <= i < |g + rest| ensures IsEncodedChar((g + rest)[i]) {
        if i >= 4 {
          assert (g + rest)[i] == rest[i - 4];
        }
      }
    }
  }

  /** Four characters back to one, two or three bytes; None if they are not a group. */
  function DecodeGroup(c: string): (r: Option<Bytes>)
    requires |c| == 4
    ensures r.Some? ==> 1 <= |r.value| <= 3
  {
    if !IsAlphabetChar(c[0]) || !IsAlphabetChar(c[1]) then None
    else
      var i0, i1 := Index(c[0]), Index(c[1]);
      if c[2] == Pad && c[3] == Pad then Some([Octet0(i0, i1)])
      else if !IsAlphabetChar(c[2]) then None
      else
        var i2 := Index(c[2]);
        if c[3] == Pad then Some([Octet0(i0, i1), Octet1(i1, i2)])
        else if !IsAlphabetChar(c[3]) then None
        else Some([Octet0(i0, i1), Octet1(i1, i2), Octet2(i2, Index(c[3]))])
  }

  /** The inverse of Encode; a padded group is accepted only at the end. */
  function Decode(s: string): Option<Bytes>
    decreases |s|
  {
    if |s| == 0 then Some([])
    else if |s| < 4 then None
    else match DecodeGroup(s[..4])
      case None => None
      case Some(g) =>
        if |g| < 3 && |s| > 4 then None
        else match Decode(s[4..])
          case None => None
          case Some(rest) => Some(g + rest)
  }

  /** Four alphabet characters decode to the bytes their 6-bit values join into. */
  lemma DecodeChars(i0: int, i1: int, i2: int, i3: int)
    requires 0 <= i0 < 64 && 0 <= i1 < 64 && 0 <= i2 < 64 && 0 <= i3 < 64
    ensures DecodeGroup([Char(i0), Char(i1), Char(i2), Char(i3)])
         == Some([Octet0(i0, i1), Octet1(i1, i2), Octet2(i2, i3)])
  {
    var c := [Char(i0), Char(i1), Char(i2), Char(i3)];
    IndexOfChar(i0); IndexOfChar(i1); IndexOfChar(i2); IndexOfChar(i3);
    assert Index(c[0]) == i0 && Index(c[1]) == i1 && Index(c[2]) == i2 && Index(c[3]) == i3;
  }

  /** Three alphabet characters and a pad decode to two bytes. */
  lemma DecodeCharsPad(i0: int, i1: int, i2: int)
    requires 0 <= i0 < 64 && 0 <= i1 < 64 && 0 <= i2 < 64
    ensures DecodeGroup([Char(i0), Char(i1), Char(i2), Pad]) == Some([Octet0(i0, i1), Octet1(i1, i2)])
  {
    var c := [Char(i0), Char(i1), Char(i2), Pad];
    IndexOfChar(i0); IndexOfChar(i1); IndexOfChar(i2);
    assert Index(c[0]) == i0 && Index(c[1]) == i1 && Index(c[2]) == i2;
  }

  /** Two alphabet characters and two pads decode to one byte. */
  lemma DecodeCharsPadPad(i0: int, i1: int)
    requires 0 <= i0 < 64 && 0 <= i1 < 64
    ensures DecodeGroup([Char(i0), Char(i1), Pad, Pad]) == Some([Octet0(i0, i1)])
  {
    var c := [Char(i0), Char(i1), Pad, Pad];
    IndexOfChar(i0); IndexOfChar(i1);
    assert Index(c[0]) == i0 && Index(c[1]) == i1;
  }

  lemma DecodeFullGroup(b0: byte, b1: byte, b2: byte)
    ensures DecodeGroup(EncodeGroup(b0, b1, b2)) == Some([b0, b1, b2])
  {
    DecodeChars(Sextet0(b0), Sextet1(b0, b1), Sextet2(b1, b2), Sextet3(b2));
    Regroup(b0, b1, b2);
  }

  lemma DecodeTwoByteGroup(b0: byte, b1: byte)
    ensures DecodeGroup(EncodeTwo(b0, b1)) == Some([b0, b1])
  {
    DecodeCharsPad(Sextet0(b0), Sextet1(b0, b1), Sextet2(b1, 0));
    Regroup(b0, b1, 0);
  }

  lemma DecodeOneByteGroup(b0: byte)
    ensures DecodeGroup(EncodeOne(b0)) == Some([b0])
  {
    DecodeCharsPadPad(Sextet0(b0), Sextet1(b0, 0));
    Regroup(b0, 0, 0);
  }

  /** A last group on its own decodes to its bytes. */
  lemma DecodeLastGroup(c: string, g: Bytes)
    requires |c| == 4 && DecodeGroup(c) == Some(g)
    ensures Decode(c) == Some(g)
  {
    assert c[..4] == c;
    assert c[4..] == [];
    assert g + [] == g;
  }

  /** A full group in front of a decodable rest. */
  lemma DecodeFullGroupThen(c: string, rest: string, g: Bytes, r: Bytes)
    requires |c| == 4 && DecodeGroup(c) == Some(g) && |g| == 3
    requires Decode(rest) == Some(r)
    ensures Decode(c + rest) == Some(g + r)
  {
    assert (c + rest)[..4] == c;
    assert (c + rest)[4..] == rest;
  }

  lemma DecodeEncodeTwo(b: Bytes)
    requires |b| == 2
    ensures Decode(Encode(b)) == Some(b)
  {
    DecodeTwoByteGroup(b[0], b[1]);
    DecodeLastGroup(EncodeTwo(b[0], b[1]), [b[0], b[1]]);
    assert b == [b[0], b[1]];
  }

  lemma DecodeEncodeOne(b: Bytes)
    requires |b| == 1
    ensures Decode(Encode(b)) == Some(b)
  {
    DecodeOneByteGroup(b[0]);
    DecodeLastGroup(EncodeOne(b[0]), [b[0]]);
    assert b == [b[0]];
  }

  lemma SplitFirstGroup(b: Bytes)
    requires |b| >= 3
    ensures [b[0], b[1], b[2]] + b[3..] == b
  {
    assert b[..3] == [b[0], b[1], b[2]];
    assert b[..3] + b[3..] == b;
  }

  /** A full first group followed by a rest that decodes. */
  lemma DecodeEncodeLong(b: Bytes)
    requires |b| >= 3 && Decode(Encode(b[3..])) == Some(b[3..])
    ensures Decode(Encode(b)) == Some(b)
  {
    SplitFirstGroup(b);
    var g, rest := EncodeGroup(b[0], b[1], b[2]), Encode(b[3..]);
    assert Encode(b) == g + rest;
    DecodeFullGroup(b[0], b[1], b[2]);
    DecodeFullGroupThen(g, rest, [b[0], b[1], b[2]], b[3..]);
  }

  /** Decoding an encoding gives back the bytes. */
  lemma {:induction false} DecodeEncode(b: Bytes)
    ensures Decode(Encode(b)) == Some(b)
    decreases |b|
  {
    if |b| >= 3 {
      DecodeEncode(b[3..]);
      DecodeEncodeLong(b);
    } else if |b| == 2 {
      DecodeEncodeTwo(b);
    } else if |b| == 1 {
      DecodeEncodeOne(b);
    }
  }

  /** Distinct byte strings have distinct encodings. */
  lemma EncodeInjective(a: Bytes, b: Bytes)
    requires Encode(a) == Encode(b)
    ensures a == b
  {
    DecodeEncode(a);
    DecodeEncode(b);
  }
}
