/**
 Base64 (sections 4 and 5 of RFC 4648): the standard alphabet with padding, and the
 URL-safe alphabet without. Decoding is strict: it accepts exactly the encodings.
 */
module Base64 {
  import opened Options

  type Byte = b: int | 0 <= b < 256

  /** Which two characters follow the letters and digits, and whether the text is
      filled up to a multiple of four. */
  datatype Variant = Standard | UrlSafeNoPad

  predicate Padded(variant: Variant) {
    variant == Standard
  }

  function Encode6(variant: Variant, n: int): (c: char)
    requires 0 <= n < 64
    ensures c != '='
    ensures Decode6(variant, c) == Some(n)
    ensures '!' <= c <= '~'
  {
    if n < 26 then ('A' as int + n) as char
    else if n < 52 then ('a' as int + n - 26) as char
    else if n < 62 then ('0' as int + n - 52) as char
    else if n == 62 then (if variant == Standard then '+' else '-')
    else (if variant == Standard then '/' else '_')
  }

  function Decode6(variant: Variant, c: char): (r: Option<int>)
    ensures r.Some? ==> 0 <= r.value < 64
  {
    if 'A' <= c <= 'Z' then Some(c as int - 'A' as int)
    else if 'a' <= c <= 'z' then Some(c as int - 'a' as int + 26)
    else if '0' <= c <= '9' then Some(c as int - '0' as int + 52)
    else if c == (if variant == Standard then '+' else '-') then Some(62)
    else if c == (if variant == Standard then '/' else '_') then Some(63)
    else None
  }

  lemma Decode6IsInjective(variant: Variant, c: char)
    requires Decode6(variant, c).Some?
    ensures Encode6(variant, Decode6(variant, c).value) == c
  {
  }

  /** Three bytes as four groups of six bits. */
  function Encode3(variant: Variant, a: Byte, b: Byte, c: Byte): (s: string)
    ensures |s| == 4
  {
    [Encode6(variant, a / 4), Encode6(variant, (a % 4) * 16 + b / 16),
     Encode6(variant, (b % 16) * 4 + c / 64), Encode6(variant, c % 64)]
  }

  function Encode2(variant: Variant, a: Byte, b: Byte): (s: string)
    ensures |s| == 3
  {
    [Encode6(variant, a / 4), Encode6(variant, (a % 4) * 16 + b / 16), Encode6(variant, (b % 16) * 4)]
  }

  function Encode1(variant: Variant, a: Byte): (s: string)
    ensures |s| == 2
  {
    [Encode6(variant, a / 4), Encode6(variant, (a % 4) * 16)]
  }

  function Encode(variant: Variant, bytes: seq<Byte>): string {
    if |bytes| >= 3 then Encode3(variant, bytes[0], bytes[1], bytes[2]) + Encode(variant, bytes[3..])
    else if |bytes| == 2 then Encode2(variant, bytes[0], bytes[1]) + if Padded(variant) then "=" else ""
    else if |bytes| == 1 then Encode1(variant, bytes[0]) + if Padded(variant) then "==" else ""
    else ""
  }

  function Decode3(variant: Variant, s: string): Option<seq<Byte>>
    requires |s| == 4
  {
    match (Decode6(variant, s[0]), Decode6(variant, s[1]), Decode6(variant, s[2]), Decode6(variant, s[3]))
    case (Some(w), Some(x), Some(y), Some(z)) =>
      Some([w * 4 + x / 16, (x % 16) * 16 + y / 4, (y % 4) * 64 + z])
    case _ => None
  }

  /** The unused low bits of a final group have to be zero. */
  function Decode2(variant: Variant, s: string): Option<seq<Byte>>
    requires |s| == 3
  {
    match (Decode6(variant, s[0]), Decode6(variant, s[1]), Decode6(variant, s[2]))
    case (Some(w), Some(x), Some(y)) =>
      if y % 4 == 0 then Some([w * 4 + x / 16, (x % 16) * 16 + y / 4]) else None
    case _ => None
  }

  function Decode1(variant: Variant, s: string): Option<seq<Byte>>
    requires |s| == 2
  {
    match (Decode6(variant, s[0]), Decode6(variant, s[1]))
    case (Some(w), Some(x)) => if x % 16 == 0 then Some([w * 4 + x / 16]) else None
    case _ => None
  }

  /** The last group of a padded text without its padding, other groups as they are. */
  function Unpadded(variant: Variant, s: string): string {
    if Padded(variant) && |s| == 4 && s[3] == '=' then (if s[2] == '=' then s[..2] else s[..3]) else s
  }

  predicate LengthOk(variant: Variant, s: string) {
    Padded(variant) ==> |s| % 4 == 0
  }

  function DecodeGroups(variant: Variant, s: string): Option<seq<Byte>> {
    var group := Unpadded(variant, s);
    if |group| >= 4 then
      match (Decode3(variant, group[..4]), DecodeGroups(variant, group[4..]))
      case (Some(first), Some(rest)) => Some(first + rest)
      case _ => None
    else if |group| == 3 then Decode2(variant, group)
    else if |group| == 2 then Decode1(variant, group)
    else if |group| == 0 then Some([])
    else None
  }

  function Decode(variant: Variant, s: string): Option<seq<Byte>> {
    if LengthOk(variant, s) then DecodeGroups(variant, s) else None
  }

  // ---------------------------------------------------------------- inverse functions

  lemma ThreeBytesRoundTrip(variant: Variant, a: Byte, b: Byte, c: Byte)
    ensures Decode3(variant, Encode3(variant, a, b, c)) == Some([a, b, c])
  {
    var w, x, y, z := a / 4, (a % 4) * 16 + b / 16, (b % 16) * 4 + c / 64, c % 64;
    assert x / 16 == a % 4 && x % 16 == b / 16;
    assert y / 4 == b % 16 && y % 4 == c / 64;
    assert w * 4 + x / 16 == a && (x % 16) * 16 + y / 4 == b && (y % 4) * 64 + z == c;
    var s := Encode3(variant, a, b, c);
    assert Decode6(variant, s[0]) == Some(w) && Decode6(variant, s[1]) == Some(x);
    assert Decode6(variant, s[2]) == Some(y) && Decode6(variant, s[3]) == Some(z);
  }

  lemma TwoBytesRoundTrip(variant: Variant, a: Byte, b: Byte)
    ensures Decode2(variant, Encode2(variant, a, b)) == Some([a, b])
  {
    var w, x, y := a / 4, (a % 4) * 16 + b / 16, (b % 16) * 4;
    assert x / 16 == a % 4 && x % 16 == b / 16 && y / 4 == b % 16 && y % 4 == 0;
    var s := Encode2(variant, a, b);
    assert Decode6(variant, s[0]) == Some(w) && Decode6(variant, s[1]) == Some(x) && Decode6(variant, s[2]) == Some(y);
  }

  lemma OneByteRoundTrips(variant: Variant, a: Byte)
    ensures Decode1(variant, Encode1(variant, a)) == Some([a])
  {
    var w, x := a / 4, (a % 4) * 16;
    assert x / 16 == a % 4 && x % 16 == 0;
    var s := Encode1(variant, a);
    assert Decode6(variant, s[0]) == Some(w) && Decode6(variant, s[1]) == Some(x);
  }

  lemma {:induction false} EncodeLength(variant: Variant, bytes: seq<Byte>)
    ensures Padded(variant) ==> |Encode(variant, bytes)| % 4 == 0
    ensures bytes != [] ==> |Encode(variant, bytes)| >= 2
    ensures Encode(variant, bytes) != "" ==> Encode(variant, bytes)[0] != '='
  {
    if |bytes| >= 3 {
      EncodeLength(variant, bytes[3..]);
    }
  }

  /** Decoding undoes encoding, for every byte string. */
  lemma {:induction false} DecodeOfEncode(variant: Variant, bytes: seq<Byte>)
    ensures Decode(variant, Encode(variant, bytes)) == Some(bytes)
  {
    EncodeLength(variant, bytes);
    var s := Encode(variant, bytes);
    if |bytes| >= 3 {
      DecodeOfEncode(variant, bytes[3..]);
      EncodeLength(variant, bytes[3..]);
      ThreeBytesRoundTrip(variant, bytes[0], bytes[1], bytes[2]);
      assert s[..4] == Encode3(variant, bytes[0], bytes[1], bytes[2]);
      assert s[4..] == Encode(variant, bytes[3..]);
      assert bytes == [bytes[0], bytes[1], bytes[2]] + bytes[3..];
    } else if |bytes| == 2 {
      TwoBytesRoundTrip(variant, bytes[0], bytes[1]);
      assert Unpadded(variant, s) == Encode2(variant, bytes[0], bytes[1]);
      assert bytes == [bytes[0], bytes[1]];
    } else if |bytes| == 1 {
      OneByteRoundTrips(variant, bytes[0]);
      assert Unpadded(variant, s) == Encode1(variant, bytes[0]);
      assert bytes == [bytes[0]];
    }
  }

  /** Regrouping four groups of six bits as bytes and back. */
  lemma Regroup(w: int, x: int, y: int, z: int, a: int, b: int, c: int)
    requires 0 <= w < 64 && 0 <= x < 64 && 0 <= y < 64 && 0 <= z < 64
    requires a == w * 4 + x / 16 && b == (x % 16) * 16 + y / 4 && c == (y % 4) * 64 + z
    ensures a / 4 == w && (a % 4) * 16 + b / 16 == x && (b % 16) * 4 + c / 64 == y && c % 64 == z
  {
    assert a % 4 == x / 16 && b / 16 == x % 16;
    assert b % 16 == y / 4 && c / 64 == y % 4;
  }

  lemma ThreeDecodedEncode(variant: Variant, s: string)
    requires |s| == 4 && Decode3(variant, s).Some?
    ensures var d := Decode3(variant, s).value; |d| == 3 && Encode3(variant, d[0], d[1], d[2]) == s
  {
    var d := Decode3(variant, s).value;
    Regroup(Decode6(variant, s[0]).value, Decode6(variant, s[1]).value, Decode6(variant, s[2]).value,
            Decode6(variant, s[3]).value, d[0], d[1], d[2]);
    Decode6IsInjective(variant, s[0]);
    Decode6IsInjective(variant, s[1]);
    Decode6IsInjective(variant, s[2]);
    Decode6IsInjective(variant, s[3]);
    var e := Encode3(variant, d[0], d[1], d[2]);
    assert e[0] == s[0] && e[1] == s[1] && e[2] == s[2] && e[3] == s[3];
  }

  lemma TwoDecodedEncode(variant: Variant, s: string)
    requires |s| == 3 && Decode2(variant, s).Some?
    ensures var d := Decode2(variant, s).value; |d| == 2 && Encode2(variant, d[0], d[1]) == s
  {
    var w, x, y := Decode6(variant, s[0]).value, Decode6(variant, s[1]).value, Decode6(variant, s[2]).value;
    var a, b: Byte := w * 4 + x / 16, (x % 16) * 16 + y / 4;
    assert a / 4 == w && a % 4 == x / 16 && b / 16 == x % 16 && b % 16 == y / 4;
    assert (a % 4) * 16 + b / 16 == x && (b % 16) * 4 == y;
    Decode6IsInjective(variant, s[0]);
    Decode6IsInjective(variant, s[1]);
    Decode6IsInjective(variant, s[2]);
  }

  lemma OneDecodedEncode(variant: Variant, s: string)
    requires |s| == 2 && Decode1(variant, s).Some?
    ensures var d := Decode1(variant, s).value; |d| == 1 && Encode1(variant, d[0]) == s
  {
    Decode6IsInjective(variant, s[0]);
    Decode6IsInjective(variant, s[1]);
  }

  /** Only encodings are accepted: what decodes is the encoding of what it decodes to. */
  lemma {:induction false} EncodeOfDecode(variant: Variant, s: string)
    requires Decode(variant, s).Some?
    ensures Encode(variant, Decode(variant, s).value) == s
  {
    var group := Unpadded(variant, s);
    var d := Decode(variant, s).value;
    if |group| >= 4 {
      assert group == s;
      EncodeOfDecode(variant, s[4..]);
      ThreeDecodedEncode(variant, s[..4]);
      var first := Decode3(variant, s[..4]).value;
      var rest := DecodeGroups(variant, s[4..]).value;
      assert d == first + rest && d[3..] == rest;
      assert s == s[..4] + s[4..];
    } else if |group| == 3 {
      TwoDecodedEncode(variant, group);
      assert Padded(variant) ==> s == group + "=";
    } else if |group| == 2 {
      OneDecodedEncode(variant, group);
      assert Padded(variant) ==> s == group + "==";
    }
  }

  /** Encodings consist of printable characters without blanks. */
  lemma {:induction false} EncodeIsPrintable(variant: Variant, bytes: seq<Byte>)
    ensures forall c :: c in Encode(variant, bytes) ==> '!' <= c <= '~'
  {
    if |bytes| >= 3 {
      EncodeIsPrintable(variant, bytes[3..]);
    }
  }

  // ---------------------------------------------------------------- the alphabets

  function Consecutive(first: char, n: nat): string
    requires first as int + n <= 128
  {
    seq(n, i requires 0 <= i < n => (first as int + i) as char)
  }

  /** Tables 1 and 2 of RFC 4648. */
  function Alphabet(variant: Variant): string {
    Consecutive('A', 26) + Consecutive('a', 26) + Consecutive('0', 10) + (if variant == Standard then "+/" else "-_")
  }

  lemma AlphabetsAreThoseOfTheStandard(variant: Variant, n: int)
    requires 0 <= n < 64
    ensures |Alphabet(variant)| == 64 && Encode6(variant, n) == Alphabet(variant)[n]
  {
  }

  /** Three bytes go out as four characters, their 24 bits six at a time. */
  lemma ThreeBytesAreFourCharacters(variant: Variant, a: Byte, b: Byte, c: Byte, d: int, e: int, f: int, g: int)
    requires 0 <= d < 64 && 0 <= e < 64 && 0 <= f < 64 && 0 <= g < 64
    requires a * 65536 + b * 256 + c == d * 262144 + e * 4096 + f * 64 + g
    ensures Encode(variant, [a, b, c])
         == [Alphabet(variant)[d], Alphabet(variant)[e], Alphabet(variant)[f], Alphabet(variant)[g]]
  {
    SixBitGroups(a, b, c, d, e, f, g);
    AlphabetsAreThoseOfTheStandard(variant, d);
    AlphabetsAreThoseOfTheStandard(variant, e);
    AlphabetsAreThoseOfTheStandard(variant, f);
    AlphabetsAreThoseOfTheStandard(variant, g);
    var bytes := [a, b, c];
    assert bytes[3..] == [] && Encode(variant, bytes) == Encode3(variant, a, b, c) + "";
  }

  /** One or two bytes left over go out as if zeroes followed, less the characters that
      hold nothing but zeroes. */
  lemma LeftoversAreFilledWithZeroes(variant: Variant, a: Byte, b: Byte)
    ensures Encode(variant, [a]) == Encode(variant, [a, 0, 0])[..2] + (if Padded(variant) then "==" else "")
    ensures Encode(variant, [a, b]) == Encode(variant, [a, b, 0])[..3] + (if Padded(variant) then "=" else "")
  {
    var one, two := [a, 0, 0], [a, b, 0];
    assert one[3..] == [] && two[3..] == [];
    assert Encode(variant, one) == Encode3(variant, a, 0, 0) + "";
    assert Encode(variant, two) == Encode3(variant, a, b, 0) + "";
  }

  lemma SixBitGroups(a: Byte, b: Byte, c: Byte, d: int, e: int, f: int, g: int)
    requires 0 <= d < 64 && 0 <= e < 64 && 0 <= f < 64 && 0 <= g < 64
    requires a * 65536 + b * 256 + c == d * 262144 + e * 4096 + f * 64 + g
    ensures d == a / 4 && e == (a % 4) * 16 + b / 16 && f == (b % 16) * 4 + c / 64 && g == c % 64
  {
    var low := f * 64 + g;
    assert a == d * 4 + e / 16;
    assert b == (e % 16) * 16 + f / 4;
  }
}
