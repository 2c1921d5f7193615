/**
 Header values of stateless requests. A value is given by its UTF-8 bytes; what goes
 on the wire is text.
 */
module HeaderValue {
  import opened Options
  import opened Text
  import opened Base64

  const PREFIX := "=?base64?"
  const SUFFIX := "?="

  /** Bytes as characters of the same code. */
  function AsText(bytes: seq<Byte>): string {
    seq(|bytes|, i requires 0 <= i < |bytes| => (bytes[i] as int) as char)
  }

  function AsBytes(s: string): seq<Byte>
    requires forall i :: 0 <= i < |s| ==> s[i] as int < 256
  {
    seq(|s|, i requires 0 <= i < |s| => s[i] as int)
  }

  predicate IsBlank(c: char) {
    c == ' ' || c == '\t'
  }

  predicate Printable(c: char) {
    ' ' <= c <= '~'
  }

  predicate LooksEncoded(s: string) {
    StartsWith(s, PREFIX) && EndsWith(s, SUFFIX)
  }

  predicate RequiresBase64(value: string) {
    value != "" &&
    (IsBlank(value[0]) || IsBlank(value[|value| - 1])
     || (exists i :: 0 <= i < |value| && !Printable(value[i]))
     || LooksEncoded(value))
  }

  function EncodeHeaderValue(value: seq<Byte>): string {
    if RequiresBase64(AsText(value)) then PREFIX + Encode(Standard, value) + SUFFIX else AsText(value)
  }

  /** The receiver's side: unwrap when both sentinels are present, else verbatim. */
  function DecodeHeaderValue(s: string): Option<seq<Byte>> {
    if LooksEncoded(s) then
      if |s| < |PREFIX| + |SUFFIX| then None else Decode(Standard, s[|PREFIX|..|s| - |SUFFIX|])
    else if forall i :: 0 <= i < |s| ==> s[i] as int < 256 then Some(AsBytes(s))
    else None
  }

  /** Every value arrives as it was sent, so distinct values never collide. */
  lemma HeaderValuesRoundTrip(value: seq<Byte>)
    ensures DecodeHeaderValue(EncodeHeaderValue(value)) == Some(value)
  {
    var s := EncodeHeaderValue(value);
    if RequiresBase64(AsText(value)) {
      var body := Encode(Standard, value);
      assert s[..|PREFIX|] == PREFIX && s[|s| - |SUFFIX|..] == SUFFIX;
      assert s[|PREFIX|..|s| - |SUFFIX|] == body;
      DecodeOfEncode(Standard, value);
    } else {
      if value == [] {
        assert !StartsWith(s, PREFIX);
      }
      assert AsBytes(s) == value;
    }
  }

  lemma HeaderValuesAreInjective(a: seq<Byte>, b: seq<Byte>)
    requires EncodeHeaderValue(a) == EncodeHeaderValue(b)
    ensures a == b
  {
    HeaderValuesRoundTrip(a);
    HeaderValuesRoundTrip(b);
  }

  /** What is sent is printable ASCII and neither begins nor ends with a blank. */
  lemma HeaderValuesAreSafe(value: seq<Byte>)
    ensures var s := EncodeHeaderValue(value);
            && (forall c :: c in s ==> Printable(c))
            && (s != "" ==> !IsBlank(s[0]) && !IsBlank(s[|s| - 1]))
  {
    var s := EncodeHeaderValue(value);
    if RequiresBase64(AsText(value)) {
      EncodeIsPrintable(Standard, value);
      assert s[0] == PREFIX[0] && s[|s| - 1] == SUFFIX[1];
    } else {
      forall c | c in s ensures Printable(c) {
        var i :| 0 <= i < |s| && s[i] == c;
      }
    }
  }

  /** A value goes out verbatim or wrapped in the sentinels; verbatim if and only if that is
      safe: it is empty, or it is printable, has no blank at either end and does not look
      wrapped itself. */
  lemma SafeValuesAreVerbatim(value: seq<Byte>)
    ensures EncodeHeaderValue(value) == AsText(value) || EncodeHeaderValue(value) == "=?base64?" + Encode(Standard, value) + "?="
    ensures EncodeHeaderValue(value) == AsText(value) <==>
              var s := AsText(value);
              || s == ""
              || ((forall c :: c in s ==> Printable(c)) && !IsBlank(s[0]) && !IsBlank(s[|s| - 1])
                  && !(StartsWith(s, "=?base64?") && EndsWith(s, "?=")))
  {
    var s := AsText(value);
    if RequiresBase64(s) {
      var encoded := EncodeHeaderValue(value);
      assert LooksEncoded(encoded) by {
        assert encoded[..|PREFIX|] == PREFIX && encoded[|encoded| - |SUFFIX|..] == SUFFIX;
      }
      HeaderValuesAreSafe(value);
      EncodedIsLonger(value);
    }
    if forall c :: c in s ==> Printable(c) {
      forall i | 0 <= i < |s| ensures Printable(s[i]) {
        assert s[i] in s;
      }
    }
  }

  lemma EncodedIsLonger(value: seq<Byte>)
    ensures |PREFIX + Encode(Standard, value) + SUFFIX| > |AsText(value)|
  {
    EncodeIsNotShorter(value);
  }

  lemma {:induction false} EncodeIsNotShorter(value: seq<Byte>)
    ensures |Encode(Standard, value)| >= |value|
  {
    if |value| >= 3 {
      EncodeIsNotShorter(value[3..]);
    }
  }
}
