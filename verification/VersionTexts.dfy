/**
 The characters of version texts, and versions written out as text and read back.
 */
module VersionTexts {
  import opened Options
  import opened Text
  import opened SemVer

  predicate VersionChar(c: char) {
    IsIdentifierChar(c) || c == '.' || c == '+'
  }

  /** Not empty, and without blanks, separators and comparison signs. */
  predicate VersionText(text: string) {
    text != "" && forall i :: 0 <= i < |text| ==> VersionChar(text[i])
  }

  predicate VersionChars(text: string) {
    forall i :: 0 <= i < |text| ==> VersionChar(text[i])
  }

  lemma DottedChars(s: string)
    requires forall k :: 0 <= k < |Split(s, ".")| ==> VersionChars(Split(s, ".")[k])
    ensures VersionChars(s)
  {
    forall i | 0 <= i < |s| ensures VersionChar(s[i]) {
      SplitCovers(s, ".", i);
      if k :| 0 <= k < |Split(s, ".")| && s[i] in Split(s, ".")[k] {
        var j :| 0 <= j < |Split(s, ".")[k]| && Split(s, ".")[k][j] == s[i];
        assert VersionChars(Split(s, ".")[k]);
      }
    }
  }

  lemma IdentifierChars(s: string)
    requires IsIdentifier(s) || IsNumber(s)
    ensures VersionChars(s)
  {
  }

  lemma CutChars(s: string, sep: string)
    requires |sep| == 1 && VersionChar(sep[0]) && VersionChars(Cut(s, sep).0)
    requires Cut(s, sep).1.Some? ==> VersionChars(Cut(s, sep).1.value)
    ensures VersionChars(s)
  {
    if Find(s, sep).Some? {
      var at := Find(s, sep).value;
      assert s == s[..at] + s[at..at + 1] + s[at + 1..];
    }
  }

  /** Every text that reads as a version consists of version characters. */
  lemma VersionsAreVersionTexts(text: string)
    requires SemVer.Parse(text).Some?
    ensures VersionText(text)
  {
    var (main, build) := Cut(text, "+");
    var (core, pre) := Cut(main, "-");
    var numbers := Split(core, ".");
    forall k | 0 <= k < |numbers| ensures VersionChars(numbers[k]) {
      IdentifierChars(numbers[k]);
    }
    DottedChars(core);
    if pre.Some? {
      PartsChars(pre.value);
    }
    CutChars(main, "-");
    if build.Some? {
      PartsChars(build.value);
    }
    CutChars(text, "+");
    EmptyIsNoVersion();
  }

  lemma PartsChars(s: string)
    requires forall k :: 0 <= k < |Split(s, ".")| ==> IsIdentifier(Split(s, ".")[k])
    ensures VersionChars(s)
  {
    forall k | 0 <= k < |Split(s, ".")| ensures VersionChars(Split(s, ".")[k]) {
      IdentifierChars(Split(s, ".")[k]);
    }
    DottedChars(s);
  }

  lemma EmptyIsNoVersion()
    ensures SemVer.Parse("").None?
  {
    AbsentCharacter("", "+");
    AbsentCharacter("", "-");
    AbsentCharacter("", ".");
  }

  /** So does every text that is accepted for matching. */
  lemma MatchingTexts(text: string)
    requires ParseForMatching(text).Some?
    ensures VersionText(text)
  {
    var bare := match StripPrefix(text, "v") case Some(rest) => rest case None => text;
    VersionsAreVersionTexts(bare);
    if StripPrefix(text, "v").Some? {
      assert text == text[..1] + bare && text[..1] == "v";
    }
  }

  // ---------------------------------------------------------------- writing versions out

  function DigitChar(d: nat): char
    requires d < 10
  {
    ('0' as int + d) as char
  }

  function Decimal(n: nat): (s: string)
    ensures s != "" && AllDigits(s)
  {
    if n < 10 then [DigitChar(n)] else Decimal(n / 10) + [DigitChar(n % 10)]
  }

  lemma {:induction false} DecimalIsRead(n: nat)
    ensures SemVer.Value(Decimal(n)) == n && NoLeadingZero(Decimal(n)) && (n > 0 ==> Decimal(n)[0] != '0')
  {
    var s := Decimal(n);
    if n < 10 {
      assert s[..0] == "" && s[0] == DigitChar(n);
    } else {
      DecimalIsRead(n / 10);
      assert s[..|s| - 1] == Decimal(n / 10) && s[|s| - 1] == DigitChar(n % 10);
    }
  }

  function Joined(parts: seq<string>): string {
    if parts == [] then "" else if |parts| == 1 then parts[0] else parts[0] + ("." + Joined(parts[1..]))
  }

  lemma {:induction false} JoinedIsSplit(parts: seq<string>)
    requires parts != [] && forall k :: 0 <= k < |parts| ==> Undotted(parts[k])
    ensures Split(Joined(parts), ".") == parts
  {
    AbsentCharacter(parts[0], ".");
    if |parts| > 1 {
      JoinedIsSplit(parts[1..]);
      ShortSeparatorsAreSeamless(parts[0], ".");
      SplitOfAtomJoin(parts[0], Joined(parts[1..]), ".");
      assert parts == [parts[0]] + parts[1..];
    }
  }

  predicate Undotted(s: string) {
    forall i :: 0 <= i < |s| ==> s[i] != '.'
  }

  function RenderCore(v: Version): string {
    Joined([Decimal(v.major), Decimal(v.minor), Decimal(v.patch)])
  }

  /** `MAJOR.MINOR.PATCH[-PRERELEASE]`. */
  function Render(v: Version): string {
    if v.pre == [] then RenderCore(v) else RenderCore(v) + ("-" + Joined(v.pre))
  }

  /** A version that can be written: its numbers fit, and its prerelease identifiers are
      well formed. */
  predicate Renderable(v: Version) {
    && v.major < U64_LIMIT && v.minor < U64_LIMIT && v.patch < U64_LIMIT
    && forall k :: 0 <= k < |v.pre| ==> IsIdentifier(v.pre[k]) && WellFormedIdentifier(v.pre[k])
  }

  predicate Among(s: string, digits: bool) {
    forall i :: 0 <= i < |s| ==> if digits then IsDigit(s[i]) || s[i] == '.' else IsIdentifierChar(s[i]) || s[i] == '.'
  }

  lemma {:induction false} JoinedChars(parts: seq<string>, digits: bool)
    requires forall k :: 0 <= k < |parts| ==> Among(parts[k], digits)
    ensures Among(Joined(parts), digits)
  {
    if |parts| > 1 {
      JoinedChars(parts[1..], digits);
    }
  }

  lemma CoreIsRead(v: Version)
    requires Renderable(v)
    ensures Split(RenderCore(v), ".") == [Decimal(v.major), Decimal(v.minor), Decimal(v.patch)]
    ensures Among(RenderCore(v), true)
    ensures IsNumber(Decimal(v.major)) && IsNumber(Decimal(v.minor)) && IsNumber(Decimal(v.patch))
  {
    var numbers := [Decimal(v.major), Decimal(v.minor), Decimal(v.patch)];
    DecimalIsRead(v.major);
    DecimalIsRead(v.minor);
    DecimalIsRead(v.patch);
    JoinedIsSplit(numbers);
    JoinedChars(numbers, true);
  }

  lemma NoPlus(s: string)
    requires Among(s, true) || Among(s, false)
    ensures Find(s, "+") == None && (Among(s, true) ==> Find(s, "-") == None)
  {
    AbsentCharacter(s, "+");
    if Among(s, true) {
      AbsentCharacter(s, "-");
    }
  }

  lemma CutAfterCore(core: string, pre: string)
    requires Among(core, true) && Among(pre, false)
    ensures Cut(core + ("-" + pre), "+") == (core + ("-" + pre), None)
    ensures Cut(core + ("-" + pre), "-") == (core, Some(pre))
  {
    var s := core + ("-" + pre);
    assert Among(s, false);
    NoPlus(s);
    NoPlus(core);
    ShortSeparatorsAreSeamless(core, "-");
    FirstInJoin(core, pre, "-");
    assert core + "-" + pre == s && s[..|core|] == core && s[|core| + 1..] == pre;
  }

  lemma PrereleaseIsRead(v: Version)
    requires Renderable(v) && v.pre != []
    ensures Split(Joined(v.pre), ".") == v.pre && ValidPrerelease(Joined(v.pre)) && Among(Joined(v.pre), false)
  {
    JoinedIsSplit(v.pre);
    JoinedChars(v.pre, false);
  }

  /** Every version that can be written is read back as itself. */
  lemma RenderedVersionsAreRead(v: Version)
    requires Renderable(v)
    ensures SemVer.Parse(Render(v)) == Some(Parsed(v, None))
  {
    CoreIsRead(v);
    DecimalIsRead(v.major);
    DecimalIsRead(v.minor);
    DecimalIsRead(v.patch);
    if v.pre == [] {
      NoPlus(RenderCore(v));
    } else {
      PrereleaseIsRead(v);
      CutAfterCore(RenderCore(v), Joined(v.pre));
    }
  }

  lemma {:induction false} ValueIsDecimal(s: string)
    requires AllDigits(s) && NoLeadingZero(s)
    ensures Decimal(SemVer.Value(s)) == s
    ensures s[0] != '0' ==> SemVer.Value(s) > 0
  {
    var n := |s| - 1;
    assert SemVer.Value(s) == SemVer.Value(s[..n]) * 10 + Digit(s[n]) && DigitChar(Digit(s[n])) == s[n];
    if n == 0 {
      assert s[..0] == "" && s == [s[0]];
    } else {
      ValueIsDecimal(s[..n]);
      assert s == s[..n] + [s[n]];
    }
  }

  lemma {:induction false} SplitIsJoined(s: string)
    ensures Joined(Split(s, ".")) == s
    decreases |s|
  {
    if Find(s, ".").Some? {
      var at := Find(s, ".").value;
      SplitIsJoined(s[at + 1..]);
      SplitAtFirst(s, ".", at);
      assert s == s[..at] + (s[at..at + 1] + s[at + 1..]);
    }
  }

  lemma CutIsJoined(s: string, sep: string)
    requires |sep| == 1
    ensures s == Cut(s, sep).0 + (match Cut(s, sep).1 case Some(rest) => sep + rest case None => "")
  {
    if Find(s, sep).Some? {
      var at := Find(s, sep).value;
      assert s == s[..at] + (s[at..at + 1] + s[at + 1..]);
    }
  }

  lemma CoreIsRendered(core: string, a: string, b: string, c: string, v: Version)
    requires Split(core, ".") == [a, b, c] && IsNumber(a) && IsNumber(b) && IsNumber(c)
    requires v.major == SemVer.Value(a) && v.minor == SemVer.Value(b) && v.patch == SemVer.Value(c)
    ensures RenderCore(v) == core
  {
    SplitIsJoined(core);
    ValueIsDecimal(a);
    ValueIsDecimal(b);
    ValueIsDecimal(c);
  }

  /** What is read is written out as it stood, build metadata apart: only the texts of
      versions are read. */
  lemma ReadVersionsAreRendered(text: string)
    requires SemVer.Parse(text).Some?
    ensures var parsed := SemVer.Parse(text).value;
            && Renderable(parsed.version)
            && text == Render(parsed.version) + (match parsed.build case Some(build) => "+" + build case None => "")
  {
    var (main, build) := Cut(text, "+");
    var (core, pre) := Cut(main, "-");
    var numbers := Split(core, ".");
    var v := SemVer.Parse(text).value.version;
    CutIsJoined(text, "+");
    CutIsJoined(main, "-");
    assert numbers == [numbers[0], numbers[1], numbers[2]];
    CoreIsRendered(core, numbers[0], numbers[1], numbers[2], v);
    if pre.Some? {
      SplitIsJoined(pre.value);
    }
  }

  /** Also for matching, with or without one leading `v`. */
  lemma RenderedVersionsMatch(v: Version)
    requires Renderable(v)
    ensures ParseForMatching(Render(v)) == Some(v) && ParseForMatching("v" + Render(v)) == Some(v)
  {
    RenderedVersionsAreRead(v);
    FirstIsDigit(v);
    assert Render(v)[..1][0] == Render(v)[0];
    assert ("v" + Render(v))[..1] == "v" && ("v" + Render(v))[1..] == Render(v);
  }

  lemma FirstIsDigit(v: Version)
    ensures Render(v) != "" && IsDigit(Render(v)[0])
  {
    assert Render(v)[0] == Decimal(v.major)[0];
  }
}
