/**
 Versions and their precedence, as sections 2 to 11 of Semantic Versioning 2.0.0
 define them and as the advisory and registry code uses them. Prerelease
 identifiers are kept as text: numeric ones are compared by length and then
 character by character, which avoids any integer bound.
 */
module SemVer {
  import opened Options
  import opened Text

  const U64_LIMIT: nat := 0x1_0000_0000_0000_0000

  datatype Version = Version(major: nat, minor: nat, patch: nat, pre: seq<string>)

  datatype Parsed = Parsed(version: Version, build: Option<string>)

  datatype Ordering = Less | Equal | Greater {
    function Flip(): Ordering {
      match this
      case Less => Greater
      case Equal => Equal
      case Greater => Less
    }

    function Then(other: Ordering): Ordering {
      if Equal? then other else this
    }
  }

  // ---------------------------------------------------------------- comparison

  function CompareNat(a: nat, b: nat): Ordering {
    if a < b then Less else if a > b then Greater else Equal
  }

  /** Lexicographic comparison of character codes. */
  function CompareString(a: string, b: string): Ordering {
    if a == "" && b == "" then Equal
    else if a == "" then Less
    else if b == "" then Greater
    else CompareNat(a[0] as nat, b[0] as nat).Then(CompareString(a[1..], b[1..]))
  }

  predicate AllDigits(s: string) {
    forall i :: 0 <= i < |s| ==> IsDigit(s[i])
  }

  function CompareIdentifier(a: string, b: string): Ordering {
    if !AllDigits(a) && AllDigits(b) then Greater
    else if AllDigits(a) && !AllDigits(b) then Less
    else if !AllDigits(a) then CompareString(a, b)
    else CompareNat(|a|, |b|).Then(CompareString(a, b))
  }

  function CompareIdentifiers(a: seq<string>, b: seq<string>): Ordering {
    if a == [] && b == [] then Equal
    else if a == [] then Less
    else if b == [] then Greater
    else CompareIdentifier(a[0], b[0]).Then(CompareIdentifiers(a[1..], b[1..]))
  }

  function ComparePrerelease(a: seq<string>, b: seq<string>): Ordering {
    if a == [] && b == [] then Equal
    else if a == [] then Greater
    else if b == [] then Less
    else CompareIdentifiers(a, b)
  }

  function Compare(a: Version, b: Version): Ordering {
    CompareNat(a.major, b.major)
    .Then(CompareNat(a.minor, b.minor))
    .Then(CompareNat(a.patch, b.patch))
    .Then(ComparePrerelease(a.pre, b.pre))
  }

  predicate Leq(a: Version, b: Version) {
    !Compare(a, b).Greater?
  }

  predicate Lt(a: Version, b: Version) {
    Compare(a, b).Less?
  }

  // ---------------------------------------------------------------- total order

  lemma {:induction false} StringsCompare(a: string, b: string)
    ensures CompareString(b, a) == CompareString(a, b).Flip()
    ensures CompareString(a, b).Equal? <==> a == b
  {
    if a != "" && b != "" {
      StringsCompare(a[1..], b[1..]);
      assert a == [a[0]] + a[1..] && b == [b[0]] + b[1..];
    }
  }

  lemma {:induction false} StringsAreTransitive(a: string, b: string, c: string)
    requires CompareString(a, b).Less? && CompareString(b, c).Less?
    ensures CompareString(a, c).Less?
  {
    if a != "" && a[0] == b[0] == c[0] {
      StringsAreTransitive(a[1..], b[1..], c[1..]);
    }
  }

  lemma IdentifierCompares(a: string, b: string)
    ensures CompareIdentifier(b, a) == CompareIdentifier(a, b).Flip()
    ensures CompareIdentifier(a, b).Equal? <==> a == b
  {
    StringsCompare(a, b);
  }

  lemma IdentifierIsTransitive(a: string, b: string, c: string)
    requires CompareIdentifier(a, b).Less? && CompareIdentifier(b, c).Less?
    ensures CompareIdentifier(a, c).Less?
  {
    if CompareString(a, b).Less? && CompareString(b, c).Less? {
      StringsAreTransitive(a, b, c);
    }
  }

  lemma {:induction false} IdentifiersCompare(a: seq<string>, b: seq<string>)
    ensures CompareIdentifiers(b, a) == CompareIdentifiers(a, b).Flip()
    ensures CompareIdentifiers(a, b).Equal? <==> a == b
  {
    if a != [] && b != [] {
      IdentifierCompares(a[0], b[0]);
      IdentifiersCompare(a[1..], b[1..]);
      assert a == [a[0]] + a[1..] && b == [b[0]] + b[1..];
    }
  }

  lemma {:induction false} IdentifiersAreTransitive(a: seq<string>, b: seq<string>, c: seq<string>)
    requires CompareIdentifiers(a, b).Less? && CompareIdentifiers(b, c).Less?
    ensures CompareIdentifiers(a, c).Less?
  {
    if a != [] {
      IdentifierCompares(a[0], b[0]);
      IdentifierCompares(b[0], c[0]);
      if a[0] == b[0] == c[0] {
        IdentifiersAreTransitive(a[1..], b[1..], c[1..]);
      } else if a[0] != b[0] && b[0] != c[0] {
        IdentifierIsTransitive(a[0], b[0], c[0]);
      }
    }
  }

  /** Comparison is antisymmetric and only identical versions compare equal. */
  lemma VersionsCompare(a: Version, b: Version)
    ensures Compare(b, a) == Compare(a, b).Flip()
    ensures Compare(a, b).Equal? <==> a == b
  {
    IdentifiersCompare(a.pre, b.pre);
  }

  lemma VersionsAreTransitive(a: Version, b: Version, c: Version)
    requires Compare(a, b).Less? && Compare(b, c).Less?
    ensures Compare(a, c).Less?
  {
    if a.pre != [] && b.pre != [] && c.pre != []
       && CompareIdentifiers(a.pre, b.pre).Less? && CompareIdentifiers(b.pre, c.pre).Less? {
      IdentifiersAreTransitive(a.pre, b.pre, c.pre);
    }
  }

  /** Version precedence is a total order. */
  lemma PrecedenceIsATotalOrder(a: Version, b: Version, c: Version)
    ensures Leq(a, b) || Leq(b, a)
    ensures Leq(a, b) && Leq(b, a) ==> a == b
    ensures Leq(a, b) && Leq(b, c) ==> Leq(a, c)
    ensures Lt(a, b) <==> Leq(a, b) && a != b
  {
    VersionsCompare(a, b);
    VersionsCompare(b, c);
    VersionsCompare(a, c);
    if Compare(a, b).Less? && Compare(b, c).Less? {
      VersionsAreTransitive(a, b, c);
    }
  }

  // ---------------------------------------------------------------- section 11

  function Digit(c: char): nat
    requires IsDigit(c)
  {
    (c as nat) - ('0' as nat)
  }

  /** The number a digit string denotes. */
  function Value(s: string): nat
    requires AllDigits(s)
  {
    if s == "" then 0 else Value(s[..|s| - 1]) * 10 + Digit(s[|s| - 1])
  }

  predicate NoLeadingZero(s: string) {
    |s| == 1 || (|s| > 1 && s[0] != '0')
  }

  predicate WellFormedIdentifier(s: string) {
    s != "" && (AllDigits(s) ==> NoLeadingZero(s))
  }

  predicate WellFormed(v: Version) {
    forall i :: 0 <= i < |v.pre| ==> WellFormedIdentifier(v.pre[i])
  }

  /** Section 11.4: numeric identifiers by value, numeric ones below the others,
      the others in ASCII order. */
  ghost predicate IdentifierBelow(a: string, b: string) {
    if AllDigits(a) && AllDigits(b) then Value(a) < Value(b)
    else if AllDigits(a) != AllDigits(b) then AllDigits(a)
    else TextBelow(a, b)
  }

  /** ASCII order: a proper prefix comes first, otherwise the first difference decides. */
  ghost predicate TextBelow(a: string, b: string) {
    exists k: nat ::
      k <= |a| && k <= |b| && a[..k] == b[..k] && k < |b| && (k == |a| || a[k] < b[k])
  }

  /** Sections 11.2 to 11.4 of Semantic Versioning 2.0.0. */
  ghost predicate Precedes(a: Version, b: Version) {
    if a.major != b.major then a.major < b.major
    else if a.minor != b.minor then a.minor < b.minor
    else if a.patch != b.patch then a.patch < b.patch
    else if a.pre == [] || b.pre == [] then a.pre != [] && b.pre == []
    else PrereleaseBelow(a.pre, b.pre)
  }

  ghost predicate DifferAt(a: seq<string>, b: seq<string>, k: nat) {
    k <= |a| && k <= |b| && a[..k] == b[..k] && k < |b| && (k == |a| || IdentifierBelow(a[k], b[k]))
  }

  /** A shorter list of equal identifiers comes first; otherwise the first different
      ones decide. */
  ghost predicate PrereleaseBelow(a: seq<string>, b: seq<string>) {
    exists k: nat :: DifferAt(a, b, k)
  }

  function Pow10(n: nat): nat {
    if n == 0 then 1 else 10 * Pow10(n - 1)
  }

  lemma {:induction false} ValueBounds(s: string)
    requires AllDigits(s) && s != ""
    ensures Value(s) < Pow10(|s|)
    ensures s[0] != '0' ==> Pow10(|s| - 1) <= Value(s)
  {
    if |s| > 1 {
      ValueBounds(s[..|s| - 1]);
    }
  }

  lemma {:induction false} Pow10Monotone(m: nat, n: nat)
    requires m <= n
    ensures Pow10(m) <= Pow10(n)
  {
    if m < n {
      Pow10Monotone(m, n - 1);
    }
  }

  /** Digit strings of one length: the first differing digit decides, whether one
      reads the text or the number. */
  lemma {:induction false} SameLengthByValue(a: string, b: string)
    requires AllDigits(a) && AllDigits(b) && |a| == |b|
    ensures CompareString(a, b) == CompareNat(Value(a), Value(b))
  {
    if a != "" {
      var n := |a| - 1;
      SameLengthByValue(a[..n], b[..n]);
      LastCharacterDecides(a, b);
    }
  }

  lemma {:induction false} LastCharacterDecides(a: string, b: string)
    requires |a| == |b| && a != ""
    ensures CompareString(a, b)
         == CompareString(a[..|a| - 1], b[..|b| - 1]).Then(CompareNat(a[|a| - 1] as nat, b[|b| - 1] as nat))
  {
    if |a| > 1 {
      LastCharacterDecides(a[1..], b[1..]);
      var n := |a| - 1;
      assert a[1..][..n - 1] == a[..n][1..] && b[1..][..n - 1] == b[..n][1..];
    }
  }

  /** Comparing numeric identifiers by length and then by text is comparing the
      numbers, however long they are. */
  lemma NumericIdentifiersCompareByValue(a: string, b: string)
    requires AllDigits(a) && AllDigits(b) && NoLeadingZero(a) && NoLeadingZero(b)
    ensures CompareIdentifier(a, b) == CompareNat(Value(a), Value(b))
  {
    if |a| == |b| {
      SameLengthByValue(a, b);
    } else {
      ValueBounds(a);
      ValueBounds(b);
      Pow10Monotone(|a|, if |a| < |b| then |b| - 1 else |a|);
      Pow10Monotone(|b|, if |b| < |a| then |a| - 1 else |b|);
    }
  }

  lemma {:induction false} TextComparesAsBelow(a: string, b: string)
    ensures CompareString(a, b).Less? <==> TextBelow(a, b)
  {
    if a == "" || b == "" {
      if b != "" {
        assert a[..0] == b[..0];
      }
    } else {
      TextComparesAsBelow(a[1..], b[1..]);
      if TextBelow(a, b) {
        var k: nat :| k <= |a| && k <= |b| && a[..k] == b[..k] && k < |b| && (k == |a| || a[k] < b[k]);
        if k > 0 {
          assert a[..k][0] == a[0] && b[..k][0] == b[0];
          assert a[1..][..k - 1] == a[..k][1..] && b[1..][..k - 1] == b[..k][1..];
        }
      }
      if a[0] == b[0] && TextBelow(a[1..], b[1..]) {
        var k: nat :| k <= |a[1..]| && k <= |b[1..]| && a[1..][..k] == b[1..][..k] && k < |b[1..]|
                      && (k == |a[1..]| || a[1..][k] < b[1..][k]);
        assert a[..k + 1] == [a[0]] + a[1..][..k] && b[..k + 1] == [b[0]] + b[1..][..k];
      }
      if a[0] < b[0] {
        assert a[..0] == b[..0];
      }
    }
  }

  lemma IdentifierComparesAsBelow(a: string, b: string)
    requires WellFormedIdentifier(a) && WellFormedIdentifier(b)
    ensures CompareIdentifier(a, b).Less? <==> IdentifierBelow(a, b)
  {
    TextComparesAsBelow(a, b);
    if AllDigits(a) && AllDigits(b) {
      NumericIdentifiersCompareByValue(a, b);
    }
  }

  lemma DifferLater(a: seq<string>, b: seq<string>, k: nat)
    requires a != [] && b != [] && k > 0
    ensures DifferAt(a, b, k) <==> a[0] == b[0] && DifferAt(a[1..], b[1..], k - 1)
  {
    if k <= |a| && k <= |b| {
      assert a[..k] == [a[0]] + a[1..][..k - 1] && b[..k] == [b[0]] + b[1..][..k - 1];
      assert a[..k] == b[..k] ==> a[..k][0] == b[..k][0] && a[..k][1..] == b[..k][1..];
      assert a[1..][..k - 1] == a[..k][1..] && b[1..][..k - 1] == b[..k][1..];
    }
  }

  lemma DifferFirst(a: seq<string>, b: seq<string>)
    ensures DifferAt(a, b, 0) <==> b != [] && (a == [] || IdentifierBelow(a[0], b[0]))
  {
    assert a[..0] == b[..0];
  }

  /** Either the first identifiers decide, or the rest does. */
  lemma PrereleaseBelowSteps(a: seq<string>, b: seq<string>)
    requires a != [] && b != []
    ensures PrereleaseBelow(a, b) <==> IdentifierBelow(a[0], b[0]) || (a[0] == b[0] && PrereleaseBelow(a[1..], b[1..]))
  {
    DifferFirst(a, b);
    if PrereleaseBelow(a, b) {
      var k: nat :| DifferAt(a, b, k);
      if k > 0 {
        DifferLater(a, b, k);
      }
    }
    if a[0] == b[0] && PrereleaseBelow(a[1..], b[1..]) {
      var k: nat :| DifferAt(a[1..], b[1..], k);
      DifferLater(a, b, k + 1);
    }
  }

  lemma {:induction false} IdentifiersCompareAsBelow(a: seq<string>, b: seq<string>)
    requires forall i :: 0 <= i < |a| ==> WellFormedIdentifier(a[i])
    requires forall i :: 0 <= i < |b| ==> WellFormedIdentifier(b[i])
    ensures CompareIdentifiers(a, b).Less? <==> PrereleaseBelow(a, b)
  {
    if a == [] || b == [] {
      DifferFirst(a, b);
    } else {
      IdentifiersCompareAsBelow(a[1..], b[1..]);
      IdentifierComparesAsBelow(a[0], b[0]);
      IdentifierCompares(a[0], b[0]);
      PrereleaseBelowSteps(a, b);
    }
  }

  /** The comparison is the precedence of section 11 of Semantic Versioning 2.0.0. */
  lemma ComparisonIsSemVerPrecedence(a: Version, b: Version)
    requires WellFormed(a) && WellFormed(b)
    ensures Lt(a, b) <==> Precedes(a, b)
  {
    IdentifiersCompareAsBelow(a.pre, b.pre);
  }

  // ---------------------------------------------------------------- parsing

  predicate IsNumber(s: string) {
    s != "" && AllDigits(s) && NoLeadingZero(s) && Value(s) < U64_LIMIT
  }

  predicate IsIdentifier(s: string) {
    s != "" && forall i :: 0 <= i < |s| ==> IsIdentifierChar(s[i])
  }

  predicate ValidPrerelease(s: string) {
    var parts := Split(s, ".");
    forall i :: 0 <= i < |parts| ==> IsIdentifier(parts[i]) && WellFormedIdentifier(parts[i])
  }

  predicate ValidBuild(s: string) {
    var parts := Split(s, ".");
    forall i :: 0 <= i < |parts| ==> IsIdentifier(parts[i])
  }

  /** The text before the first `sep`, and the text after it if there is one. */
  function Cut(s: string, sep: string): (string, Option<string>) {
    match SplitOnce(s, sep)
    case None => (s, None)
    case Some((before, after)) => (before, Some(after))
  }

  /** `MAJOR.MINOR.PATCH[-PRERELEASE][+BUILD]`. */
  function Parse(text: string): (r: Option<Parsed>)
    ensures r.Some? ==> WellFormed(r.value.version)
  {
    var (main, build) := Cut(text, "+");
    var (core, pre) := Cut(main, "-");
    var numbers := Split(core, ".");
    if |numbers| == 3 && IsNumber(numbers[0]) && IsNumber(numbers[1]) && IsNumber(numbers[2])
       && (pre.Some? ==> ValidPrerelease(pre.value)) && (build.Some? ==> ValidBuild(build.value))
    then
      Some(Parsed(Version(Value(numbers[0]), Value(numbers[1]), Value(numbers[2]),
                          if pre.Some? then Split(pre.value, ".") else []), build))
    else
      None
  }

  /** Parsing for range matching: one leading `v` is tolerated and build metadata
      is dropped, because precedence ignores it (section 10). */
  function ParseForMatching(text: string): (r: Option<Version>)
    ensures r.Some? ==> WellFormed(r.value)
  {
    var bare := match StripPrefix(text, "v") case Some(rest) => rest case None => text;
    match Parse(bare)
    case None => None
    case Some(parsed) => Some(parsed.version)
  }

  /** Two texts that differ only in build metadata denote the same version for
      matching. */
  lemma BuildMetadataIsIgnored(text: string, build: string)
    requires Find(text, "+").None? && ValidBuild(build)
    ensures ParseForMatching(text + "+" + build) == ParseForMatching(text)
  {
    var whole := text + "+" + build;
    var (bare, bareWhole) := (match StripPrefix(text, "v") case Some(rest) => rest case None => text,
                              match StripPrefix(whole, "v") case Some(rest) => rest case None => whole);
    assert StartsWith(whole, "v") == StartsWith(text, "v") by {
      if text == "" {
        assert whole[..1] == "+";
      } else {
        assert whole[..1] == [whole[0]] && text[..1] == [text[0]] && whole[0] == text[0];
      }
    }
    assert bareWhole == bare + "+" + build;
    ShortSeparatorsAreSeamless(bare, "+");
    forall j ensures !OccursAt(bare, "+", j) {
      assert OccursAt(bare, "+", j) ==> OccursAt(text, "+", j + |text| - |bare|);
    }
    FirstInJoin(bare, build, "+");
    assert bareWhole[..|bare|] == bare && bareWhole[|bare| + 1..] == build;
  }
}
