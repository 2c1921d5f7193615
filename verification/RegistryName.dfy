/**
 Names of the form `{name}-{version}`, as the package registry names its directories
 and, with the suffix `.crate`, its files; and the two walks that collect them.
 */
module RegistryName {
  import opened Options
  import opened Text
  import SemVer

  // ---------------------------------------------------------------- one name

  /** Crate names have neither a dot nor a plus sign. */
  predicate PlainName(name: string) {
    forall k :: 0 <= k < |name| ==> name[k] != '.' && name[k] != '+'
  }

  predicate IsVersion(text: string) {
    SemVer.Parse(text).Some?
  }

  /** The version may start at `i`. */
  predicate Acceptable(s: string, i: int) {
    1 <= i < |s| && s[i - 1] == '-' && PlainName(s[..i - 1]) && IsVersion(s[i..])
  }

  /** What the text says: a plain name, a hyphen, and a version. */
  ghost predicate Names(s: string, name: string, version: string) {
    s == name + "-" + version && PlainName(name) && IsVersion(version)
  }

  ghost function NameAndVersion(s: string): Option<(string, string)> {
    if i: int :| Acceptable(s, i) then Some((s[..i - 1], s[i..])) else None
  }

  lemma AcceptableNames(s: string, i: int)
    requires Acceptable(s, i)
    ensures Names(s, s[..i - 1], s[i..])
  {
  }

  lemma NamesAcceptable(s: string, name: string, version: string)
    requires Names(s, name, version)
    ensures Acceptable(s, |name| + 1) && s[..|name|] == name && s[|name| + 1..] == version
  {
    assert version != "" by {
      VersionHasADotFirst("", 0);
    }
  }

  lemma FirstCharacter(s: string, sep: string)
    requires |sep| == 1
    ensures match Find(s, sep)
            case None => forall k :: 0 <= k < |s| ==> s[k] != sep[0]
            case Some(i) => i < |s| && s[i] == sep[0] && forall k :: 0 <= k < i ==> s[k] != sep[0]
  {
    var bound := match Find(s, sep) case None => |s| case Some(i) => i;
    forall k | 0 <= k < bound ensures s[k] != sep[0] {
      assert !OccursAt(s, sep, k);
    }
    if Find(s, sep).Some? {
      assert s[bound + 0] == sep[0];
    }
  }

  /** In a version a dot comes before the first hyphen that is not preceded by a plus
      sign; so no text with a hyphen reached through plain characters is a version. */
  lemma VersionHasADotFirst(s: string, k: nat)
    requires k <= |s| && PlainName(s[..k]) && (k < |s| ==> s[k] == '-')
    ensures !IsVersion(s)
  {
    var (main, build) := SemVer.Cut(s, "+");
    FirstCharacter(s, "+");
    assert forall m :: 0 <= m < k ==> s[..k][m] == s[m];
    assert |main| >= k;
    var (core, pre) := SemVer.Cut(main, "-");
    FirstCharacter(main, "-");
    assert |core| <= k;
    FirstCharacter(core, ".");
    assert Find(core, ".").None?;
    assert Split(core, ".") == [core];
  }

  /** At most one place of a text can be the start of the version, so the direction of
      the search does not matter. */
  lemma OneAcceptableSplit(s: string, i: int, j: int)
    requires Acceptable(s, i) && Acceptable(s, j)
    ensures i == j
  {
    var (lo, hi) := if i < j then (i, j) else (j, i);
    if lo < hi {
      var k := hi - 1 - lo;
      forall m | 0 <= m < k ensures s[lo..][..k][m] != '.' && s[lo..][..k][m] != '+' {
        assert s[lo..][..k][m] == s[..hi - 1][lo + m];
      }
      VersionHasADotFirst(s[lo..], k);
    }
  }

  /** A text is read as a name and a version exactly when it is that name, a hyphen
      and that version: whatever is read concatenates back, and every plain name with
      every valid version is read back. */
  lemma RegistryNamesRoundTrip(s: string, name: string, version: string)
    ensures NameAndVersion(s) == Some((name, version)) <==> Names(s, name, version)
  {
    if NameAndVersion(s) == Some((name, version)) {
      var i: int :| Acceptable(s, i) && name == s[..i - 1] && version == s[i..];
      AcceptableNames(s, i);
    }
    if Names(s, name, version) {
      NamesAcceptable(s, name, version);
      var i: int :| Acceptable(s, i) && NameAndVersion(s) == Some((s[..i - 1], s[i..]));
      OneAcceptableSplit(s, i, |name| + 1);
    }
  }

  /** Nothing is read from a text exactly when no name and version make it up. */
  lemma NothingToRead(s: string)
    ensures NameAndVersion(s).None? <==> forall name, version :: !Names(s, name, version)
  {
    if NameAndVersion(s).None? {
      forall name, version ensures !Names(s, name, version) {
        RegistryNamesRoundTrip(s, name, version);
      }
    } else {
      RegistryNamesRoundTrip(s, NameAndVersion(s).value.0, NameAndVersion(s).value.1);
    }
  }

  method ReadsAs(name: string, version: string) returns (yes: bool)
    ensures yes <==> PlainName(name) && IsVersion(version)
  {
    PlainMeansNeither(name);
    if Contains(name, ".") || Contains(name, "+") {
      return false;
    }
    return SemVer.Parse(version).Some?;
  }

  /** Tries the hyphens from right to left. */
  method ParseRegistryDirName(dirName: string) returns (r: Option<(string, string)>)
    ensures r == NameAndVersion(dirName)
  {
    var i := |dirName|;
    while i > 1
      invariant i <= 1 || i <= |dirName|
      invariant forall j :: i <= j ==> !Acceptable(dirName, j)
    {
      i := i - 1;
      if dirName[i - 1] == '-' {
        var potentialName := dirName[..i - 1];
        var potentialVersion := dirName[i..];
        var found := ReadsAs(potentialName, potentialVersion);
        if found {
          AcceptableNames(dirName, i);
          RegistryNamesRoundTrip(dirName, potentialName, potentialVersion);
          return Some((potentialName, potentialVersion));
        }
      }
    }
    return None;
  }

  lemma PlainMeansNeither(name: string)
    ensures PlainName(name) <==> !Contains(name, ".") && !Contains(name, "+")
  {
    FirstCharacter(name, ".");
    FirstCharacter(name, "+");
  }

  // ---------------------------------------------------------------- whole registries

  /** An entry of a registry directory. A name that is not valid text is absent. */
  datatype Entry = Unreadable | PlainFile | Directory(name: Option<string>)

  /** An entry of the root directory. */
  datatype Registry = NotADirectory | Unlistable | Listed(entries: seq<Entry>)

  datatype ScanOutcome = ScanOutcome(discovered: nat, unparseable: nat)

  ghost function EntryNames(e: Entry): seq<(string, string)> {
    if e.Directory? && e.name.Some? && NameAndVersion(e.name.value).Some? then [NameAndVersion(e.name.value).value] else []
  }

  /** The names and versions that entries name, in order. */
  ghost function NamesIn(entries: seq<Entry>): seq<(string, string)> {
    if entries == [] then [] else NamesIn(entries[..|entries| - 1]) + EntryNames(entries[|entries| - 1])
  }

  function EntriesOf(r: Registry): seq<Entry> {
    if r.Listed? then r.entries else []
  }

  /** All entries, in the order of the walk. */
  function Walked(registries: seq<Registry>): seq<Entry> {
    if registries == [] then []
    else Walked(registries[..|registries| - 1]) + EntriesOf(registries[|registries| - 1])
  }

  ghost function VersionsFor(names: seq<(string, string)>, crateName: string): seq<string> {
    if names == [] then []
    else
      var last := names[|names| - 1];
      VersionsFor(names[..|names| - 1], crateName) + if last.0 == crateName then [last.1] else []
  }

  /** The versions of a crate that lie in the registries, in the order of the walk. */
  ghost function LocalVersions(registries: seq<Registry>, crateName: string): seq<string> {
    VersionsFor(NamesIn(Walked(registries)), crateName)
  }

  function Lookup(m: map<string, seq<string>>, name: string): seq<string> {
    if name in m then m[name] else []
  }

  /** `m` holds exactly the crates that are named, with their versions. */
  ghost predicate Groups(m: map<string, seq<string>>, names: seq<(string, string)>) {
    && (forall name :: Lookup(m, name) == VersionsFor(names, name))
    && (forall name :: name in m ==> m[name] != [])
  }

  lemma AppendNext<T>(before: seq<T>, items: seq<T>, k: nat)
    requires k < |items|
    ensures before + items[..k + 1] == (before + items[..k]) + [items[k]]
  {
  }

  lemma NamesOfNext(entries: seq<Entry>, next: Entry)
    ensures NamesIn(entries + [next]) == NamesIn(entries) + EntryNames(next)
    ensures EntryNames(next) == [] ==> NamesIn(entries + [next]) == NamesIn(entries)
  {
    assert (entries + [next])[..|entries|] == entries;
    assert NamesIn(entries) + [] == NamesIn(entries);
  }

  lemma VersionsOfNext(names: seq<(string, string)>, next: (string, string), crateName: string)
    ensures VersionsFor(names + [next], crateName)
         == VersionsFor(names, crateName) + if next.0 == crateName then [next.1] else []
  {
    assert (names + [next])[..|names|] == names;
  }

  function Grouped(m: map<string, seq<string>>, next: (string, string)): map<string, seq<string>> {
    m[next.0 := Lookup(m, next.0) + [next.1]]
  }

  lemma GroupsNext(m: map<string, seq<string>>, names: seq<(string, string)>, next: (string, string))
    requires Groups(m, names)
    ensures Groups(Grouped(m, next), names + [next])
  {
    forall name ensures Lookup(Grouped(m, next), name) == VersionsFor(names + [next], name) {
      VersionsOfNext(names, next, name);
    }
  }

  lemma WalkedNext(registries: seq<Registry>, k: nat)
    requires k < |registries|
    ensures Walked(registries[..k + 1]) == Walked(registries[..k]) + EntriesOf(registries[k])
  {
    assert registries[..k + 1][..k] == registries[..k];
  }

  function Directories(entries: seq<Entry>): nat {
    if entries == [] then 0
    else Directories(entries[..|entries| - 1]) + if entries[|entries| - 1].Directory? then 1 else 0
  }

  lemma DirectoriesOfNext(entries: seq<Entry>, next: Entry)
    ensures Directories(entries + [next]) == Directories(entries) + if next.Directory? then 1 else 0
  {
    assert (entries + [next])[..|entries|] == entries;
  }

  /** Every directory is counted as discovered, and as unparseable if it names no version. */
  ghost predicate Tallied(outcome: ScanOutcome, entries: seq<Entry>) {
    && outcome.discovered == Directories(entries)
    && outcome.discovered == outcome.unparseable + |NamesIn(entries)|
  }

  method EntryNameAndVersion(e: Entry) returns (parsed: Option<(string, string)>)
    ensures EntryNames(e) == if parsed.Some? then [parsed.value] else []
  {
    parsed := None;
    if e.Directory? && e.name.Some? {
      parsed := ParseRegistryDirName(e.name.value);
    }
  }

  method ScanRegistry(entries: seq<Entry>, found: map<string, seq<string>>, tally: ScanOutcome, ghost before: seq<Entry>)
    returns (m: map<string, seq<string>>, outcome: ScanOutcome)
    requires Groups(found, NamesIn(before)) && Tallied(tally, before)
    ensures Groups(m, NamesIn(before + entries))
    ensures Tallied(outcome, before + entries)
  {
    m, outcome := found, tally;
    ghost var seen := before;
    for e := 0 to |entries|
      invariant seen == before + entries[..e]
      invariant Groups(m, NamesIn(seen))
      invariant Tallied(outcome, seen)
    {
      AppendNext(before, entries, e);
      NamesOfNext(seen, entries[e]);
      DirectoriesOfNext(seen, entries[e]);
      if entries[e].Directory? {
        outcome := outcome.(discovered := outcome.discovered + 1);
      }
      var parsed := EntryNameAndVersion(entries[e]);
      if parsed.Some? {
        GroupsNext(m, NamesIn(seen), parsed.value);
        m := Grouped(m, parsed.value);
      } else if entries[e].Directory? {
        outcome := outcome.(unparseable := outcome.unparseable + 1);
      }
      seen := seen + [entries[e]];
    }
    assert seen == before + entries;
  }

  /** Scans all registries at once: the map holds exactly the crates found, each with
      its local versions. Every directory is counted, and the unparseable ones are
      those that name no version. */
  method CollectCrateVersions(root: Option<seq<Registry>>)
    returns (found: Option<map<string, seq<string>>>, outcome: ScanOutcome)
    ensures found.None? <==> root.None?
    ensures root.Some? ==> forall name :: Lookup(found.value, name) == LocalVersions(root.value, name)
    ensures root.Some? ==> forall name :: name in found.value ==> found.value[name] != []
    ensures if root.Some? then Tallied(outcome, Walked(root.value)) else outcome == ScanOutcome(0, 0)
  {
    outcome := ScanOutcome(0, 0);
    if root.None? {
      return None, outcome;
    }
    var registries := root.value;
    var m: map<string, seq<string>> := map[];
    for r := 0 to |registries|
      invariant Groups(m, NamesIn(Walked(registries[..r])))
      invariant Tallied(outcome, Walked(registries[..r]))
    {
      WalkedNext(registries, r);
      m, outcome := ScanRegistry(EntriesOf(registries[r]), m, outcome, Walked(registries[..r]));
    }
    assert registries[..|registries|] == registries;
    return Some(m), outcome;
  }

  /** Scans the registries for one crate. What it finds is what the map of the full
      scan holds for that crate. */
  method CollectLocalVersions(root: Option<seq<Registry>>, crateName: string) returns (versions: seq<string>)
    ensures versions == if root.Some? then LocalVersions(root.value, crateName) else []
  {
    versions := [];
    if root.None? {
      return;
    }
    var registries := root.value;
    for r := 0 to |registries|
      invariant versions == LocalVersions(registries[..r], crateName)
    {
      var entries := EntriesOf(registries[r]);
      ghost var seen := Walked(registries[..r]);
      WalkedNext(registries, r);
      for e := 0 to |entries|
        invariant seen == Walked(registries[..r]) + entries[..e]
        invariant versions == VersionsFor(NamesIn(seen), crateName)
      {
        AppendNext(Walked(registries[..r]), entries, e);
        NamesOfNext(seen, entries[e]);
        var parsed := EntryNameAndVersion(entries[e]);
        if parsed.Some? {
          VersionsOfNext(NamesIn(seen), parsed.value, crateName);
          if parsed.value.0 == crateName {
            versions := versions + [parsed.value.1];
          }
        }
        seen := seen + [entries[e]];
      }
      assert seen == Walked(registries[..r + 1]);
    }
    assert registries[..|registries|] == registries;
  }
}
