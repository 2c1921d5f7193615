/**
 The watcher of the registry cache: an index of known files, polled with the help of
 directory modification times. A poll sees one snapshot of the cache.
 */
module CacheWatcher {
  import opened Options
  import opened Text
  import opened RefreshQueue
  import opened RegistryName
  import W = RefreshWorker

  const PRIORITY_CACHE_WATCH := 20
  const EPOCH := 0

  type Path(==) = string

  /** A file name; one that is not valid text has only a lossy rendering. */
  datatype FileName = Utf8(text: string) | Raw(id: nat, lossy: string) {
    predicate IsCrateFile() {
      EndsWith(if Utf8? then text else lossy, ".crate")
    }
  }

  /** A directory as found on disk; its metadata or its listing may be unreadable. */
  datatype Dir = Dir(mtime: Option<int>, listing: Option<set<FileName>>)

  datatype Cache = Cache(listing: Option<set<Path>>, dirs: map<Path, Dir>)

  datatype Known = Known(mtime: int, files: set<FileName>)

  type Index = map<Path, Known>

  function CrateFiles(d: Dir): set<FileName> {
    if d.listing.Some? then set f | f in d.listing.value && f.IsCrateFile() else {}
  }

  function Snapshot(d: Dir): Known {
    Known(if d.mtime.Some? then d.mtime.value else EPOCH, CrateFiles(d))
  }

  /** The subdirectories that a listing of the cache root reveals. */
  function Revealed(c: Cache): set<Path> {
    if c.listing.Some? then set p | p in c.listing.value && p in c.dirs else {}
  }

  function InitialIndex(c: Cache): Index {
    map p | p in Revealed(c) :: Snapshot(c.dirs[p])
  }

  // ---------------------------------------------------------------- what a poll should do

  /** A known directory is looked at when its metadata can be read. */
  predicate Checked(index: Index, c: Cache, p: Path) {
    p in index && p in c.dirs && c.dirs[p].mtime.Some?
  }

  /** The directories whose files a full rescan reads. */
  function Seen(index: Index, c: Cache): set<Path> {
    (Revealed(c) - index.Keys) + set p | p in index && Checked(index, c, p)
  }

  function KnownFiles(index: Index, p: Path): set<FileName> {
    if p in index then index[p].files else {}
  }

  /** The index after reading every directory in full. */
  function Rescanned(index: Index, c: Cache): Index {
    map p | p in index.Keys + Seen(index, c) ::
      if p in Seen(index, c) && p in c.dirs then Snapshot(c.dirs[p]) else index[p]
  }

  /** The files that a full rescan finds new. */
  function NewFiles(index: Index, c: Cache): set<(Path, FileName)> {
    set p, f | p in Seen(index, c) && p in c.dirs && f in CrateFiles(c.dirs[p]) - KnownFiles(index, p) :: (p, f)
  }

  // ---------------------------------------------------------------- what it does

  /** The directories that the modification-time gate lets through. */
  function Read(index: Index, c: Cache): set<Path> {
    set p | p in Seen(index, c) && (p in index ==> p in c.dirs && c.dirs[p].mtime != Some(index[p].mtime))
  }

  function Polled(index: Index, c: Cache): Index {
    map p | p in index.Keys + Read(index, c) ::
      if p in Read(index, c) && p in c.dirs then Snapshot(c.dirs[p]) else index[p]
  }

  function HandedOver(index: Index, c: Cache): set<(Path, FileName)> {
    set p, f | p in Read(index, c) && p in c.dirs && f in CrateFiles(c.dirs[p]) - KnownFiles(index, p) :: (p, f)
  }

  /** A directory that still has the modification time of its last snapshot also still
      has the files of that snapshot. */
  ghost predicate Honest(index: Index, c: Cache) {
    forall p :: Checked(index, c, p) && c.dirs[p].mtime == Some(index[p].mtime) ==>
      CrateFiles(c.dirs[p]) == index[p].files
  }

  /** The gated poll does what a full rescan would do exactly when modification times
      are honest. */
  lemma GatedPollIsAFullRescan(index: Index, c: Cache)
    ensures Polled(index, c) == Rescanned(index, c) <==> Honest(index, c)
    ensures Honest(index, c) ==> HandedOver(index, c) == NewFiles(index, c)
  {
    if Polled(index, c) == Rescanned(index, c) {
      forall p | Checked(index, c, p) && c.dirs[p].mtime == Some(index[p].mtime)
        ensures CrateFiles(c.dirs[p]) == index[p].files
      {
        assert p in Seen(index, c) && p !in Read(index, c);
        assert Polled(index, c)[p] == Rescanned(index, c)[p];
      }
    }
    if Honest(index, c) {
      forall p | p in Seen(index, c) && p !in Read(index, c)
        ensures Checked(index, c, p) && Snapshot(c.dirs[p]) == index[p]
      {
      }
      assert Polled(index, c).Keys == Rescanned(index, c).Keys;
    }
  }

  // ---------------------------------------------------------------- whole runs

  /** The index after the poll of `caches[k]`; `caches[0]` is what startup sees. */
  function IndexAfter(caches: seq<Cache>, k: nat): Index
    requires k < |caches|
  {
    if k == 0 then InitialIndex(caches[0]) else Polled(IndexAfter(caches, k - 1), caches[k])
  }

  function HandedAt(caches: seq<Cache>, k: nat): set<(Path, FileName)>
    requires 0 < k < |caches|
  {
    HandedOver(IndexAfter(caches, k - 1), caches[k])
  }

  /** If the directory has the same modification time in both, it has the same files. */
  ghost predicate SameTimeSameFiles(a: Cache, b: Cache, p: Path) {
    p in a.dirs && p in b.dirs && Snapshot(a.dirs[p]).mtime == Snapshot(b.dirs[p]).mtime ==>
      CrateFiles(a.dirs[p]) == CrateFiles(b.dirs[p])
  }

  /** Between any two looks at a directory, equal modification times mean equal files. */
  ghost predicate TimesTellContents(caches: seq<Cache>) {
    forall i, j, p :: 0 <= i < j < |caches| ==> SameTimeSameFiles(caches[i], caches[j], p)
  }

  /** What can be seen of a directory so far: nothing until the root's listing reveals
      it, then its files whenever its metadata can be read. */
  function View(caches: seq<Cache>, k: nat, p: Path): Option<set<FileName>>
    requires k < |caches|
  {
    var before := if k == 0 then None else View(caches, k - 1, p);
    var c := caches[k];
    if p in c.dirs && (if before.None? then p in Revealed(c) else c.dirs[p].mtime.Some?) then Some(CrateFiles(c.dirs[p]))
    else before
  }

  function Visible(caches: seq<Cache>, k: nat, p: Path): set<FileName>
    requires k < |caches|
  {
    match View(caches, k, p) case Some(files) => files case None => {}
  }

  /** Every entry of the index is a snapshot that some earlier poll has taken. */
  ghost predicate Remembers(caches: seq<Cache>, k: nat, index: Index) {
    forall p :: p in index ==>
      exists j :: 0 <= j <= k && j < |caches| && p in caches[j].dirs && index[p] == Snapshot(caches[j].dirs[p])
  }

  lemma {:induction false} IndexRemembers(caches: seq<Cache>, k: nat)
    requires k < |caches|
    ensures Remembers(caches, k, IndexAfter(caches, k))
  {
    if k > 0 {
      IndexRemembers(caches, k - 1);
      var index := IndexAfter(caches, k - 1);
      forall p | p in IndexAfter(caches, k)
        ensures exists j :: 0 <= j <= k && p in caches[j].dirs && IndexAfter(caches, k)[p] == Snapshot(caches[j].dirs[p])
      {
        if p in Read(index, caches[k]) {
          assert p in caches[k].dirs;
        } else {
          var j :| 0 <= j <= k - 1 && p in caches[j].dirs && index[p] == Snapshot(caches[j].dirs[p]);
        }
      }
    }
  }

  lemma SnapshotStillHolds(a: Cache, b: Cache, p: Path, known: Known)
    requires SameTimeSameFiles(a, b, p) && p in a.dirs && p in b.dirs
    requires known == Snapshot(a.dirs[p]) && b.dirs[p].mtime == Some(known.mtime)
    ensures CrateFiles(b.dirs[p]) == known.files
  {
    assert Snapshot(b.dirs[p]).mtime == known.mtime;
  }

  lemma HonestIfRemembered(caches: seq<Cache>, k: nat, index: Index)
    requires 0 < k < |caches| && TimesTellContents(caches) && Remembers(caches, k - 1, index)
    ensures Honest(index, caches[k])
  {
    forall p | Checked(index, caches[k], p) && caches[k].dirs[p].mtime == Some(index[p].mtime)
      ensures CrateFiles(caches[k].dirs[p]) == index[p].files
    {
      var j :| 0 <= j <= k - 1 && p in caches[j].dirs && index[p] == Snapshot(caches[j].dirs[p]);
      SnapshotStillHolds(caches[j], caches[k], p, index[p]);
    }
  }

  /** Every poll of the run is honest about the snapshots it starts from. */
  ghost predicate PollsAreHonest(caches: seq<Cache>) {
    forall k :: 0 < k < |caches| ==> HonestAt(caches, k)
  }

  ghost predicate HonestAt(caches: seq<Cache>, k: nat)
    requires 0 < k < |caches|
  {
    Honest(IndexAfter(caches, k - 1), caches[k])
  }

  /** It is enough that modification times tell contents, but it is not needed: a time
      may come back with other files as long as it was not the last one seen. */
  lemma TimesThatTellAreHonest(caches: seq<Cache>)
    requires TimesTellContents(caches)
    ensures PollsAreHonest(caches)
  {
    forall k | 0 < k < |caches| ensures HonestAt(caches, k) {
      IndexRemembers(caches, k - 1);
      HonestIfRemembered(caches, k, IndexAfter(caches, k - 1));
    }
  }

  /** The index after poll `k` is what can be seen of the directories. */
  ghost predicate Tracks(caches: seq<Cache>, k: nat)
    requires k < |caches|
  {
    forall p :: TracksOne(caches, k, p)
  }

  ghost predicate TracksOne(caches: seq<Cache>, k: nat, p: Path)
    requires k < |caches|
  {
    var index := IndexAfter(caches, k);
    && (p in index <==> View(caches, k, p).Some?)
    && (p in index ==> index[p].files == Visible(caches, k, p))
  }

  lemma TracksAtStart(caches: seq<Cache>)
    requires caches != []
    ensures Tracks(caches, 0)
  {
  }

  /** A poll of one directory keeps track of it exactly when it is honest about it. */
  lemma PollTracksOne(caches: seq<Cache>, k: nat, p: Path)
    requires 0 < k < |caches| && TracksOne(caches, k - 1, p)
    ensures var index, c := IndexAfter(caches, k - 1), caches[k];
            TracksOne(caches, k, p) <==>
              (Checked(index, c, p) && c.dirs[p].mtime == Some(index[p].mtime) ==> CrateFiles(c.dirs[p]) == index[p].files)
  {
    ViewOfOne(caches, k, p);
  }

  lemma PollTracks(caches: seq<Cache>, k: nat)
    requires 0 < k < |caches| && Tracks(caches, k - 1)
    ensures Tracks(caches, k) <==> HonestAt(caches, k)
  {
    forall p
      ensures var index, c := IndexAfter(caches, k - 1), caches[k];
              TracksOne(caches, k, p) <==>
                (Checked(index, c, p) && c.dirs[p].mtime == Some(index[p].mtime) ==> CrateFiles(c.dirs[p]) == index[p].files)
    {
      assert TracksOne(caches, k - 1, p);
      PollTracksOne(caches, k, p);
    }
  }

  lemma {:induction false} RunTracksUpTo(caches: seq<Cache>, n: nat)
    requires n < |caches|
    ensures (forall k :: 0 <= k <= n ==> Tracks(caches, k)) <==> (forall k :: 0 < k <= n ==> HonestAt(caches, k))
  {
    TracksAtStart(caches);
    if n > 0 {
      RunTracksUpTo(caches, n - 1);
      if Tracks(caches, n - 1) {
        PollTracks(caches, n);
      }
    }
  }

  /** Over a whole run the index is at every moment what can be seen of the directories if
      and only if every poll is honest about the snapshots it starts from. */
  lemma RunTracksExactlyWhenHonest(caches: seq<Cache>)
    ensures (forall k :: 0 <= k < |caches| ==> Tracks(caches, k)) <==> PollsAreHonest(caches)
  {
    if caches != [] {
      RunTracksUpTo(caches, |caches| - 1);
    }
  }

  /** What such a run hands over at each poll is what has newly come into view. */
  lemma RunFollowsTheDirectories(caches: seq<Cache>, k: nat)
    requires 0 < k < |caches| && PollsAreHonest(caches)
    ensures forall p, f :: (p, f) in HandedAt(caches, k) <==>
              f in Visible(caches, k, p) && f !in Visible(caches, k - 1, p)
  {
    var index := IndexAfter(caches, k - 1);
    RunTracksExactlyWhenHonest(caches);
    assert Tracks(caches, k - 1) && HonestAt(caches, k);
    GatedPollIsAFullRescan(index, caches[k]);
    forall p
      ensures p in Seen(index, caches[k]) ==> p in caches[k].dirs && CrateFiles(caches[k].dirs[p]) == Visible(caches, k, p)
      ensures p !in Seen(index, caches[k]) ==> Visible(caches, k, p) == Visible(caches, k - 1, p)
      ensures KnownFiles(index, p) == Visible(caches, k - 1, p)
    {
      assert TracksOne(caches, k - 1, p);
      ViewOfOne(caches, k, p);
    }
  }

  lemma ViewOfOne(caches: seq<Cache>, k: nat, p: Path)
    requires 0 < k < |caches|
    requires var index := IndexAfter(caches, k - 1); p in index <==> View(caches, k - 1, p).Some?
    ensures p in Seen(IndexAfter(caches, k - 1), caches[k]) ==>
              p in caches[k].dirs && View(caches, k, p) == Some(CrateFiles(caches[k].dirs[p]))
    ensures p !in Seen(IndexAfter(caches, k - 1), caches[k]) ==> View(caches, k, p) == View(caches, k - 1, p)
  {
  }

  /** How often a file has been handed over up to poll `k`. */
  function TimesHanded(caches: seq<Cache>, k: nat, p: Path, f: FileName): nat
    requires k < |caches|
  {
    if k == 0 then 0 else TimesHanded(caches, k - 1, p, f) + if (p, f) in HandedAt(caches, k) then 1 else 0
  }

  /** How often a visible file has been seen to be gone. */
  function TimesGone(caches: seq<Cache>, k: nat, p: Path, f: FileName): nat
    requires k < |caches|
  {
    if k == 0 then 0
    else
      TimesGone(caches, k - 1, p, f)
      + if f in Visible(caches, k - 1, p) && f !in Visible(caches, k, p) then 1 else 0
  }

  /** Over a whole run every appearance is handed over exactly once: handings and
      disappearances balance. A file that startup sees and that stays is never handed
      over; one that appears later and stays is handed over once. */
  lemma {:induction false} EachAppearanceIsHandedOverOnce(caches: seq<Cache>, k: nat, p: Path, f: FileName)
    requires k < |caches| && PollsAreHonest(caches)
    ensures TimesHanded(caches, k, p, f) + (if f in Visible(caches, 0, p) then 1 else 0)
         == TimesGone(caches, k, p, f) + (if f in Visible(caches, k, p) then 1 else 0)
  {
    if k > 0 {
      EachAppearanceIsHandedOverOnce(caches, k - 1, p, f);
      RunFollowsTheDirectories(caches, k);
    }
  }

  lemma OneDirSnapshot(p: Path, mtime: int, f: FileName)
    requires f.IsCrateFile()
    ensures Snapshot(OneDir(p, mtime, f).dirs[p]) == Known(mtime, {f})
    ensures InitialIndex(OneDir(p, mtime, f)) == map[p := Known(mtime, {f})]
  {
    assert CrateFiles(OneDir(p, mtime, f).dirs[p]) == {f};
    assert Revealed(OneDir(p, mtime, f)) == {p};
  }

  lemma OneDirPoll(p: Path, before: int, a: FileName, now: int, b: FileName)
    requires b.IsCrateFile() && before != now
    ensures Polled(map[p := Known(before, {a})], OneDir(p, now, b)) == map[p := Known(now, {b})]
  {
    OneDirSnapshot(p, now, b);
    var index: Index := map[p := Known(before, {a})];
    assert Revealed(OneDir(p, now, b)) == {p};
    assert Read(index, OneDir(p, now, b)) == {p};
  }

  /** A run whose polls are honest although a modification time comes back with other
      files. */
  lemma TimeMayComeBack(p: Path, a: FileName, b: FileName)
    requires a != b && a.IsCrateFile() && b.IsCrateFile()
    ensures var caches := [OneDir(p, 1, a), OneDir(p, 2, b), OneDir(p, 1, b)];
            PollsAreHonest(caches) && !TimesTellContents(caches)
  {
    var caches := [OneDir(p, 1, a), OneDir(p, 2, b), OneDir(p, 1, b)];
    OneDirSnapshot(p, 1, a);
    OneDirSnapshot(p, 2, b);
    OneDirSnapshot(p, 1, b);
    OneDirPoll(p, 1, a, 2, b);
    assert IndexAfter(caches, 0) == InitialIndex(caches[0]);
    assert IndexAfter(caches, 1) == Polled(IndexAfter(caches, 0), caches[1]);
    assert HonestAt(caches, 1) && HonestAt(caches, 2);
    assert !SameTimeSameFiles(caches[0], caches[2], p);
  }

  function OneDir(p: Path, mtime: int, f: FileName): Cache {
    Cache(Some({p}), map[p := Dir(Some(mtime), Some({f}))])
  }

  // ---------------------------------------------------------------- the watcher

  datatype Outcome = Outcome(subdirsChecked: nat, newFiles: nat, enqueued: nat, unparseable: nat)

  /** The crate and version that a file holds. */
  ghost function ParsedFile(f: FileName): Option<(string, string)> {
    if f.Utf8? && StripSuffix(f.text, ".crate").Some? then NameAndVersion(StripSuffix(f.text, ".crate").value) else None
  }

  /** Only crate files hold crates: a crate file with valid text for a name holds exactly the
      crate and version that its name without the suffix names. */
  lemma CrateFilesHoldCrates(f: FileName, crateName: string, version: string)
    ensures ParsedFile(f) == Some((crateName, version)) <==>
              && f.IsCrateFile() && f.Utf8?
              && f.text == crateName + "-" + version + ".crate"
              && PlainName(crateName) && IsVersion(version)
  {
    if f.Utf8? {
      var stem := StripSuffix(f.text, ".crate");
      if stem.Some? {
        RegistryNamesRoundTrip(stem.value, crateName, version);
        assert f.text == stem.value + ".crate";
      }
      if f.text == crateName + "-" + version + ".crate" {
        assert f.text[|f.text| - 6..] == ".crate" && f.text[..|f.text| - 6] == crateName + "-" + version;
      }
    }
  }

  ghost predicate HoldsCrate(f: FileName, crateName: string) {
    ParsedFile(f).Some? && ParsedFile(f).value.0 == crateName
  }

  ghost predicate Held(files: set<FileName>, crateName: string) {
    exists f :: f in files && HoldsCrate(f, crateName)
  }

  ghost function Unparsed(files: set<FileName>): set<FileName> {
    set f | f in files && ParsedFile(f).None?
  }

  ghost function UnparsedPairs(handed: set<(Path, FileName)>): set<(Path, FileName)> {
    set x | x in handed && ParsedFile(x.1).None?
  }

  function Tagged(p: Path, files: set<FileName>): set<(Path, FileName)> {
    set f | f in files :: (p, f)
  }

  /** The queue has gained jobs for crates that `files` holds and nothing else. */
  ghost predicate QueuedFor(t: Table, t': Table, files: set<FileName>, now: int) {
    && W.Extends(t, t')
    && forall k :: |t| <= k < |t'| ==>
         && t'[k] == NewJob(t'[k].crateName, "crate", PRIORITY_CACHE_WATCH, now)
         && Held(files, t'[k].crateName)
  }

  /** The crates that files hold. */
  ghost function CratesIn(files: set<FileName>): set<string> {
    set f | f in files && ParsedFile(f).Some? :: ParsedFile(f).value.0
  }

  ghost predicate AllQueued(t: Table, files: set<FileName>) {
    forall f :: f in files && ParsedFile(f).Some? ==> W.HasActive(t, ParsedFile(f).value.0, "crate")
  }

  method ParseCrateFilename(f: FileName) returns (parsed: Option<(string, string)>)
    ensures parsed == ParsedFile(f)
  {
    if f.Raw? {
      return None;
    }
    var stem := StripSuffix(f.text, ".crate");
    if stem.None? {
      return None;
    }
    parsed := ParseRegistryDirName(stem.value);
  }

  ghost predicate GroupsFiles(crates: map<string, seq<string>>, unparseable: nat, files: set<FileName>) {
    && (forall name :: name in crates <==> Held(files, name))
    && unparseable == |Unparsed(files)| && |crates| + unparseable <= |files|
  }

  ghost predicate ListsVersions(crates: map<string, seq<string>>, files: set<FileName>) {
    forall name, version :: version in Lookup(crates, name) <==> HeldVersion(files, name, version)
  }

  ghost predicate HeldVersion(files: set<FileName>, name: string, version: string) {
    exists f :: f in files && ParsedFile(f) == Some((name, version))
  }

  lemma VersionHeldByOneMore(done: set<FileName>, f: FileName, name: string, version: string)
    ensures HeldVersion(done + {f}, name, version) <==>
              HeldVersion(done, name, version) || ParsedFile(f) == Some((name, version))
  {
    if ParsedFile(f) == Some((name, version)) {
      assert f in done + {f};
    }
    if g :| g in done && ParsedFile(g) == Some((name, version)) {
      assert g in done + {f};
    }
  }

  lemma ListsOneMore(crates: map<string, seq<string>>, done: set<FileName>, f: FileName)
    requires ListsVersions(crates, done)
    ensures ParsedFile(f).None? ==> ListsVersions(crates, done + {f})
    ensures ParsedFile(f).Some? ==> ListsVersions(Grouped(crates, ParsedFile(f).value), done + {f})
  {
    forall name, version
      ensures HeldVersion(done + {f}, name, version) <==>
                HeldVersion(done, name, version) || ParsedFile(f) == Some((name, version))
    {
      VersionHeldByOneMore(done, f, name, version);
    }
  }

  lemma HeldByOneMore(done: set<FileName>, f: FileName, name: string)
    ensures Held(done + {f}, name) <==> Held(done, name) || HoldsCrate(f, name)
  {
    if HoldsCrate(f, name) {
      assert f in done + {f};
    }
    if g :| g in done && HoldsCrate(g, name) {
      assert g in done + {f};
    }
  }

  lemma GroupsOneMore(crates: map<string, seq<string>>, unparseable: nat, done: set<FileName>, f: FileName)
    requires f !in done && GroupsFiles(crates, unparseable, done)
    ensures ParsedFile(f).None? ==> GroupsFiles(crates, unparseable + 1, done + {f})
    ensures ParsedFile(f).Some? ==> GroupsFiles(Grouped(crates, ParsedFile(f).value), unparseable, done + {f})
  {
    UnparsedOneMore(done, f);
    forall name ensures Held(done + {f}, name) <==> Held(done, name) || HoldsCrate(f, name) {
      HeldByOneMore(done, f, name);
    }
    if ParsedFile(f).Some? {
      KeysGrow(crates, ParsedFile(f).value);
    }
  }

  lemma UnparsedOneMore(done: set<FileName>, f: FileName)
    requires f !in done
    ensures |Unparsed(done + {f})| == |Unparsed(done)| + if ParsedFile(f).None? then 1 else 0
  {
    assert Unparsed(done + {f}) == Unparsed(done) + if ParsedFile(f).None? then {f} else {};
  }

  lemma KeysGrow(crates: map<string, seq<string>>, parsed: (string, string))
    ensures Grouped(crates, parsed).Keys == crates.Keys + {parsed.0}
    ensures |Grouped(crates, parsed)| <= |crates| + 1
  {
    assert |Grouped(crates, parsed)| == |Grouped(crates, parsed).Keys| && |crates| == |crates.Keys|;
  }

  /** Groups files by crate; the files that hold none are counted. */
  method GroupByCrate(files: set<FileName>) returns (crates: map<string, seq<string>>, unparseable: nat)
    ensures GroupsFiles(crates, unparseable, files) && ListsVersions(crates, files)
  {
    crates, unparseable := map[], 0;
    var remaining := files;
    ghost var done: set<FileName> := {};
    assert Unparsed(done) == {};
    while remaining != {}
      invariant files == done + remaining && done !! remaining
      invariant GroupsFiles(crates, unparseable, done) && ListsVersions(crates, done)
      decreases remaining
    {
      var f :| f in remaining;
      remaining := remaining - {f};
      var parsed := ParseCrateFilename(f);
      GroupsOneMore(crates, unparseable, done, f);
      ListsOneMore(crates, done, f);
      match parsed {
        case Some(pair) => crates := Grouped(crates, pair);
        case None => unparseable := unparseable + 1;
      }
      done := done + {f};
    }
    assert done == files;
  }

  /** The queue has gained jobs for some of the crates and nothing else. */
  ghost predicate QueuedCrates(t: Table, t': Table, crates: set<string>, now: int) {
    && W.Extends(t, t')
    && forall k :: |t| <= k < |t'| ==>
         t'[k] == NewJob(t'[k].crateName, "crate", PRIORITY_CACHE_WATCH, now) && t'[k].crateName in crates
  }

  lemma QueuedFurther(t: Table, t': Table, t'': Table, crates: set<string>, now: int)
    requires QueuedCrates(t, t', crates, now) && QueuedCrates(t', t'', crates, now)
    ensures QueuedCrates(t, t'', crates, now)
  {
    forall k | |t| <= k < |t''|
      ensures t''[k] == NewJob(t''[k].crateName, "crate", PRIORITY_CACHE_WATCH, now) && t''[k].crateName in crates
    {
      assert k < |t'| ==> t''[k] == t'[k];
    }
  }

  method EnqueueCrate(jobs: RefreshJobs, name: string, now: int)
    requires QueueInv(jobs.rows)
    modifies jobs
    ensures QueueInv(jobs.rows) && QueuedCrates(old(jobs.rows), jobs.rows, {name}, now)
    ensures W.HasActive(jobs.rows, name, "crate") && |jobs.rows| <= |old(jobs.rows)| + 1
  {
    var id, isNew := jobs.EnqueueOrGet(name, "crate", PRIORITY_CACHE_WATCH, now);
  }

  method EnqueueCrates(jobs: RefreshJobs, crates: set<string>, now: int) returns (enqueued: nat)
    requires QueueInv(jobs.rows)
    modifies jobs
    ensures QueueInv(jobs.rows) && QueuedCrates(old(jobs.rows), jobs.rows, crates, now)
    ensures forall name :: name in crates ==> W.HasActive(jobs.rows, name, "crate")
    ensures enqueued == |crates| && |jobs.rows| <= |old(jobs.rows)| + enqueued
  {
    enqueued := 0;
    var remaining := crates;
    while remaining != {}
      invariant remaining <= crates && enqueued + |remaining| == |crates|
      invariant QueueInv(jobs.rows) && QueuedCrates(old(jobs.rows), jobs.rows, crates, now)
      invariant forall name :: name in crates && name !in remaining ==> W.HasActive(jobs.rows, name, "crate")
      invariant |jobs.rows| <= |old(jobs.rows)| + enqueued
      decreases remaining
    {
      var name :| name in remaining;
      ghost var before := jobs.rows;
      EnqueueCrate(jobs, name, now);
      QueuedFurther(old(jobs.rows), before, jobs.rows, crates, now);
      forall other | other in crates && other !in remaining ensures W.HasActive(jobs.rows, other, "crate") {
        W.ActiveStays(before, jobs.rows, other, "crate");
      }
      remaining := remaining - {name};
      enqueued := enqueued + 1;
    }
  }

  lemma GroupsAreTheCrates(crates: map<string, seq<string>>, unparseable: nat, files: set<FileName>)
    requires GroupsFiles(crates, unparseable, files)
    ensures crates.Keys == CratesIn(files) && |crates| == |crates.Keys|
  {
    forall name ensures name in crates <==> name in CratesIn(files) {
      assert name in crates <==> Held(files, name);
      if f :| f in files && HoldsCrate(f, name) {
        assert ParsedFile(f).value.0 == name;
      }
    }
  }

  /** One job for each crate among the files, and the counters to go with it. */
  method EnqueueNewFiles(jobs: RefreshJobs, files: set<FileName>, outcome: Outcome, now: int) returns (o: Outcome)
    requires QueueInv(jobs.rows)
    modifies jobs
    ensures QueueInv(jobs.rows) && QueuedFor(old(jobs.rows), jobs.rows, files, now) && AllQueued(jobs.rows, files)
    ensures o.newFiles == outcome.newFiles + |files| && o.unparseable == outcome.unparseable + |Unparsed(files)|
    ensures o.enqueued == outcome.enqueued + |CratesIn(files)|
    ensures |CratesIn(files)| <= |files| - |Unparsed(files)|
    ensures |jobs.rows| - |old(jobs.rows)| <= o.enqueued - outcome.enqueued
    ensures o.subdirsChecked == outcome.subdirsChecked
  {
    var crates, unparseable := GroupByCrate(files);
    GroupsAreTheCrates(crates, unparseable, files);
    var enqueued := EnqueueCrates(jobs, crates.Keys, now);
    forall f | f in files && ParsedFile(f).Some? ensures W.HasActive(jobs.rows, ParsedFile(f).value.0, "crate") {
      assert HoldsCrate(f, ParsedFile(f).value.0);
    }
    o := outcome.(newFiles := outcome.newFiles + |files|, unparseable := outcome.unparseable + unparseable,
                  enqueued := outcome.enqueued + enqueued);
  }

  lemma {:induction false} TaggedSize(p: Path, files: set<FileName>)
    ensures |Tagged(p, files)| == |files|
  {
    if files == {} {
      assert Tagged(p, files) == {};
    } else {
      var f :| f in files;
      TaggedSize(p, files - {f});
      assert Tagged(p, files) == Tagged(p, files - {f}) + {(p, f)};
    }
  }

  /** What one more directory adds to the files that have been handed over. */
  lemma HandMore(handed: set<(Path, FileName)>, p: Path, files: set<FileName>)
    requires forall x :: x in handed ==> x.0 != p
    ensures |handed + Tagged(p, files)| == |handed| + |files|
    ensures |UnparsedPairs(handed + Tagged(p, files))| == |UnparsedPairs(handed)| + |Unparsed(files)|
  {
    TaggedSize(p, files);
    TaggedSize(p, Unparsed(files));
    assert handed !! Tagged(p, files);
    var more := Tagged(p, Unparsed(files));
    assert UnparsedPairs(handed + Tagged(p, files)) == UnparsedPairs(handed) + more;
    assert UnparsedPairs(handed) !! more;
  }

  /** The counters agree with what has been handed over and with the new jobs. */
  ghost predicate Tallies(o: Outcome, handed: set<(Path, FileName)>, jobsBefore: nat, jobsNow: nat) {
    && o.newFiles == |handed| && o.unparseable == |UnparsedPairs(handed)|
    && o.enqueued <= o.newFiles - o.unparseable
    && jobsNow - jobsBefore <= o.enqueued
  }

  /** Every file handed over that holds a crate has an active job for that crate, and
      the queue has gained jobs for such crates only. */
  ghost predicate Served(t: Table, t': Table, handed: set<(Path, FileName)>, now: int) {
    && W.Extends(t, t')
    && (forall x :: x in handed && ParsedFile(x.1).Some? ==> W.HasActive(t', ParsedFile(x.1).value.0, "crate"))
    && (forall k :: |t| <= k < |t'| ==>
          && t'[k] == NewJob(t'[k].crateName, "crate", PRIORITY_CACHE_WATCH, now)
          && Handed(handed, t'[k].crateName))
  }

  ghost predicate Handed(handed: set<(Path, FileName)>, crateName: string) {
    exists x :: x in handed && HoldsCrate(x.1, crateName)
  }

  lemma ServeMore(t: Table, t': Table, t'': Table, handed: set<(Path, FileName)>, p: Path, files: set<FileName>, now: int)
    requires Served(t, t', handed, now) && QueuedFor(t', t'', files, now) && AllQueued(t'', files)
    ensures Served(t, t'', handed + Tagged(p, files), now)
  {
    var all := handed + Tagged(p, files);
    forall x | x in all && ParsedFile(x.1).Some? ensures W.HasActive(t'', ParsedFile(x.1).value.0, "crate") {
      if x in handed {
        W.ActiveStays(t', t'', ParsedFile(x.1).value.0, "crate");
      }
    }
    forall k | |t| <= k < |t''|
      ensures t''[k] == NewJob(t''[k].crateName, "crate", PRIORITY_CACHE_WATCH, now) && Handed(all, t''[k].crateName)
    {
      if k < |t'| {
        assert t''[k] == t'[k];
        var x :| x in handed && HoldsCrate(x.1, t'[k].crateName);
        assert x in all;
      } else {
        var f :| f in files && HoldsCrate(f, t''[k].crateName);
        assert (p, f) in all;
      }
    }
  }

  /** The index after the first pass of a poll. */
  function Discovered(index: Index, c: Cache): Index {
    map p | p in index.Keys + Revealed(c) ::
      if p in index then index[p] else if p in c.dirs then Snapshot(c.dirs[p]) else Known(EPOCH, {})
  }

  /** `handed` holds the new files of the given directories. */
  ghost predicate HandsOver(handed: set<(Path, FileName)>, index: Index, c: Cache, paths: set<Path>) {
    forall p, f :: (p, f) in handed <==> p in paths && p in c.dirs && f in CrateFiles(c.dirs[p]) - KnownFiles(index, p)
  }

  lemma HandsOverMore(handed: set<(Path, FileName)>, index: Index, c: Cache, paths: set<Path>, p: Path)
    requires HandsOver(handed, index, c, paths) && p in c.dirs
    ensures HandsOver(handed + Tagged(p, CrateFiles(c.dirs[p]) - KnownFiles(index, p)), index, c, paths + {p})
  {
  }

  lemma AllHandedOver(index: Index, c: Cache, handed: set<(Path, FileName)>)
    requires HandsOver(handed, index, c, Read(index, c))
    ensures handed == HandedOver(index, c)
  {
    forall x | x in handed ensures x in HandedOver(index, c) {
      assert (x.0, x.1) in handed;
    }
    forall x | x in HandedOver(index, c) ensures x in handed {
      assert (x.0, x.1) in handed;
    }
  }

  /** The first pass has still to look at `remaining` of the listing. */
  ghost predicate HalfDiscovered(before: Index, c: Cache, index: Index, remaining: set<Path>,
                                 handed: set<(Path, FileName)>)
  {
    && index.Keys == before.Keys + (Revealed(c) - remaining)
    && (forall p :: p in index ==> p in Discovered(before, c) && index[p] == Discovered(before, c)[p])
    && HandsOver(handed, before, c, Revealed(c) - remaining - before.Keys)
  }

  lemma DiscoveryBegins(before: Index, c: Cache)
    requires c.listing.Some?
    ensures HalfDiscovered(before, c, before, c.listing.value, {})
  {
    assert Revealed(c) - c.listing.value == {};
  }

  lemma DiscoveryGoesOn(before: Index, c: Cache, index: Index, remaining: set<Path>, handed: set<(Path, FileName)>, p: Path)
    requires c.listing.Some? && remaining <= c.listing.value
    requires HalfDiscovered(before, c, index, remaining, handed) && p in remaining
    ensures if p in c.dirs && p !in index then
              && (forall x :: x in handed ==> x.0 != p)
              && HalfDiscovered(before, c, index[p := Snapshot(c.dirs[p])], remaining - {p},
                                handed + Tagged(p, CrateFiles(c.dirs[p]) - KnownFiles(index, p)))
            else HalfDiscovered(before, c, index, remaining - {p}, handed)
  {
    var paths := Revealed(c) - remaining - before.Keys;
    var paths' := Revealed(c) - (remaining - {p}) - before.Keys;
    if p in c.dirs && p !in index {
      assert paths' == paths + {p} && KnownFiles(index, p) == KnownFiles(before, p);
      HandsOverMore(handed, before, c, paths, p);
      forall x | x in handed ensures x.0 != p {
        assert (x.0, x.1) in handed && p !in paths;
      }
    } else {
      assert paths' == paths;
    }
  }

  lemma DiscoveryEnds(before: Index, c: Cache, index: Index, handed: set<(Path, FileName)>)
    requires HalfDiscovered(before, c, index, {}, handed)
    ensures index == Discovered(before, c) && HandsOver(handed, before, c, Revealed(c) - before.Keys)
  {
    assert Revealed(c) - {} == Revealed(c);
  }

  /** What the second pass does about one directory. */
  lemma CheckOne(before: Index, c: Cache, p: Path)
    requires p in Discovered(before, c)
    ensures p in Polled(before, c)
    ensures p in c.dirs && c.dirs[p].mtime.Some? && c.dirs[p].mtime.value != Discovered(before, c)[p].mtime ==>
              p in before && p in Read(before, c) && Polled(before, c)[p] == Snapshot(c.dirs[p])
    ensures !(p in c.dirs && c.dirs[p].mtime.Some? && c.dirs[p].mtime.value != Discovered(before, c)[p].mtime) ==>
              Polled(before, c)[p] == Discovered(before, c)[p] && (p in before ==> p !in Read(before, c))
  {
  }

  /** The second pass has still to look at `remaining`. */
  ghost predicate HalfChecked(before: Index, c: Cache, index: Index, remaining: set<Path>, handed: set<(Path, FileName)>) {
    && index.Keys == Discovered(before, c).Keys
    && (forall p :: p in index ==> index[p] == if p in remaining then Discovered(before, c)[p] else Polled(before, c)[p])
    && HandsOver(handed, before, c, Read(before, c) - (remaining * before.Keys))
  }

  lemma PassBegins(before: Index, c: Cache, handed: set<(Path, FileName)>)
    requires HandsOver(handed, before, c, Revealed(c) - before.Keys)
    ensures HalfChecked(before, c, Discovered(before, c), Discovered(before, c).Keys, handed)
  {
    assert Read(before, c) - (Discovered(before, c).Keys * before.Keys) == Revealed(c) - before.Keys;
  }

  lemma PassGoesOn(before: Index, c: Cache, index: Index, remaining: set<Path>, handed: set<(Path, FileName)>, p: Path)
    requires HalfChecked(before, c, index, remaining, handed) && p in remaining && remaining <= index.Keys
    ensures var changed := p in c.dirs && c.dirs[p].mtime.Some? && c.dirs[p].mtime.value != index[p].mtime;
            if changed then
              && (forall x :: x in handed ==> x.0 != p)
              && HalfChecked(before, c, index[p := Snapshot(c.dirs[p])], remaining - {p},
                             handed + Tagged(p, CrateFiles(c.dirs[p]) - KnownFiles(index, p)))
            else HalfChecked(before, c, index, remaining - {p}, handed)
  {
    CheckOne(before, c, p);
    var paths := Read(before, c) - (remaining * before.Keys);
    var paths' := Read(before, c) - ((remaining - {p}) * before.Keys);
    if p in c.dirs && c.dirs[p].mtime.Some? && c.dirs[p].mtime.value != index[p].mtime {
      assert paths' == paths + {p} && KnownFiles(index, p) == KnownFiles(before, p);
      HandsOverMore(handed, before, c, paths, p);
      forall x | x in handed ensures x.0 != p {
        assert (x.0, x.1) in handed && p !in paths;
      }
    } else {
      assert paths' == paths;
    }
  }

  lemma PassEnds(before: Index, c: Cache, index: Index, handed: set<(Path, FileName)>)
    requires HalfChecked(before, c, index, {}, handed)
    ensures index == Polled(before, c) && HandsOver(handed, before, c, Read(before, c))
  {
    assert Read(before, c) - ({} * before.Keys) == Read(before, c);
    assert Discovered(before, c).Keys == Polled(before, c).Keys;
  }

  class Watcher {
    const jobs: RefreshJobs
    var index: Index

    /** Startup: the index is populated and nothing is enqueued. If the cache root
        cannot be read the index starts empty. */
    constructor (jobs: RefreshJobs, c: Cache)
      ensures this.jobs == jobs && index == InitialIndex(c)
    {
      this.jobs := jobs;
      index := map[];
      new;
      if c.listing.Some? {
        BuildInitialIndex(c);
      }
    }

    method BuildInitialIndex(c: Cache)
      requires c.listing.Some? && index == map[]
      modifies this`index
      ensures index == InitialIndex(c)
    {
      var remaining := c.listing.value;
      while remaining != {}
        invariant remaining <= c.listing.value
        invariant index.Keys == Revealed(c) - remaining
        invariant forall p :: p in index ==> index[p] == Snapshot(c.dirs[p])
        decreases remaining
      {
        var p :| p in remaining;
        remaining := remaining - {p};
        if p in c.dirs {
          index := index[p := Snapshot(c.dirs[p])];
        }
      }
    }

    /** Hands the new files of one directory over and records its snapshot. */
    method HandOver(c: Cache, p: Path, now: int, outcome: Outcome, ghost handed: set<(Path, FileName)>, ghost start: Table)
      returns (o: Outcome)
      requires p in c.dirs && QueueInv(jobs.rows)
      requires Served(start, jobs.rows, handed, now) && Tallies(outcome, handed, |start|, |jobs.rows|)
      requires forall x :: x in handed ==> x.0 != p
      modifies jobs, this`index
      ensures index == old(index)[p := Snapshot(c.dirs[p])]
      ensures var handed' := handed + Tagged(p, CrateFiles(c.dirs[p]) - KnownFiles(old(index), p));
              Served(start, jobs.rows, handed', now) && Tallies(o, handed', |start|, |jobs.rows|)
      ensures QueueInv(jobs.rows) && o.subdirsChecked == outcome.subdirsChecked
    {
      var snapshot := Snapshot(c.dirs[p]);
      var newFiles := snapshot.files - KnownFiles(index, p);
      ghost var before := jobs.rows;
      o := EnqueueNewFiles(jobs, newFiles, outcome, now);
      ServeMore(start, before, jobs.rows, handed, p, newFiles, now);
      HandMore(handed, p, newFiles);
      index := index[p := snapshot];
    }

    /** The first pass of a poll: directories not known before. */
    method DiscoverSubdirs(c: Cache, now: int) returns (o: Outcome, ghost handed: set<(Path, FileName)>)
      requires QueueInv(jobs.rows)
      modifies jobs, this`index
      ensures QueueInv(jobs.rows) && index == Discovered(old(index), c)
      ensures HandsOver(handed, old(index), c, Revealed(c) - old(index).Keys)
      ensures Served(old(jobs.rows), jobs.rows, handed, now)
      ensures Tallies(o, handed, |old(jobs.rows)|, |jobs.rows|) && o.subdirsChecked == 0
    {
      o := Outcome(0, 0, 0, 0);
      handed := {};
      assert UnparsedPairs(handed) == {};
      if c.listing.None? {
        assert Discovered(index, c) == index;
        return;
      }
      var remaining := c.listing.value;
      DiscoveryBegins(index, c);
      while remaining != {}
        invariant remaining <= c.listing.value && QueueInv(jobs.rows)
        invariant HalfDiscovered(old(index), c, index, remaining, handed)
        invariant Served(old(jobs.rows), jobs.rows, handed, now)
        invariant Tallies(o, handed, |old(jobs.rows)|, |jobs.rows|) && o.subdirsChecked == 0
        decreases remaining
      {
        var p :| p in remaining;
        DiscoveryGoesOn(old(index), c, index, remaining, handed, p);
        if p in c.dirs && p !in index {
          ghost var files := CrateFiles(c.dirs[p]) - KnownFiles(index, p);
          o := HandOver(c, p, now, o, handed, old(jobs.rows));
          handed := handed + Tagged(p, files);
        }
        remaining := remaining - {p};
      }
      DiscoveryEnds(old(index), c, index, handed);
    }

    /** The second pass: known directories whose modification time has changed. */
    method CheckSubdirs(c: Cache, now: int, ghost before: Index, outcome: Outcome, ghost already: set<(Path, FileName)>,
                        ghost start: Table)
      returns (o: Outcome, ghost handed: set<(Path, FileName)>)
      requires QueueInv(jobs.rows) && index == Discovered(before, c)
      requires HandsOver(already, before, c, Revealed(c) - before.Keys)
      requires Served(start, jobs.rows, already, now) && Tallies(outcome, already, |start|, |jobs.rows|)
      modifies jobs, this`index
      ensures QueueInv(jobs.rows) && index == Polled(before, c)
      ensures HandsOver(handed, before, c, Read(before, c))
      ensures Served(start, jobs.rows, handed, now) && Tallies(o, handed, |start|, |jobs.rows|)
      ensures o.subdirsChecked == outcome.subdirsChecked + |index.Keys|
    {
      o, handed := outcome, already;
      var remaining := index.Keys;
      PassBegins(before, c, handed);
      while remaining != {}
        invariant remaining <= index.Keys && QueueInv(jobs.rows)
        invariant HalfChecked(before, c, index, remaining, handed)
        invariant Served(start, jobs.rows, handed, now) && Tallies(o, handed, |start|, |jobs.rows|)
        invariant o.subdirsChecked + |remaining| == outcome.subdirsChecked + |index.Keys|
        decreases remaining
      {
        var p :| p in remaining;
        o := o.(subdirsChecked := o.subdirsChecked + 1);
        PassGoesOn(before, c, index, remaining, handed, p);
        if p in c.dirs && c.dirs[p].mtime.Some? && c.dirs[p].mtime.value != index[p].mtime {
          ghost var files := CrateFiles(c.dirs[p]) - KnownFiles(index, p);
          o := HandOver(c, p, now, o, handed, start);
          handed := handed + Tagged(p, files);
        }
        remaining := remaining - {p};
      }
      PassEnds(before, c, index, handed);
    }

    /** One poll: the index becomes that of the gated poll, and exactly the files that
        this finds new are handed over, counted and queued. */
    method Poll(c: Cache, now: int) returns (o: Outcome)
      requires QueueInv(jobs.rows)
      modifies jobs, this`index
      ensures QueueInv(jobs.rows) && index == Polled(old(index), c)
      ensures Served(old(jobs.rows), jobs.rows, HandedOver(old(index), c), now)
      ensures Tallies(o, HandedOver(old(index), c), |old(jobs.rows)|, |jobs.rows|)
      ensures o.subdirsChecked == |index.Keys|
    {
      ghost var before, start := index, jobs.rows;
      ghost var handed;
      o, handed := DiscoverSubdirs(c, now);
      o, handed := CheckSubdirs(c, now, before, o, handed, start);
      AllHandedOver(before, c, handed);
    }
  }
}
