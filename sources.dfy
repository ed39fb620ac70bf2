/**
 Where the editor's implemented API proposals are read from, and in which
 order. File contents are inputs: `None` stands for a file that is missing
 or cannot be read, `Some(text)` for its text. The well-known path lists are
 parameters, one content per path, in the order the paths are tried.
 */
module ProposalSources {
  import opened Wrappers
  import opened ProposalScanner

  /** A bundle must declare at least this many names to be believed: fewer look like accidental matches in unrelated code. */
  const NoiseThreshold: nat := 20

  /** The names a candidate file declares, when it exists and declares at least `minNames` of them. */
  function ReadProposals(content: Option<string>, minNames: nat): (found: Option<set<string>>)
    ensures content.None? ==> found.None?
    ensures found.Some? ==> |found.value| >= minNames && found.value == ExtractNames(content.value)
    ensures content.Some? && |ExtractNames(content.value)| >= minNames ==> found == Some(ExtractNames(content.value))
  {
    match content
    case None => None
    case Some(text) =>
      var names := ExtractNames(text);
      if |names| >= minNames then Some(names) else None
  }

  /** The standalone proposals file reader: any non-empty set of names is accepted. */
  function GetRuntimeApiProposals(content: Option<string>): (found: Option<set<string>>)
    ensures found.Some? ==> found.value != {}
    ensures found.Some? ==> forall n :: n in found.value ==> IsName(n) && n !in NoiseWords
    ensures content.Some? && ExtractNames(content.value) != {} ==> found == Some(ExtractNames(content.value))
    ensures content.None? || ExtractNames(content.value) == {} ==> found.None?
  {
    ReadProposals(content, 1)
  }

  /** The reading of each candidate, in order. */
  function ReadAll(files: seq<Option<string>>, minNames: nat): (readings: seq<Option<set<string>>>)
    ensures |readings| == |files|
  {
    seq(|files|, i requires 0 <= i < |files| => ReadProposals(files[i], minNames))
  }

  /** The first usable reading, in order. */
  function FirstSome(readings: seq<Option<set<string>>>): (found: Option<set<string>>)
    ensures found.Some? ==> found in readings
  {
    if readings == [] then None
    else if readings[0].Some? then readings[0]
    else FirstSome(readings[1..])
  }

  /** What `FirstSome` returns is the reading at some index, and every reading before it is unusable. */
  lemma {:induction false} FirstSomeSource(readings: seq<Option<set<string>>>) returns (i: nat)
    requires FirstSome(readings).Some?
    ensures i < |readings| && readings[i] == FirstSome(readings)
    ensures forall j :: 0 <= j < i ==> readings[j].None?
  {
    if readings[0].None? {
      var k := FirstSomeSource(readings[1..]);
      i := k + 1;
      assert forall j :: 0 < j <= i ==> readings[j] == readings[1..][j - 1];
    } else {
      i := 0;
    }
  }

  /** The first usable reading is the one `FirstSome` returns. */
  lemma {:induction false} FirstSomePicks(readings: seq<Option<set<string>>>, i: nat)
    requires i < |readings| && readings[i].Some?
    requires forall j :: 0 <= j < i ==> readings[j].None?
    ensures FirstSome(readings) == readings[i]
  {
    if i > 0 {
      assert forall j :: 0 <= j < i ==> readings[1..][j] == readings[j + 1];
      FirstSomePicks(readings[1..], i - 1);
    }
  }

  /** `FirstSome` finds nothing exactly when no reading is usable. */
  lemma {:induction false} FirstSomeNone(readings: seq<Option<set<string>>>)
    ensures FirstSome(readings).None? <==> forall i :: 0 <= i < |readings| ==> readings[i].None?
  {
    if readings != [] {
      FirstSomeNone(readings[1..]);
      assert forall i :: 1 <= i < |readings| ==> readings[i] == readings[1..][i - 1];
    }
  }

  /**
   The bundle reader: the candidates are the well-known bundle paths, then
   the bundle under each given install root
   (`out/vs/workbench/workbench.desktop.main.js`); the first that declares
   at least `NoiseThreshold` names wins.
   */
  method FindProposalsInBundleFiles(bundlePaths: seq<Option<string>>, installRootBundles: seq<Option<string>>)
    returns (found: Option<set<string>>)
    ensures found == FirstSome(ReadAll(bundlePaths + installRootBundles, NoiseThreshold))
    ensures found.Some? ==> |found.value| >= NoiseThreshold
  {
    var candidates := bundlePaths + installRootBundles;
    ghost var readings := ReadAll(candidates, NoiseThreshold);
    for i := 0 to |candidates|
      invariant FirstSome(readings[i..]) == FirstSome(readings)
    {
      assert readings[i..][1..] == readings[i + 1..];
      var names := ReadProposals(candidates[i], NoiseThreshold);
      assert names == readings[i..][0];
      if names.Some? {
        return names;
      }
    }
    return None;
  }

  /** The supported set: the standalone file, else the bundle, else empty (permissive). */
  function SupportedApiProposals(runtimeFiles: seq<Option<string>>, bundleFiles: seq<Option<string>>): (supported: set<string>)
    ensures forall n :: n in supported ==> IsName(n) && n !in NoiseWords
  {
    match FirstSome(ReadAll(runtimeFiles, 1))
    case Some(names) => names
    case None =>
      match FirstSome(ReadAll(bundleFiles, NoiseThreshold))
      case Some(names) => names
      case None => {}
  }

  /**
   The resolver: each well-known proposals file in turn, then the bundles.
   Nothing is merged across sources; the product configuration's allow-list
   is never a source.
   */
  method GetSupportedApiProposals(runtimeFiles: seq<Option<string>>, bundleFiles: seq<Option<string>>)
    returns (supported: set<string>)
    ensures supported == SupportedApiProposals(runtimeFiles, bundleFiles)
  {
    ghost var readings := ReadAll(runtimeFiles, 1);
    for i := 0 to |runtimeFiles|
      invariant FirstSome(readings[i..]) == FirstSome(readings)
    {
      assert readings[i..][1..] == readings[i + 1..];
      var names := GetRuntimeApiProposals(runtimeFiles[i]);
      assert names == readings[i..][0];
      if names.Some? {
        return names.value;
      }
    }
    var fromBundle := FindProposalsInBundleFiles(bundleFiles, []);
    assert bundleFiles + [] == bundleFiles;
    if fromBundle.Some? {
      return fromBundle.value;
    }
    return {};
  }

  /** A usable standalone file decides the result, whatever the bundles hold. */
  lemma StandaloneFileWins(runtimeFiles: seq<Option<string>>, bundleFiles: seq<Option<string>>, i: nat)
    requires i < |runtimeFiles| && GetRuntimeApiProposals(runtimeFiles[i]).Some?
    requires forall j :: 0 <= j < i ==> GetRuntimeApiProposals(runtimeFiles[j]).None?
    ensures SupportedApiProposals(runtimeFiles, bundleFiles) == ExtractNames(runtimeFiles[i].value)
  {
    FirstSomePicks(ReadAll(runtimeFiles, 1), i);
  }

  /** Without a usable standalone file, the first bundle with enough names decides, and it has at least the threshold. */
  lemma BundleFallback(runtimeFiles: seq<Option<string>>, bundleFiles: seq<Option<string>>, i: nat)
    requires forall j :: 0 <= j < |runtimeFiles| ==> GetRuntimeApiProposals(runtimeFiles[j]).None?
    requires i < |bundleFiles| && ReadProposals(bundleFiles[i], NoiseThreshold).Some?
    requires forall j :: 0 <= j < i ==> ReadProposals(bundleFiles[j], NoiseThreshold).None?
    ensures SupportedApiProposals(runtimeFiles, bundleFiles) == ExtractNames(bundleFiles[i].value)
    ensures |SupportedApiProposals(runtimeFiles, bundleFiles)| >= NoiseThreshold
  {
    FirstSomeNone(ReadAll(runtimeFiles, 1));
    FirstSomePicks(ReadAll(bundleFiles, NoiseThreshold), i);
  }

  /**
   The result is empty (permissive mode) exactly when no source is usable:
   every standalone file missing or without names, every bundle missing or
   under the threshold.
   */
  lemma PermissiveExactly(runtimeFiles: seq<Option<string>>, bundleFiles: seq<Option<string>>)
    ensures SupportedApiProposals(runtimeFiles, bundleFiles) == {}
            <==> (forall j :: 0 <= j < |runtimeFiles| ==> GetRuntimeApiProposals(runtimeFiles[j]).None?)
                 && (forall j :: 0 <= j < |bundleFiles| ==> ReadProposals(bundleFiles[j], NoiseThreshold).None?)
  {
    NoneFound(runtimeFiles, 1);
    NoneFound(bundleFiles, NoiseThreshold);
    if FirstSome(ReadAll(runtimeFiles, 1)).Some? {
      FoundNonEmpty(runtimeFiles, 1);
    } else if FirstSome(ReadAll(bundleFiles, NoiseThreshold)).Some? {
      FoundNonEmpty(bundleFiles, NoiseThreshold);
    }
  }

  /** A search over files finds nothing exactly when every file reads as unusable. */
  lemma NoneFound(files: seq<Option<string>>, minNames: nat)
    ensures FirstSome(ReadAll(files, minNames)).None? <==> forall j :: 0 <= j < |files| ==> ReadProposals(files[j], minNames).None?
  {
    var readings := ReadAll(files, minNames);
    FirstSomeNone(readings);
    assert forall j :: 0 <= j < |files| ==> readings[j] == ReadProposals(files[j], minNames);
  }

  /** A search over files that finds something finds at least `minNames` names. */
  lemma FoundNonEmpty(files: seq<Option<string>>, minNames: nat)
    requires minNames >= 1 && FirstSome(ReadAll(files, minNames)).Some?
    ensures |FirstSome(ReadAll(files, minNames)).value| >= minNames
    ensures FirstSome(ReadAll(files, minNames)).value != {}
  {
    var i := FirstSomeSource(ReadAll(files, minNames));
    assert ReadAll(files, minNames)[i] == ReadProposals(files[i], minNames);
  }

  /** Nothing is merged: a non-empty result is exactly the names of one standalone file or of one bundle. */
  lemma SingleSource(runtimeFiles: seq<Option<string>>, bundleFiles: seq<Option<string>>)
    ensures var supported := SupportedApiProposals(runtimeFiles, bundleFiles);
            || supported == {}
            || (exists i :: 0 <= i < |runtimeFiles| && runtimeFiles[i].Some? && supported == ExtractNames(runtimeFiles[i].value))
            || (exists i :: 0 <= i < |bundleFiles| && bundleFiles[i].Some? && supported == ExtractNames(bundleFiles[i].value))
  {
    match FirstSome(ReadAll(runtimeFiles, 1))
    case Some(names) =>
      var i := FirstSomeSource(ReadAll(runtimeFiles, 1));
    case None =>
      match FirstSome(ReadAll(bundleFiles, NoiseThreshold))
      case Some(names) =>
        var i := FirstSomeSource(ReadAll(bundleFiles, NoiseThreshold));
      case None =>
  }

  /** The names declared by a table of entries. */
  function EntryNames(entries: seq<Entry>): (names: set<string>)
    ensures |names| <= |entries|
    ensures forall i :: 0 <= i < |entries| ==> entries[i].key.name in names
  {
    if entries == [] then {} else {entries[0].key.name} + EntryNames(entries[1..])
  }

  /** `EntryNames` is exactly the set of the entries' names. */
  lemma {:induction false} EntryNamesAre(entries: seq<Entry>)
    ensures EntryNames(entries) == set i | 0 <= i < |entries| :: entries[i].key.name
  {
    if entries != [] {
      EntryNamesAre(entries[1..]);
      assert forall i :: 1 <= i < |entries| ==> entries[i] == entries[1..][i - 1];
      assert forall i :: 0 <= i < |entries| - 1 ==> entries[1..][i] == entries[i + 1];
    }
  }

  /** Entries with pairwise distinct names declare as many names as there are entries. */
  lemma {:induction false} DistinctEntryNames(entries: seq<Entry>)
    requires forall i, j :: 0 <= i < j < |entries| ==> entries[i].key.name != entries[j].key.name
    ensures |EntryNames(entries)| == |entries|
  {
    if entries != [] {
      DistinctEntryNames(entries[1..]);
      EntryNamesAre(entries[1..]);
      assert entries[0].key.name !in EntryNames(entries[1..]);
    }
  }

  /** What a reader makes of a well-formed file: its declared names minus the noise words, if there are enough of them. */
  lemma ReadFile(f: ProposalsFile, minNames: nat)
    requires WellFormedFile(f)
    ensures var names := EntryNames(f.entries) - NoiseWords;
            ReadProposals(Some(FileText(f)), minNames) == if |names| >= minNames then Some(names) else None
  {
    ExtractFile(f);
    EntryNamesAre(f.entries);
  }

  /** A file holding one declaration is accepted by the standalone-file reader, and rejected by the bundle reader as too few names. */
  lemma SingleDeclaration(f: ProposalsFile)
    requires WellFormedFile(f) && |f.entries| == 1 && f.entries[0].key.name !in NoiseWords
    ensures GetRuntimeApiProposals(Some(FileText(f))) == Some({f.entries[0].key.name})
    ensures ReadProposals(Some(FileText(f)), NoiseThreshold).None?
  {
    ReadFile(f, 1);
    ReadFile(f, NoiseThreshold);
    assert f.entries[1..] == [];
    assert EntryNames(f.entries) - NoiseWords == {f.entries[0].key.name};
  }

  /** A bundle declaring fewer names than the threshold is never believed. */
  lemma SmallBundleRejected(f: ProposalsFile)
    requires WellFormedFile(f) && |f.entries| < NoiseThreshold
    ensures ReadProposals(Some(FileText(f)), NoiseThreshold).None?
  {
    ReadFile(f, NoiseThreshold);
    SubsetSmaller(EntryNames(f.entries) - NoiseWords, EntryNames(f.entries));
  }

  /** A bundle declaring at least the threshold of distinct, non-noise names is believed in full. */
  lemma LargeBundleAccepted(f: ProposalsFile)
    requires WellFormedFile(f) && |f.entries| >= NoiseThreshold
    requires forall i :: 0 <= i < |f.entries| ==> f.entries[i].key.name !in NoiseWords
    requires forall i, j :: 0 <= i < j < |f.entries| ==> f.entries[i].key.name != f.entries[j].key.name
    ensures ReadProposals(Some(FileText(f)), NoiseThreshold) == Some(EntryNames(f.entries))
  {
    ReadFile(f, NoiseThreshold);
    CleanEntryNames(f.entries);
  }

  /** Distinct names none of which is a noise word all survive the noise filter. */
  lemma CleanEntryNames(entries: seq<Entry>)
    requires forall i :: 0 <= i < |entries| ==> entries[i].key.name !in NoiseWords
    requires forall i, j :: 0 <= i < j < |entries| ==> entries[i].key.name != entries[j].key.name
    ensures EntryNames(entries) - NoiseWords == EntryNames(entries)
    ensures |EntryNames(entries)| == |entries|
  {
    DistinctEntryNames(entries);
    NoNoiseNames(entries);
    DisjointDifference(EntryNames(entries), NoiseWords);
  }

  /** Removing a disjoint set removes nothing. */
  lemma DisjointDifference(a: set<string>, b: set<string>)
    requires a !! b
    ensures a - b == a
  {
  }

  /** Entries none of whose names is a noise word declare no noise word. */
  lemma {:induction false} NoNoiseNames(entries: seq<Entry>)
    requires forall i :: 0 <= i < |entries| ==> entries[i].key.name !in NoiseWords
    ensures EntryNames(entries) !! NoiseWords
  {
    if entries != [] {
      assert forall i :: 0 <= i < |entries| - 1 ==> entries[1..][i] == entries[i + 1];
      NoNoiseNames(entries[1..]);
    }
  }

  /** A subset is no larger than its superset. */
  lemma {:induction false} SubsetSmaller(a: set<string>, b: set<string>)
    requires a <= b
    ensures |a| <= |b|
    decreases |b|
  {
    if a != {} {
      var x :| x in a;
      SubsetSmaller(a - {x}, b - {x});
    }
  }
}
