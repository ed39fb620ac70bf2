/**
 The resolver and the gate together: what an extension's proposal list
 meets when the editor's proposals come from a standalone proposals file.
 */
module InstallCheck {
  import opened Wrappers
  import opened ProposalScanner
  import opened ProposalSources
  import opened ApiGate

  /**
   A standalone proposals file that declares the base name of every
   requirement lets the extension through, whatever the bundles hold.
   */
  lemma DeclaredRequirementsPass(required: seq<string>, f: ProposalsFile, bundleFiles: seq<Option<string>>)
    requires WellFormedFile(f)
    requires forall i :: 0 <= i < |required| ==> NormalizeApiProposal(required[i]) in EntryNames(f.entries) - NoiseWords
    ensures Unsupported(required, SupportedApiProposals([Some(FileText(f))], bundleFiles)) == []
  {
    if required != [] {
      var names := EntryNames(f.entries) - NoiseWords;
      assert NormalizeApiProposal(required[0]) in names;
      StandaloneSupported(f, bundleFiles);
      UnsupportedEmpty(required, names);
    }
  }

  /**
   A requirement whose base name a detected standalone file does not
   declare is reported, in its original spelling.
   */
  lemma UndeclaredRequirementReported(required: seq<string>, f: ProposalsFile, bundleFiles: seq<Option<string>>, i: nat)
    requires WellFormedFile(f)
    requires EntryNames(f.entries) - NoiseWords != {}
    requires i < |required| && NormalizeApiProposal(required[i]) !in EntryNames(f.entries)
    ensures required[i] in Unsupported(required, SupportedApiProposals([Some(FileText(f))], bundleFiles))
  {
    var names := EntryNames(f.entries) - NoiseWords;
    StandaloneSupported(f, bundleFiles);
    UnsupportedMembers(required, names, required[i]);
  }

  /** A standalone file that declares some non-noise name decides the supported set, whatever the bundles hold. */
  lemma StandaloneSupported(f: ProposalsFile, bundleFiles: seq<Option<string>>)
    requires WellFormedFile(f) && EntryNames(f.entries) - NoiseWords != {}
    ensures SupportedApiProposals([Some(FileText(f))], bundleFiles) == EntryNames(f.entries) - NoiseWords
  {
    ReadFile(f, 1);
    StandaloneFileWins([Some(FileText(f))], bundleFiles, 0);
  }
}
