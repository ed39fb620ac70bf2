/**
 Proposal names and the compatibility gate between an extension's declared
 API proposals (`enabledApiProposals`, entries such as `chatHooks@6`) and the
 set of proposals the running editor implements.
 */
module ApiGate {

  /** The base name of a proposal: everything before the first `@`. */
  function NormalizeApiProposal(proposal: string): (base: string)
    ensures base <= proposal
    ensures '@' !in base
    ensures |base| < |proposal| ==> proposal[|base|] == '@'
  {
    if proposal == [] || proposal[0] == '@' then []
    else [proposal[0]] + NormalizeApiProposal(proposal[1..])
  }

  /** A proposal without any `@` is its own base name. */
  lemma NormalizeWithoutRevision(proposal: string)
    requires '@' !in proposal
    ensures NormalizeApiProposal(proposal) == proposal
  {
  }

  /** Whatever follows the first `@` is ignored: `chatHooks@6`, `chatHooks@999` and `foo@1@2` all lose their tail. */
  lemma {:induction false} NormalizeDropsRevision(base: string, revision: string)
    requires '@' !in base
    ensures NormalizeApiProposal(base + "@" + revision) == base
  {
    var p := base + "@" + revision;
    assert p[..|base|] == base && p[|base|] == '@';
  }

  /** Normalising twice is normalising once. */
  lemma NormalizeIdempotent(proposal: string)
    ensures NormalizeApiProposal(NormalizeApiProposal(proposal)) == NormalizeApiProposal(proposal)
  {
    NormalizeWithoutRevision(NormalizeApiProposal(proposal));
  }

  /** The requirements, in their original spelling and order, whose base name is not supported. */
  function Unsupported(required: seq<string>, supported: set<string>): seq<string>
  {
    if required == [] then []
    else if NormalizeApiProposal(required[0]) in supported then Unsupported(required[1..], supported)
    else [required[0]] + Unsupported(required[1..], supported)
  }

  /** A requirement is reported exactly when it is one of the inputs and its base name is missing. */
  lemma {:induction false} UnsupportedMembers(required: seq<string>, supported: set<string>, p: string)
    ensures p in Unsupported(required, supported) <==> p in required && NormalizeApiProposal(p) !in supported
  {
    if required != [] {
      UnsupportedMembers(required[1..], supported, p);
      assert required == [required[0]] + required[1..];
    }
  }

  /** The unsupported list keeps the input order: filtering a concatenation concatenates the filtered parts. */
  lemma {:induction false} UnsupportedAppend(a: seq<string>, b: seq<string>, supported: set<string>)
    ensures Unsupported(a + b, supported) == Unsupported(a, supported) + Unsupported(b, supported)
  {
    if a != [] {
      assert (a + b)[1..] == a[1..] + b;
      UnsupportedAppend(a[1..], b, supported);
    } else {
      assert a + b == b;
    }
  }

  /** Nothing is unsupported exactly when every base name is in the supported set. */
  lemma {:induction false} UnsupportedEmpty(required: seq<string>, supported: set<string>)
    ensures Unsupported(required, supported) == []
            <==> forall i :: 0 <= i < |required| ==> NormalizeApiProposal(required[i]) in supported
  {
    if required != [] {
      UnsupportedEmpty(required[1..], supported);
      assert forall i :: 1 <= i < |required| ==> required[i] == required[1..][i - 1];
    }
  }

  /** The base names of a list of proposals. */
  function BaseNames(required: seq<string>): (names: seq<string>)
    ensures |names| == |required|
    ensures forall i :: 0 <= i < |required| ==> names[i] == NormalizeApiProposal(required[i])
  {
    if required == [] then [] else [NormalizeApiProposal(required[0])] + BaseNames(required[1..])
  }

  /**
   Revisions never matter: two requirement lists that name the same base
   names position by position are reported the same way, base name by base name.
   */
  lemma {:induction false} RevisionsIgnored(a: seq<string>, b: seq<string>, supported: set<string>)
    requires BaseNames(a) == BaseNames(b)
    ensures BaseNames(Unsupported(a, supported)) == BaseNames(Unsupported(b, supported))
  {
    if a != [] {
      assert |b| == |a|;
      assert NormalizeApiProposal(a[0]) == BaseNames(a)[0] == BaseNames(b)[0] == NormalizeApiProposal(b[0]);
      assert BaseNames(a[1..]) == BaseNames(a)[1..];
      assert BaseNames(b[1..]) == BaseNames(b)[1..];
      RevisionsIgnored(a[1..], b[1..], supported);
    }
  }

  /**
   The gate. An empty supported set means the runtime could not be inspected:
   everything is accepted. Otherwise every requirement whose base name is
   missing is collected, and the extension is compatible when none is.
   */
  method CheckApiCompatibility(required: seq<string>, supported: set<string>)
    returns (isCompatible: bool, unsupported: seq<string>)
    ensures supported == {} ==> isCompatible && unsupported == []
    ensures supported != {} ==> unsupported == Unsupported(required, supported)
    ensures isCompatible <==> unsupported == []
    ensures isCompatible <==> supported == {}
                              || forall i :: 0 <= i < |required| ==> NormalizeApiProposal(required[i]) in supported
  {
    if supported == {} {
      return true, [];
    }
    unsupported := [];
    for i := 0 to |required|
      invariant unsupported == Unsupported(required[..i], supported)
    {
      assert required[..i + 1] == required[..i] + [required[i]];
      UnsupportedAppend(required[..i], [required[i]], supported);
      if NormalizeApiProposal(required[i]) !in supported {
        unsupported := unsupported + [required[i]];
      }
    }
    assert required[..|required|] == required;
    UnsupportedEmpty(required, supported);
    isCompatible := |unsupported| == 0;
  }

  /** With a supported base name, any revision of it passes the gate and nothing is reported. */
  lemma AnyRevisionAccepted(base: string, revision: string, supported: set<string>)
    requires '@' !in base && base in supported
    ensures Unsupported([base + "@" + revision], supported) == []
  {
    NormalizeDropsRevision(base, revision);
  }

  /** With a missing base name, the requirement is reported with its revision still attached. */
  lemma MissingBaseReported(base: string, revision: string, supported: set<string>)
    requires '@' !in base && base !in supported
    ensures Unsupported([base + "@" + revision], supported) == [base + "@" + revision]
  {
    NormalizeDropsRevision(base, revision);
  }
}
