# VSCodium Copilot installer: the compatibility core

The installer picks a GitHub Copilot Chat release that the local VSCodium
can run. This project models the part that decides that, and proves
properties of it:

- **which API proposals VSCodium implements**:
  - The runtime reader scans a standalone `extensionApiProposals.js`.
  - The bundle reader scans `workbench.desktop.main.js` bundles; it only
    believes a bundle that declares at least 20 names.
  - The resolver tries the standalone files first, then the bundles. When
    neither gives anything, it returns the empty set, which means
    "permissive".
- **the API gate**: an extension's `enabledApiProposals` (`chatHooks@6`) is
  normalised to base names (`chatHooks`) and checked against that set. An
  empty set accepts everything.
- **the engine check**: the extension's `engines.vscode` requirement has its
  range prefix (`^`, `>=`, `~`) stripped. The host version must be at least
  the requirement, compared as PEP 440 versions.

Modules:

- `wrappers.dfy`: `Option`.
- `gate.dfy` (`ApiGate`): normalisation and the gate. The gate is a loop,
  proved against the filter function `Unsupported`.
- `scanner.dfy` (`ProposalScanner`):
  - the declaration scan, written as a left-to-right matcher that behaves
    like the regular expression `["']?([a-zA-Z][a-zA-Z0-9_]*)["']?\s*:\s*\{\s*version\s*:\s*\d`
    under `findall`;
  - a reference syntax of written declarations (`Key`, `Written`) with
    soundness and completeness lemmas;
  - tables and whole files of declarations (`Entry`, `Table`,
    `ProposalsFile`). These cover the shapes of the test fixtures: pretty-printed
    with `proposal: '...'` fields, minified, quoted keys, and a single entry.
- `sources.dfy` (`ProposalSources`): the readers and the resolver. File
  contents are inputs: `None` is a missing or unreadable file. The bundle
  search and the resolver are loops, proved against `FirstSome` over the
  readings.
- `engine_version.dfy` (`EngineVersion`): the prefix stripping, a parser and
  an order for the versions involved, and the check itself.
- `install_check.dfy` (`InstallCheck`): the resolver and the gate together.

The post-release qualifier is compared, not ignored. `packaging` reads
`1.109.0-20260124` as the post-release `1.109.0.post20260124`, so a host at
exactly `1.109.0` does not satisfy `^1.109.0-20260124`, while `1.109.51242`
does (`PostReleaseRequirement`, `PatchAgainstPostRelease`).

The modelled behaviour comes from two files:

- `codium-copilot_Version13(1).py` gives the regular expression, the
  normaliser, the gate, the prefix stripping and the version comparison.
- `tests/test_api_detection.py` pins the newer behaviour of the readers and
  the resolver. Where the two disagree, the model follows the tests:
  - six noise words are discarded, not only `version`;
  - the bundle reader exists, with its threshold of 20;
  - the product configuration's allow-list is never used as a source.

## Model

| member | source | states |
|---|---|---|
| ApiGate.NormalizeApiProposal | tests/test_api_detection.py:361-369 | the base is a prefix of the proposal, holds no `@`, and ends exactly at the first `@` when there is one (code: codium-copilot_Version13(1).py lines 365-367) |
| ApiGate.NormalizeDropsRevision | tests/test_api_detection.py:361-369 | `base@revision` normalises to `base` for any `@`-free base and any revision, including one with further `@`s (`foo@1@2` to `foo`) |
| ApiGate.NormalizeWithoutRevision | tests/test_api_detection.py:364-365 | a name without `@` is left unchanged |
| ApiGate.NormalizeIdempotent | tests/test_api_detection.py:361-369 | normalising a base name again changes nothing (code: codium-copilot_Version13(1).py lines 365-367) |
| ApiGate.UnsupportedMembers | tests/test_api_detection.py:345-353 | the filter the gate applies to a non-empty supported set: a proposal is reported exactly when it is required and its base name is not supported; it is reported in its original spelling (code: codium-copilot_Version13(1).py lines 378-382) |
| ApiGate.UnsupportedAppend | tests/test_api_detection.py:345-353 | reports follow the order of the requirements: the report for a concatenation is the concatenation of the reports (code: codium-copilot_Version13(1).py lines 379-382) |
| ApiGate.UnsupportedEmpty | tests/test_api_detection.py:251-261 | nothing is reported exactly when every required base name is supported (code: codium-copilot_Version13(1).py lines 384) |
| ApiGate.RevisionsIgnored | tests/test_api_detection.py:336-343 | two requirement lists with the same base names get reports with the same base names, whatever the revisions |
| ApiGate.CheckApiCompatibility | tests/test_api_detection.py:248-353 | an empty supported set accepts everything and reports nothing; otherwise the report is the filter of the requirements whose base is unsupported; compatible exactly when the report is empty, that is, when the set is empty or every base name is in it (code: codium-copilot_Version13(1).py lines 370-387) |
| ApiGate.AnyRevisionAccepted | tests/test_api_detection.py:336-343 | with `chatHooks` supported, `chatHooks@N` passes for every revision `N` |
| ApiGate.MissingBaseReported | tests/test_api_detection.py:263-274 | with the base missing from a non-empty supported set (the gate then applies this filter), `chatHooks@6` is reported as `chatHooks@6` |
| ProposalScanner.MatchKey | tests/test_api_detection.py:164-181 | a match at the start of the text yields an identifier-shaped name and consumes at least one character (code: codium-copilot_Version13(1).py lines 275-278) |
| ProposalScanner.Scan | tests/test_api_detection.py:164-200 | every name the scan reports is a letter followed by letters, digits and underscores (code: codium-copilot_Version13(1).py lines 275-278) |
| ProposalScanner.ExtractNames | tests/test_api_detection.py:202-208 | the extracted set holds only identifier-shaped names and none of `version`, `exports`, `module`, `define`, `require`, `default` |
| ProposalScanner.MatchKeyRender | tests/test_api_detection.py:183-200 | every written declaration, quoted or bare, with any white space around `:`, `{`, `version`, `:`, is matched with its own name, and the scan resumes right after the version's first digit (code: codium-copilot_Version13(1).py lines 276) |
| ProposalScanner.MatchKeySound | tests/test_api_detection.py:164-200 | conversely, every match is a written declaration of the matched name, and the text after it is what the scan resumes with (code: codium-copilot_Version13(1).py lines 276) |
| ProposalScanner.ScanSound | tests/test_api_detection.py:202-208 | every name the scan reports is declared at some position of the text (code: codium-copilot_Version13(1).py lines 275-278) |
| ProposalScanner.ScanSkipsQuiet | tests/test_api_detection.py:219-225 | text in which every colon is followed, within the text and after any white space, by a character other than `{`, and which does not end inside a name or on a quote, adds no names in front of a following declaration (code: codium-copilot_Version13(1).py lines 275-278) |
| ProposalScanner.ScanTable | tests/test_api_detection.py:47-118 | a table of declarations with quiet tails (pretty-printed `proposal: '...'` fields or minified `,proposal:"..."}`) scans to exactly its names, in order |
| ProposalScanner.ScanFile | tests/test_api_detection.py:47-118 | the same for a whole file: a quiet preamble (`"use strict"; ... Object.freeze({`) followed by a table |
| ProposalScanner.ExtractFile | tests/test_api_detection.py:164-245 | a well-formed file yields exactly the names its table declares, noise words removed |
| ProposalSources.ReadProposals | tests/test_api_detection.py:210-217 | a missing file gives nothing; a file is accepted exactly when it has at least the required number of extracted names (20 for a bundle), and then reads as all of them (code: codium-copilot_Version13(1).py lines 272-286) |
| ProposalSources.GetRuntimeApiProposals | tests/test_api_detection.py:149-241 | the standalone reader never returns an empty set, only identifier-shaped non-noise names, returns the file's names whenever there is at least one, and returns nothing for a missing or nameless file (code: codium-copilot_Version13(1).py lines 264-286) |
| ProposalSources.FindProposalsInBundleFiles | tests/test_api_detection.py:571-608 | the bundle reader returns the first candidate (well-known paths, then install roots) that declares at least 20 names; nothing when there is none; a result has at least 20 names |
| ProposalSources.FirstSomeNone | tests/test_api_detection.py:594-597 | a search in order finds nothing exactly when no candidate is usable (code: codium-copilot_Version13(1).py lines 298-313) |
| ProposalSources.SupportedApiProposals | tests/test_api_detection.py:407-564 | the supported set only holds identifier-shaped non-noise names |
| ProposalSources.GetSupportedApiProposals | tests/test_api_detection.py:407-564 | the resolver returns the first usable standalone file's names, else the first bundle's, else the empty set (code: codium-copilot_Version13(1).py lines 298-313) |
| ProposalSources.StandaloneFileWins | tests/test_api_detection.py:414-427 | the first usable standalone file decides the result, whatever the bundles hold |
| ProposalSources.BundleFallback | tests/test_api_detection.py:429-448 | without a usable standalone file, the first bundle with enough names decides, and the result has at least 20 names |
| ProposalSources.PermissiveExactly | tests/test_api_detection.py:450-500 | the result is empty exactly when every standalone file is missing or nameless and every bundle is missing or under the threshold; no other source (such as the product configuration) is consulted |
| ProposalSources.SingleSource | tests/test_api_detection.py:414-448 | nothing is merged: a non-empty result is exactly the names of one standalone file or of one bundle (code: codium-copilot_Version13(1).py lines 298-313) |
| ProposalSources.ReadFile | tests/test_api_detection.py:164-245 | a reader given a well-formed file returns its declared names minus the noise words, if there are enough of them, and nothing otherwise |
| ProposalSources.SingleDeclaration | tests/test_api_detection.py:219-225 | a file with one declaration is accepted by the standalone reader and rejected by the bundle reader |
| ProposalSources.SmallBundleRejected | tests/test_api_detection.py:599-608 | a bundle declaring fewer than 20 names is never believed |
| ProposalSources.LargeBundleAccepted | tests/test_api_detection.py:572-592 | a bundle declaring at least 20 distinct non-noise names is believed in full |
| EngineVersion.ParseEngineRequirement | tests/test_api_detection.py:396-401 | the result is a suffix of the requirement; everything removed is a range character; the result does not start with one (code: codium-copilot_Version13(1).py lines 674-676) |
| EngineVersion.StripIgnoresPrefix | tests/test_api_detection.py:396-401 | any run of `^`, `>`, `=`, `~` in front is removed entirely (code: codium-copilot_Version13(1).py lines 674-676) |
| EngineVersion.StripIdempotent | tests/test_api_detection.py:396-401 | stripping twice is stripping once (code: codium-copilot_Version13(1).py lines 674-676) |
| EngineVersion.ParseFormattedVersion | tests/test_api_detection.py:376-401 | parsing a written version gives the version back (code: codium-copilot_Version13(1).py lines 682-683) |
| EngineVersion.ParsedVersionIsWritten | tests/test_api_detection.py:376-401 | conversely, a version the parser accepts from a text without leading zeros is that text written back: nothing but `N(.N)*` with an optional `-N` is read (code: codium-copilot_Version13(1).py lines 682-683) |
| EngineVersion.ParseVersionAccepts | tests/test_api_detection.py:376-401 | among texts without leading zeros, the parser accepts exactly the written versions (code: codium-copilot_Version13(1).py lines 682-683) |
| EngineVersion.ReleaseEqualIff | tests/test_api_detection.py:387-388 | two releases compare equal exactly when they agree at every position, padded with zeros (code: codium-copilot_Version13(1).py lines 684) |
| EngineVersion.ReleaseLessIff | tests/test_api_detection.py:381-391 | a release compares lower exactly when, at the first zero-padded position where the two differ, its number is the smaller (code: codium-copilot_Version13(1).py lines 684) |
| EngineVersion.ReleaseGreaterIff | tests/test_api_detection.py:390-391 | a release compares higher exactly when, at the first zero-padded position where the two differ, its number is the larger (code: codium-copilot_Version13(1).py lines 684) |
| EngineVersion.TrailingZeroIgnored | tests/test_api_detection.py:387-388 | `1.109` and `1.109.0` compare equal (code: codium-copilot_Version13(1).py lines 684) |
| EngineVersion.ComparePost | tests/test_api_detection.py:379-381 | post-release numbers compare as numbers, and having none sorts before having one (code: codium-copilot_Version13(1).py lines 684) |
| EngineVersion.VersionOrder | tests/test_api_detection.py:390-394 | the version comparison is reflexive, antisymmetric and transitive (code: codium-copilot_Version13(1).py lines 684) |
| EngineVersion.PostReleaseIsNewer | tests/test_api_detection.py:379-381 | a post-release sorts after its bare release (code: codium-copilot_Version13(1).py lines 684) |
| EngineVersion.IsVersionCompatible | tests/test_api_detection.py:376-401 | a host or requirement that does not parse makes the check false (code: codium-copilot_Version13(1).py lines 679-687) |
| EngineVersion.CompatibleIsAtLeast | tests/test_api_detection.py:376-401 | on written versions, behind any range prefix, the check holds exactly when the host is at least the requirement (code: codium-copilot_Version13(1).py lines 679-687) |
| EngineVersion.NewerHostStaysCompatible | tests/test_api_detection.py:390-394 | a newer host satisfies every requirement an older host satisfies (code: codium-copilot_Version13(1).py lines 679-687) |
| EngineVersion.RangeKindIgnored | tests/test_api_detection.py:396-401 | `^`, `~` and `>=` all mean "at least": the prefix does not change the answer |
| EngineVersion.ExactVersionMatches | tests/test_api_detection.py:387-388 | a version satisfies `^` followed by itself |
| EngineVersion.PostReleaseRequirement | tests/test_api_detection.py:379-381 | a bare release does not satisfy a requirement on a post-release of it (code: codium-copilot_Version13(1).py lines 682-685) |
| EngineVersion.PatchAgainstPostRelease | tests/test_api_detection.py:379-381 | `M.m.p` satisfies `^M.m.0-N` exactly when `p > 0` (`1.109.51242` against `^1.109.0-20260124`) |
| EngineVersion.MinorLineRequirement | tests/test_api_detection.py:383-401 | `M.h.p` satisfies `M.r.0` behind any range prefix exactly when `h >= r` (`1.109.51242` against `^1.110.0`, `1.100.0` and `1.200.0` against `^1.109.0`, `~` and `>=`) |
| InstallCheck.DeclaredRequirementsPass | tests/test_api_detection.py:276-323 | a standalone file that declares the base of every requirement lets the extension through, whatever the bundles hold |
| InstallCheck.UndeclaredRequirementReported | tests/test_api_detection.py:263-274 | a requirement whose base a detected standalone file does not declare is reported in its original spelling |
| InstallCheck.StandaloneSupported | tests/test_api_detection.py:502-522 | a standalone file with a declared non-noise name is the supported set |

## Left out

- The file system, the candidate path lists and directory walking: contents are parameters, one per candidate, in the order the paths are tried. `None` stands for a missing or unreadable file, or a read error.
- Decoding a file as UTF-8: text is a sequence of characters.
- The regular expression's `\d` also matches non-ASCII decimal digits; the model's digit is `0`-`9`. Its `\s` is modelled by the fixed list of white-space characters in `SpaceChars`.
- The product configuration fallback (`codium-copilot_Version13(1).py:315-362`) is not modelled. That source revision still reads it, but the newer behaviour has the resolver return the empty set instead (`tests/test_api_detection.py:467-500`).
- The source of the bundle reader `find_proposals_in_bundle_files` is not part of this model. Its behaviour is taken from its tests: candidates in order, first with at least 20 names.
- `ProposalSources.FindProposalsInBundleFiles`: the well-known bundle paths are assumed to come before the install-root bundles.
- `EngineVersion.ParseVersion`: only the forms that editor versions and engine requirements take are parsed: `N(.N)*` with an optional `-N` post-release (`ParseVersionAccepts`). Other PEP 440 forms are treated as invalid, so the check returns false on them: epochs, pre-releases, dev-releases, local versions, `.postN` spelling, surrounding white space, a leading `v`. Numbers with leading zeros are read by their value, as PEP 440 does; the converse lemmas are stated for texts without them.
- `EngineVersion.PatchAgainstPostRelease`, `EngineVersion.MinorLineRequirement`: the pinned cases are stated on written versions for all numbers, not on the literal strings.
- `ProposalScanner.ScanTable`, `ProposalScanner.ScanFile`: only texts whose non-declaration parts are quiet are covered. In a quiet text every colon is followed, inside the text and after any white space, by a character other than `{`; so a quiet text does not end on a colon or on a colon and white space. A quiet text also does not end inside a name or on a quote. Text that breaks this can still be scanned, but no lemma states what it yields.
- Printing, progress messages and sampling for display (`codium-copilot_Version13(1).py:301-311`) are left out.
- Exception handling and warnings: a parse failure is the `None` of the parser, and the check returns false.
- `EngineVersion.IsVersionCompatible`: assumes `packaging` 22 or later, where `version.parse` raises on a text that is not a PEP 440 version. Older releases return a legacy version instead, and then a requirement such as `*` can be satisfied.
- The dynamic search for the standalone proposals file (`find_runtime_proposals_file_dynamically`, imported at `tests/test_api_detection.py:34`) is not modelled. Any file it finds is assumed to be among the standalone candidates given to the resolver.
- The version selector, the marketplace queries, VSIX download and extraction, and installation are outside the compatibility core and are not modelled.
