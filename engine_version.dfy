/**
 The editor version check: does the host editor's version satisfy an
 extension's `engines.vscode` requirement? The requirement's range prefix
 (`^`, `>=`, `~`) is stripped and both sides are compared as PEP 440
 versions; a side that does not parse makes the check fail.

 Only the forms editor versions and engine requirements take are parsed:
 a release `N(.N)*` and an optional post-release written `-N`.
 */
module EngineVersion {
  import opened Wrappers
  import ProposalScanner

  /** The characters stripped from the front of a requirement, in any number and order. */
  const RangePrefixChars: seq<char> := ['^', '>', '=', '~']

  /** The requirement with its leading range characters removed. */
  function ParseEngineRequirement(engine: string): (stripped: string)
    ensures |stripped| <= |engine| && stripped == engine[|engine| - |stripped|..]
    ensures forall i :: 0 <= i < |engine| - |stripped| ==> engine[i] in RangePrefixChars
    ensures stripped == [] || stripped[0] !in RangePrefixChars
  {
    if engine != [] && engine[0] in RangePrefixChars then
      var stripped := ParseEngineRequirement(engine[1..]);
      assert engine[1..][|engine| - 1 - |stripped|..] == engine[|engine| - |stripped|..];
      assert forall i :: 1 <= i < |engine| - |stripped| ==> engine[i] == engine[1..][i - 1];
      stripped
    else engine
  }

  /** Extra range characters in front change nothing. */
  lemma {:induction false} StripIgnoresPrefix(prefix: string, engine: string)
    requires forall i :: 0 <= i < |prefix| ==> prefix[i] in RangePrefixChars
    ensures ParseEngineRequirement(prefix + engine) == ParseEngineRequirement(engine)
  {
    if prefix != [] {
      var whole := prefix + engine;
      assert whole[0] == prefix[0] && whole[0] in RangePrefixChars;
      assert whole[1..] == prefix[1..] + engine;
      StripIgnoresPrefix(prefix[1..], engine);
    } else {
      assert prefix + engine == engine;
    }
  }

  /** Stripping twice is stripping once. */
  lemma StripIdempotent(engine: string)
    ensures ParseEngineRequirement(ParseEngineRequirement(engine)) == ParseEngineRequirement(engine)
  {
  }

  /** A version: its release numbers and, when present, its post-release number. */
  datatype Version = Version(release: seq<nat>, post: Option<nat>)

  /** The length of the run of decimal digits at the front of `s`. */
  function DigitRun(s: string): (n: nat)
    ensures n <= |s|
    ensures forall i :: 0 <= i < n ==> ProposalScanner.IsDigit(s[i])
    ensures n == |s| || !ProposalScanner.IsDigit(s[n])
  {
    if s != [] && ProposalScanner.IsDigit(s[0]) then 1 + DigitRun(s[1..]) else 0
  }

  /** The value of a string of decimal digits; leading zeros are allowed. */
  function DigitsValue(digits: string): nat
    requires forall i :: 0 <= i < |digits| ==> ProposalScanner.IsDigit(digits[i])
  {
    if digits == [] then 0
    else DigitsValue(digits[..|digits| - 1]) * 10 + DigitValue(digits[|digits| - 1])
  }

  /** The value of one decimal digit. */
  function DigitValue(c: char): (d: nat)
    requires ProposalScanner.IsDigit(c)
    ensures d < 10
  {
    c as int - '0' as int
  }

  /** A parsed release and the text after it. */
  datatype ReleaseParse = ReleaseParse(numbers: seq<nat>, rest: string)

  /** Parses `N(.N)*` at the front of `s`: as many dot-separated numbers as follow, each a non-empty digit run. */
  function ParseRelease(s: string): (r: Option<ReleaseParse>)
    ensures r.Some? ==> r.value.numbers != [] && |r.value.rest| < |s|
    ensures r.Some? ==> s != [] && ProposalScanner.IsDigit(s[0])
    ensures r.Some? ==> r.value.rest == [] || r.value.rest[0] != '.'
  {
    var n := DigitRun(s);
    if n == 0 then None
    else
      var value := DigitsValue(s[..n]);
      var rest := s[n..];
      if rest != [] && rest[0] == '.' then
        match ParseRelease(rest[1..])
        case None => None
        case Some(more) => Some(ReleaseParse([value] + more.numbers, more.rest))
      else Some(ReleaseParse([value], rest))
  }

  /** Parses a whole version string; anything but a release with an optional `-N` post-release is invalid. */
  function ParseVersion(s: string): (v: Option<Version>)
    ensures v.Some? ==> v.value.release != []
    ensures v.Some? ==> s != [] && ProposalScanner.IsDigit(s[0])
  {
    match ParseRelease(s)
    case None => None
    case Some(r) =>
      if r.rest == [] then Some(Version(r.numbers, None))
      else if r.rest[0] == '-' && |r.rest| > 1 && DigitRun(r.rest[1..]) == |r.rest| - 1 then
        Some(Version(r.numbers, Some(DigitsValue(r.rest[1..]))))
      else None
  }

  /** The release number at position `i`, zero past the end: `1.109` reads as `1.109.0`. */
  function At(release: seq<nat>, i: nat): nat
  {
    if i < |release| then release[i] else 0
  }

  /** Compares two releases number by number, the shorter padded with zeros: -1, 0 or 1. */
  function CompareRelease(a: seq<nat>, b: seq<nat>): (c: int)
    ensures -1 <= c <= 1
    decreases |a| + |b|
  {
    if a == [] && b == [] then 0
    else
      var x := At(a, 0);
      var y := At(b, 0);
      if x < y then -1
      else if x > y then 1
      else CompareRelease(Tail(a), Tail(b))
  }

  /** The release numbers after the first; empty stays empty. */
  function Tail(release: seq<nat>): (t: seq<nat>)
    ensures |t| < |release| || t == release == []
    ensures forall i: nat :: At(t, i) == At(release, i + 1)
  {
    if release == [] then [] else release[1..]
  }

  /** A comparison decides at the first numbers, or else moves on to the rest. */
  lemma CompareFirst(x: nat, a: seq<nat>, y: nat, b: seq<nat>)
    ensures CompareRelease([x] + a, [y] + b) == if x < y then -1 else if x > y then 1 else CompareRelease(a, b)
  {
    assert Tail([x] + a) == a && Tail([y] + b) == b;
  }

  /** Two releases compare equal exactly when they agree at every position, zero-padded. */
  lemma {:induction false} ReleaseEqualIff(a: seq<nat>, b: seq<nat>)
    ensures CompareRelease(a, b) == 0 <==> forall i: nat :: At(a, i) == At(b, i)
    decreases |a| + |b|
  {
    if a != [] || b != [] {
      ReleaseEqualIff(Tail(a), Tail(b));
      if (forall i: nat :: At(Tail(a), i) == At(Tail(b), i)) && At(a, 0) == At(b, 0) {
        forall i: nat ensures At(a, i) == At(b, i) {
          if i > 0 {
            assert At(Tail(a), i - 1) == At(a, i);
            assert At(Tail(b), i - 1) == At(b, i);
          }
        }
      }
    }
  }

  /** The two releases agree at every position before `k`, zero-padded. */
  predicate AgreeBelow(a: seq<nat>, b: seq<nat>, k: nat)
  {
    forall j: nat :: j < k ==> At(a, j) == At(b, j)
  }

  /** A release compares lower exactly when, at the first position where the two differ, its number is the smaller. */
  lemma ReleaseLessIff(a: seq<nat>, b: seq<nat>)
    ensures CompareRelease(a, b) == -1 <==> exists k: nat :: AgreeBelow(a, b, k) && At(a, k) < At(b, k)
  {
    if CompareRelease(a, b) == -1 {
      var k := ReleaseLessWitness(a, b);
    }
    if k: nat :| AgreeBelow(a, b, k) && At(a, k) < At(b, k) {
      ReleaseLessAt(a, b, k);
    }
  }

  /** A release that compares lower has a first difference where its number is the smaller. */
  lemma {:induction false} ReleaseLessWitness(a: seq<nat>, b: seq<nat>) returns (k: nat)
    requires CompareRelease(a, b) == -1
    ensures AgreeBelow(a, b, k) && At(a, k) < At(b, k)
    decreases |a| + |b|
  {
    if At(a, 0) < At(b, 0) {
      k := 0;
    } else {
      var t := ReleaseLessWitness(Tail(a), Tail(b));
      AgreeShiftUp(a, b, t);
      k := t + 1;
    }
  }

  /** A first difference where `a`'s number is the smaller makes `a` compare lower. */
  lemma {:induction false} ReleaseLessAt(a: seq<nat>, b: seq<nat>, k: nat)
    requires AgreeBelow(a, b, k) && At(a, k) < At(b, k)
    ensures CompareRelease(a, b) == -1
    decreases k
  {
    if k > 0 {
      AgreeShiftDown(a, b, k);
      ReleaseLessAt(Tail(a), Tail(b), k - 1);
    }
  }

  /** Agreement of the tails below `k`, and agreement at the front, is agreement below `k + 1`. */
  lemma AgreeShiftUp(a: seq<nat>, b: seq<nat>, k: nat)
    requires At(a, 0) == At(b, 0) && AgreeBelow(Tail(a), Tail(b), k)
    ensures AgreeBelow(a, b, k + 1) && At(a, k + 1) == At(Tail(a), k) && At(b, k + 1) == At(Tail(b), k)
  {
    forall j: nat | j < k + 1 ensures At(a, j) == At(b, j) {
      if j > 0 {
        assert At(Tail(a), j - 1) == At(Tail(b), j - 1);
      }
    }
  }

  /** Agreement below a first difference that is not at the front is agreement of the tails below the position before. */
  lemma AgreeShiftDown(a: seq<nat>, b: seq<nat>, k: nat)
    requires AgreeBelow(a, b, k) && k > 0
    ensures At(a, 0) == At(b, 0) && AgreeBelow(Tail(a), Tail(b), k - 1) && At(Tail(a), k - 1) == At(a, k) && At(Tail(b), k - 1) == At(b, k)
  {
    forall j: nat | j < k - 1 ensures At(Tail(a), j) == At(Tail(b), j) {
      assert At(a, j + 1) == At(b, j + 1);
    }
  }

  /** A release compares higher exactly when, at the first position where the two differ, its number is the larger. */
  lemma ReleaseGreaterIff(a: seq<nat>, b: seq<nat>)
    ensures CompareRelease(a, b) == 1 <==> exists k: nat :: AgreeBelow(a, b, k) && At(a, k) > At(b, k)
  {
    ReleaseLessIff(b, a);
    ReleaseAntisymmetric(a, b);
    if k: nat :| AgreeBelow(a, b, k) && At(a, k) > At(b, k) {
      assert AgreeBelow(b, a, k);
    }
    if k: nat :| AgreeBelow(b, a, k) && At(b, k) < At(a, k) {
      assert AgreeBelow(a, b, k);
    }
  }

  /** Swapping the operands negates the comparison. */
  lemma {:induction false} ReleaseAntisymmetric(a: seq<nat>, b: seq<nat>)
    ensures CompareRelease(a, b) == -CompareRelease(b, a)
    decreases |a| + |b|
  {
    if a != [] || b != [] {
      ReleaseAntisymmetric(Tail(a), Tail(b));
    }
  }

  /** The comparison is transitive. */
  lemma {:induction false} ReleaseTransitive(a: seq<nat>, b: seq<nat>, c: seq<nat>)
    requires CompareRelease(a, b) >= 0 && CompareRelease(b, c) >= 0
    ensures CompareRelease(a, c) >= 0
    ensures CompareRelease(a, b) > 0 || CompareRelease(b, c) > 0 ==> CompareRelease(a, c) > 0
    decreases |a| + |b| + |c|
  {
    if At(a, 0) == At(b, 0) && At(b, 0) == At(c, 0) && (a != [] || b != [] || c != []) {
      ReleaseTransitive(Tail(a), Tail(b), Tail(c));
    }
  }

  /** Trailing zeros do not matter: `1.109` and `1.109.0` are the same release. */
  lemma TrailingZeroIgnored(r: seq<nat>)
    ensures CompareRelease(r + [0], r) == 0
  {
    forall i: nat ensures At(r + [0], i) == At(r, i) {
    }
    ReleaseEqualIff(r + [0], r);
  }

  /** Compares post-release numbers; having none sorts before having one. */
  function ComparePost(a: Option<nat>, b: Option<nat>): (c: int)
    ensures -1 <= c <= 1
    ensures c == 0 <==> a == b
    ensures c == -1 <==> (a.None? && b.Some?) || (a.Some? && b.Some? && a.value < b.value)
  {
    match (a, b)
    case (None, None) => 0
    case (None, Some(_)) => -1
    case (Some(_), None) => 1
    case (Some(x), Some(y)) => if x < y then -1 else if x > y then 1 else 0
  }

  /** Compares two versions: release first, then post-release: -1, 0 or 1. */
  function CompareVersion(a: Version, b: Version): (c: int)
    ensures -1 <= c <= 1
  {
    var byRelease := CompareRelease(a.release, b.release);
    if byRelease != 0 then byRelease else ComparePost(a.post, b.post)
  }

  /** Version comparison is a total order: reflexive, antisymmetric and transitive. */
  lemma VersionOrder(a: Version, b: Version, c: Version)
    ensures CompareVersion(a, a) == 0
    ensures CompareVersion(a, b) == -CompareVersion(b, a)
    ensures CompareVersion(a, b) >= 0 && CompareVersion(b, c) >= 0 ==> CompareVersion(a, c) >= 0
  {
    ReleaseEqualIff(a.release, a.release);
    ReleaseAntisymmetric(a.release, b.release);
    if CompareVersion(a, b) >= 0 && CompareVersion(b, c) >= 0 {
      ReleaseAntisymmetric(b.release, c.release);
      ReleaseAntisymmetric(a.release, c.release);
      ReleaseTransitive(a.release, b.release, c.release);
    }
  }

  /** A post-release sorts after its release: `1.109.0-20260124` is newer than `1.109.0`. */
  lemma PostReleaseIsNewer(release: seq<nat>, post: nat)
    ensures CompareVersion(Version(release, Some(post)), Version(release, None)) == 1
  {
    ReleaseEqualIff(release, release);
  }

  /**
   Whether the host editor version satisfies the requirement: both parse
   and the host is at least the stripped requirement. A side that does not
   parse makes the answer false.
   */
  function IsVersionCompatible(host: string, engine: string): (compatible: bool)
    ensures ParseVersion(host).None? ==> !compatible
    ensures ParseVersion(ParseEngineRequirement(engine)).None? ==> !compatible
  {
    match (ParseVersion(host), ParseVersion(ParseEngineRequirement(engine)))
    case (Some(h), Some(r)) => CompareVersion(h, r) >= 0
    case _ => false
  }

  /** The range prefix is ignored: `^`, `~` and `>=` all mean "at least". */
  lemma RangeKindIgnored(host: string, prefix: string, engine: string)
    requires forall i :: 0 <= i < |prefix| ==> prefix[i] in RangePrefixChars
    ensures IsVersionCompatible(host, prefix + engine) == IsVersionCompatible(host, engine)
  {
    StripIgnoresPrefix(prefix, engine);
  }

  /** A version always satisfies a requirement on itself. */
  lemma ExactVersionMatches(host: string)
    requires ParseVersion(host).Some?
    ensures IsVersionCompatible(host, "^" + host)
  {
    assert host[0] !in RangePrefixChars;
    assert ParseEngineRequirement(host) == host;
    StripIgnoresPrefix("^", host);
    ReleaseEqualIff(ParseVersion(host).value.release, ParseVersion(host).value.release);
  }

  /** A newer host satisfies every requirement an older host satisfies. */
  lemma NewerHostStaysCompatible(older: string, newer: string, engine: string)
    requires ParseVersion(older).Some? && ParseVersion(newer).Some?
    requires CompareVersion(ParseVersion(newer).value, ParseVersion(older).value) >= 0
    requires IsVersionCompatible(older, engine)
    ensures IsVersionCompatible(newer, engine)
  {
    var required := ParseVersion(ParseEngineRequirement(engine)).value;
    VersionOrder(ParseVersion(newer).value, ParseVersion(older).value, required);
  }

  /** The digit character for a value below ten. */
  function DigitChar(d: nat): (c: char)
    requires d < 10
    ensures ProposalScanner.IsDigit(c) && DigitValue(c) == d
  {
    ('0' as int + d) as char
  }

  /** The shortest decimal writing of `n`. */
  function NatToString(n: nat): (s: string)
    ensures s != []
    ensures forall i :: 0 <= i < |s| ==> ProposalScanner.IsDigit(s[i])
    ensures DigitsValue(s) == n
  {
    if n < 10 then [DigitChar(n)]
    else
      var s := NatToString(n / 10) + [DigitChar(n % 10)];
      assert s[..|s| - 1] == NatToString(n / 10);
      s
  }

  /** Writes a release as dot-separated numbers, followed by `rest`. */
  function FormatRelease(release: seq<nat>, rest: string): string
    requires release != []
  {
    NatToString(release[0]) + if |release| == 1 then rest else "." + FormatRelease(release[1..], rest)
  }

  /** The `-N` post-release suffix, empty when there is none. */
  function PostSuffix(post: Option<nat>): string
  {
    match post
    case None => ""
    case Some(p) => "-" + NatToString(p)
  }

  /** Writes a version in the form the parser reads. */
  function FormatVersion(v: Version): string
    requires v.release != []
  {
    FormatRelease(v.release, PostSuffix(v.post))
  }

  /** A digit run followed by a non-digit is read to its end. */
  lemma {:induction false} DigitRunOf(digits: string, rest: string)
    requires forall i :: 0 <= i < |digits| ==> ProposalScanner.IsDigit(digits[i])
    requires rest == [] || !ProposalScanner.IsDigit(rest[0])
    ensures DigitRun(digits + rest) == |digits|
  {
    if digits == [] {
      assert digits + rest == rest;
    } else {
      assert (digits + rest)[1..] == digits[1..] + rest;
      DigitRunOf(digits[1..], rest);
    }
  }

  /** A written number splits off the front of the text it starts. */
  lemma ReleaseFront(digits: string, after: string)
    requires forall i :: 0 <= i < |digits| ==> ProposalScanner.IsDigit(digits[i])
    requires after == [] || !ProposalScanner.IsDigit(after[0])
    ensures DigitRun(digits + after) == |digits|
    ensures (digits + after)[..|digits|] == digits && (digits + after)[|digits|..] == after
  {
    DigitRunOf(digits, after);
  }

  /** Parsing a written release gives back the release and what follows it. */
  lemma {:induction false} ParseFormattedRelease(release: seq<nat>, rest: string)
    requires release != []
    requires rest == [] || (rest[0] != '.' && !ProposalScanner.IsDigit(rest[0]))
    ensures ParseRelease(FormatRelease(release, rest)) == Some(ReleaseParse(release, rest))
  {
    var digits := NatToString(release[0]);
    var after := if |release| == 1 then rest else "." + FormatRelease(release[1..], rest);
    var s := FormatRelease(release, rest);
    assert s == digits + after;
    ReleaseFront(digits, after);
    if |release| > 1 {
      assert after[1..] == FormatRelease(release[1..], rest);
      ParseFormattedRelease(release[1..], rest);
      assert [release[0]] + release[1..] == release;
    } else {
      assert [release[0]] == release;
    }
  }

  /** Parsing a written version gives back the version. */
  lemma ParseFormattedVersion(v: Version)
    requires v.release != []
    ensures ParseVersion(FormatVersion(v)) == Some(v)
  {
    var suffix := PostSuffix(v.post);
    ParseFormattedRelease(v.release, suffix);
    if v.post.Some? {
      assert suffix[1..] == NatToString(v.post.value);
      DigitRunOf(suffix[1..], []);
      assert suffix[1..] + [] == suffix[1..];
    }
  }

  /** No number in `s` is written with a leading zero. */
  predicate NoLeadingZeros(s: string)
  {
    forall i {:trigger ZeroLeadsAt(s, i)} :: 0 <= i < |s| - 1 ==> !ZeroLeadsAt(s, i)
  }

  /** A digit run starts at `i` with a `0` and goes on past it. */
  predicate ZeroLeadsAt(s: string, i: nat)
    requires i < |s| - 1
  {
    s[i] == '0' && ProposalScanner.IsDigit(s[i + 1]) && (i == 0 || !ProposalScanner.IsDigit(s[i - 1]))
  }

  /** The text after a non-digit keeps the property. */
  lemma NoLeadingZerosAfter(s: string, k: nat)
    requires NoLeadingZeros(s) && 0 < k <= |s| && !ProposalScanner.IsDigit(s[k - 1])
    ensures NoLeadingZeros(s[k..])
  {
    var t := s[k..];
    forall i | 0 <= i < |t| - 1
      ensures !ZeroLeadsAt(t, i)
    {
      assert !ZeroLeadsAt(s, k + i);
      assert t[i] == s[k + i] && t[i + 1] == s[k + i + 1];
      if i > 0 {
        assert t[i - 1] == s[k + i - 1];
      }
    }
  }

  /** A non-empty digit string without a leading zero has a positive value or is `0` itself. */
  lemma {:induction false} DigitsPositive(digits: string)
    requires digits != [] && digits[0] != '0'
    requires forall i :: 0 <= i < |digits| ==> ProposalScanner.IsDigit(digits[i])
    ensures DigitsValue(digits) >= 1
  {
    if |digits| > 1 {
      DigitsPositive(digits[..|digits| - 1]);
    }
  }

  /** The shortest writing of a number read from a digit string without a leading zero is that string. */
  lemma {:induction false} DigitsWrittenBack(digits: string)
    requires digits != [] && (|digits| == 1 || digits[0] != '0')
    requires forall i :: 0 <= i < |digits| ==> ProposalScanner.IsDigit(digits[i])
    ensures NatToString(DigitsValue(digits)) == digits
  {
    var n := DigitsValue(digits);
    var last := digits[|digits| - 1];
    if |digits| == 1 {
      assert DigitChar(DigitValue(last)) == last;
    } else {
      var front := digits[..|digits| - 1];
      DigitsPositive(front);
      DigitsWrittenBack(front);
      assert n / 10 == DigitsValue(front) && n % 10 == DigitValue(last);
      assert DigitChar(DigitValue(last)) == last;
      assert digits == front + [last];
    }
  }

  /** A digit run of a text without leading zeros is a shortest writing. */
  lemma RunWrittenBack(s: string, n: nat)
    requires NoLeadingZeros(s) && 0 < n <= |s|
    requires forall i :: 0 <= i < n ==> ProposalScanner.IsDigit(s[i])
    ensures NatToString(DigitsValue(s[..n])) == s[..n]
  {
    if n > 1 {
      assert !ZeroLeadsAt(s, 0);
    }
    DigitsWrittenBack(s[..n]);
  }

  /** Conversely, a release read from a text without leading zeros is the written release. */
  lemma {:induction false} ParsedReleaseIsWritten(s: string, r: ReleaseParse)
    requires NoLeadingZeros(s) && ParseRelease(s) == Some(r)
    ensures s == FormatRelease(r.numbers, r.rest)
  {
    var n := DigitRun(s);
    RunWrittenBack(s, n);
    if n < |s| && s[n] == '.' {
      var more := ParseRelease(s[n + 1..]).value;
      ParseReleaseDot(s, n, more);
      NoLeadingZerosAfter(s, n + 1);
      ParsedReleaseIsWritten(s[n + 1..], more);
      ReleaseDotStep(s, n, DigitsValue(s[..n]), more.numbers, more.rest);
    } else {
      ParseReleaseEnd(s, n);
      assert s == s[..n] + s[n..];
    }
  }

  /** A release whose first number is followed by a dot reads back when the text after the dot does. */
  lemma ReleaseDotStep(s: string, n: nat, x: nat, numbers: seq<nat>, rest: string)
    requires n < |s| && s[n] == '.' && NatToString(x) == s[..n] && numbers != []
    requires s[n + 1..] == FormatRelease(numbers, rest)
    ensures s == FormatRelease([x] + numbers, rest)
  {
    FormatReleaseCons(x, numbers, rest);
    assert s == s[..n] + "." + s[n + 1..];
  }

  /** The parser on a release whose first number is followed by a dot. */
  lemma ParseReleaseDot(s: string, n: nat, more: ReleaseParse)
    requires n == DigitRun(s) && 0 < n < |s| && s[n] == '.'
    requires ParseRelease(s[n + 1..]) == Some(more)
    ensures ParseRelease(s) == Some(ReleaseParse([DigitsValue(s[..n])] + more.numbers, more.rest))
  {
    assert s[n..][1..] == s[n + 1..];
  }

  /** The parser on a release whose first number is not followed by a dot. */
  lemma ParseReleaseEnd(s: string, n: nat)
    requires n == DigitRun(s) && 0 < n && (n == |s| || s[n] != '.')
    ensures ParseRelease(s) == Some(ReleaseParse([DigitsValue(s[..n])], s[n..]))
  {
  }

  /** Writing a release of several numbers: the first, a dot, then the others. */
  lemma FormatReleaseCons(x: nat, more: seq<nat>, rest: string)
    requires more != []
    ensures FormatRelease([x] + more, rest) == NatToString(x) + "." + FormatRelease(more, rest)
  {
    assert ([x] + more)[1..] == more;
  }

  /** A written release ends with the text that follows it. */
  lemma {:induction false} FormatReleaseEnds(release: seq<nat>, rest: string)
    requires release != []
    ensures var w := FormatRelease(release, rest); |rest| <= |w| && w[|w| - |rest|..] == rest
  {
    var w := FormatRelease(release, rest);
    var digits := NatToString(release[0]);
    if |release| == 1 {
      assert w == digits + rest;
    } else {
      FormatReleaseEnds(release[1..], rest);
      var tail := FormatRelease(release[1..], rest);
      assert w == (digits + ".") + tail;
      assert w[|w| - |rest|..] == tail[|tail| - |rest|..];
    }
  }

  /** Conversely, a version read from a text without leading zeros is the written version. */
  lemma ParsedVersionIsWritten(s: string, v: Version)
    requires NoLeadingZeros(s) && ParseVersion(s) == Some(v)
    ensures s == FormatVersion(v)
  {
    ParseVersionParts(s, v);
    var r := ParseRelease(s).value;
    ParsedReleaseIsWritten(s, r);
    if r.rest != [] {
      FormatReleaseEnds(r.numbers, r.rest);
      NoLeadingZerosFrom(s, |s| - |r.rest|);
      PostWrittenBack(r.rest);
    }
    assert PostSuffix(v.post) == r.rest;
  }

  /** What a parsed version is made of: the parsed release, then nothing or a dash and digits. */
  lemma ParseVersionParts(s: string, v: Version)
    requires ParseVersion(s) == Some(v)
    ensures ParseRelease(s).Some? && v.release == ParseRelease(s).value.numbers
    ensures var rest := ParseRelease(s).value.rest;
            if rest == [] then v.post.None?
            else |rest| > 1 && rest[0] == '-' && DigitRun(rest[1..]) == |rest| - 1 && v.post == Some(DigitsValue(rest[1..]))
  {
  }

  /** A suffix that starts with a non-digit keeps the property. */
  lemma NoLeadingZerosFrom(s: string, k: nat)
    requires NoLeadingZeros(s) && k < |s| && !ProposalScanner.IsDigit(s[k])
    ensures NoLeadingZeros(s[k..])
  {
    var t := s[k..];
    forall i | 0 <= i < |t| - 1
      ensures !ZeroLeadsAt(t, i)
    {
      if i > 0 {
        assert !ZeroLeadsAt(s, k + i);
        assert t[i - 1] == s[k + i - 1] && t[i] == s[k + i] && t[i + 1] == s[k + i + 1];
      }
    }
  }

  /** A post-release text without leading zeros is the written post-release number. */
  lemma PostWrittenBack(rest: string)
    requires NoLeadingZeros(rest) && |rest| > 1 && rest[0] == '-' && DigitRun(rest[1..]) == |rest| - 1
    ensures PostSuffix(Some(DigitsValue(rest[1..]))) == rest
  {
    NoLeadingZerosAfter(rest, 1);
    RunWrittenBack(rest[1..], |rest| - 1);
    assert rest[1..][..|rest| - 1] == rest[1..];
    assert rest == "-" + rest[1..];
  }

  /**
   What the parser accepts: among texts without leading zeros, exactly the
   written versions `N(.N)*` with an optional `-N`.
   */
  lemma ParseVersionAccepts(s: string)
    requires NoLeadingZeros(s)
    ensures ParseVersion(s).Some? <==> exists v: Version :: v.release != [] && FormatVersion(v) == s
  {
    if ParseVersion(s).Some? {
      ParsedVersionIsWritten(s, ParseVersion(s).value);
    }
    if v: Version :| v.release != [] && FormatVersion(v) == s {
      ParseFormattedVersion(v);
    }
  }

  /** A written version carries no range prefix to strip. */
  lemma FormattedIsStripped(v: Version)
    requires v.release != []
    ensures ParseEngineRequirement(FormatVersion(v)) == FormatVersion(v)
  {
    ParseFormattedVersion(v);
    assert FormatVersion(v)[0] !in RangePrefixChars;
  }

  /** On written versions, the string check is the version order: the host is at least the requirement. */
  lemma CompatibleIsAtLeast(host: Version, prefix: string, required: Version)
    requires host.release != [] && required.release != []
    requires forall i :: 0 <= i < |prefix| ==> prefix[i] in RangePrefixChars
    ensures IsVersionCompatible(FormatVersion(host), prefix + FormatVersion(required))
            <==> CompareVersion(host, required) >= 0
  {
    ParseFormattedVersion(host);
    ParseFormattedVersion(required);
    StripIgnoresPrefix(prefix, FormatVersion(required));
    FormattedIsStripped(required);
  }

  /**
   The post-release qualifier counts: a host at the bare release does not
   satisfy a requirement on a post-release of it (`1.109.0` against
   `^1.109.0-20260124`), while any later release does.
   */
  lemma PostReleaseRequirement(release: seq<nat>, post: nat)
    requires release != []
    ensures !IsVersionCompatible(FormatVersion(Version(release, None)), "^" + FormatVersion(Version(release, Some(post))))
  {
    CompatibleIsAtLeast(Version(release, None), "^", Version(release, Some(post)));
    PostReleaseIsNewer(release, post);
    VersionOrder(Version(release, Some(post)), Version(release, None), Version(release, None));
  }

  /**
   A host at patch `patch` of a minor line against a post-release of that
   line's `.0` (`1.109.51242` against `^1.109.0-20260124`): satisfied
   exactly when the host is past `.0`.
   */
  lemma PatchAgainstPostRelease(major: nat, minor: nat, patch: nat, post: nat)
    ensures IsVersionCompatible(FormatVersion(Version([major, minor, patch], None)),
                                "^" + FormatVersion(Version([major, minor, 0], Some(post))))
            <==> patch > 0
  {
    var host := Version([major, minor, patch], None);
    var required := Version([major, minor, 0], Some(post));
    CompatibleIsAtLeast(host, "^", required);
    SameLineRelease(major, minor, patch);
    if patch == 0 {
      PostReleaseIsNewer(required.release, post);
      VersionOrder(required, host, host);
    }
  }

  /**
   A host on some minor line against a requirement on the `.0` of a minor
   line, behind any run of range characters (`^1.110.0`, `~1.109.0`,
   `>=1.109.0`): satisfied exactly when the host's line is not the earlier.
   */
  lemma MinorLineRequirement(major: nat, hostMinor: nat, patch: nat, prefix: string, requiredMinor: nat)
    requires forall i :: 0 <= i < |prefix| ==> prefix[i] in RangePrefixChars
    ensures IsVersionCompatible(FormatVersion(Version([major, hostMinor, patch], None)),
                                prefix + FormatVersion(Version([major, requiredMinor, 0], None)))
            <==> hostMinor >= requiredMinor
  {
    var host := Version([major, hostMinor, patch], None);
    var required := Version([major, requiredMinor, 0], None);
    CompatibleIsAtLeast(host, prefix, required);
    CompareFirst(major, [hostMinor, patch], major, [requiredMinor, 0]);
    CompareFirst(hostMinor, [patch], requiredMinor, [0]);
    CompareFirst(patch, [], 0, []);
  }

  /** On one minor line, a release compares with the line's `.0` by its patch number alone. */
  lemma SameLineRelease(major: nat, minor: nat, patch: nat)
    ensures CompareRelease([major, minor, patch], [major, minor, 0]) == if patch > 0 then 1 else 0
  {
    CompareFirst(major, [minor, patch], major, [minor, 0]);
    CompareFirst(minor, [patch], minor, [0]);
    CompareFirst(patch, [], 0, []);
  }
}
