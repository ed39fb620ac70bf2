/**
 The scan that finds API proposal names in VS Code's JavaScript sources.
 A proposal is declared as an object key followed by an object literal that
 opens with a `version` field, bare or quoted, pretty-printed or minified:
 `chatHooks: { version: 6, ... }` or `"chatHooks":{version:6,...}`.
 The scan reads the text left to right and, wherever a declaration starts,
 takes its name and resumes right after the version's first digit; the
 matches never overlap, as with a regular-expression `findall`.
 */
module ProposalScanner {
  import opened Wrappers

  predicate IsLetter(c: char) { 'a' <= c <= 'z' || 'A' <= c <= 'Z' }

  predicate IsDigit(c: char) { '0' <= c <= '9' }

  predicate IsWordChar(c: char) { IsLetter(c) || IsDigit(c) || c == '_' }

  predicate IsQuote(c: char) { c == '"' || c == '\'' }

  /** The characters a regular-expression `\s` matches in a text pattern. */
  const SpaceChars: seq<char> := [
    ' ', '\t', '\n', '\r', '\U{000B}', '\U{000C}', '\U{001C}', '\U{001D}', '\U{001E}', '\U{001F}',
    '\U{0085}', '\U{00A0}', '\U{1680}', '\U{2000}', '\U{2001}', '\U{2002}', '\U{2003}', '\U{2004}',
    '\U{2005}', '\U{2006}', '\U{2007}', '\U{2008}', '\U{2009}', '\U{200A}', '\U{2028}', '\U{2029}',
    '\U{202F}', '\U{205F}', '\U{3000}']

  predicate IsSpace(c: char) { c in SpaceChars }

  /** White space is never part of a name, a digit or a quote. */
  lemma SpaceIsNotWord()
    ensures forall c :: IsSpace(c) ==> !IsWordChar(c) && !IsQuote(c)
  {
    SpaceRange();
  }

  /** White space lies at or below the blank, or beyond ASCII. */
  lemma SpaceRange()
    ensures forall c :: IsSpace(c) ==> c <= ' ' || c >= '\U{0085}'
  {
    assert forall i :: 0 <= i < |SpaceChars| ==> SpaceChars[i] <= ' ' || SpaceChars[i] >= '\U{0085}';
  }

  predicate AllSpace(s: string) { forall i :: 0 <= i < |s| ==> IsSpace(s[i]) }

  /** A proposal name: a letter followed by letters, digits and underscores. */
  predicate IsName(s: string)
  {
    |s| > 0 && IsLetter(s[0]) && forall i :: 0 <= i < |s| ==> IsWordChar(s[i])
  }

  /** Length of the longest prefix made of word characters. */
  function WordLen(s: string): (n: nat)
    ensures n <= |s|
    ensures forall i :: 0 <= i < n ==> IsWordChar(s[i])
    ensures n == |s| || !IsWordChar(s[n])
  {
    if s == [] || !IsWordChar(s[0]) then 0 else 1 + WordLen(s[1..])
  }

  /** Length of the longest prefix made of white space. */
  function SpaceLen(s: string): (n: nat)
    ensures n <= |s|
    ensures forall i :: 0 <= i < n ==> IsSpace(s[i])
    ensures n == |s| || !IsSpace(s[n])
  {
    if s == [] || !IsSpace(s[0]) then 0 else 1 + SpaceLen(s[1..])
  }

  /** The white space `SpaceLen` measures. */
  lemma SpacePrefix(s: string)
    ensures AllSpace(s[..SpaceLen(s)])
  {
  }

  /** The punctuation and keyword between a key and its version number, each of which may be preceded by white space. */
  const KeyTokens: seq<string> := [":", "{", "version", ":"]

  /** Optional white space, then `token`; yields the text after the token. */
  function Expect(s: string, token: string): (r: Option<string>)
    ensures r.Some? ==> |r.value| + |token| <= |s|
  {
    var t := s[SpaceLen(s)..];
    if token <= t then Some(t[|token|..]) else None
  }

  /** `Expect` for each token in turn. */
  function ExpectAll(s: string, tokens: seq<string>): (r: Option<string>)
    ensures r.Some? ==> |r.value| <= |s|
  {
    if tokens == [] then Some(s)
    else match Expect(s, tokens[0])
      case None => None
      case Some(t) => ExpectAll(t, tokens[1..])
  }

  /** Drops one leading quote, if there is one. */
  function StripQuote(s: string): (r: string)
    ensures r == s || (s != [] && IsQuote(s[0]) && r == s[1..])
  {
    if s != [] && IsQuote(s[0]) then s[1..] else s
  }

  /**
   What must follow a key's name: an optional quote, then `: { version :`
   with optional white space before each part, then optional white space and
   a digit. Yields the text after that digit.
   */
  function KeyTail(u: string): (r: Option<string>)
    ensures r.Some? ==> |r.value| < |u|
  {
    match ExpectAll(StripQuote(u), KeyTokens)
    case None => None
    case Some(w) =>
      var d := w[SpaceLen(w)..];
      if d != [] && IsDigit(d[0]) then Some(d[1..]) else None
  }

  datatype KeyMatch = KeyMatch(name: string, rest: string)

  /**
   Matches a declaration at the very start of `s`: an optional quote, a name,
   and the key's tail. On success, the name and the text after the version's
   first digit.
   */
  function MatchKey(s: string): (m: Option<KeyMatch>)
    ensures m.Some? ==> IsName(m.value.name)
    ensures m.Some? ==> |m.value.rest| < |s|
  {
    var t := StripQuote(s);
    if t == [] || !IsLetter(t[0]) then None
    else
      var n := WordLen(t);
      match KeyTail(t[n..])
      case None => None
      case Some(rest) => Some(KeyMatch(t[..n], rest))
  }

  /** All declared names, in text order, repeats included. */
  function Scan(s: string): (names: seq<string>)
    ensures forall i :: 0 <= i < |names| ==> IsName(names[i])
    decreases |s|
  {
    if s == [] then []
    else match MatchKey(s)
      case Some(m) => [m.name] + Scan(m.rest)
      case None => Scan(s[1..])
  }

  /** Identifiers that can look like a declared key in JavaScript and are never proposals. */
  const NoiseWords: set<string> := {"version", "exports", "module", "define", "require", "default"}

  /** The distinct proposal names declared in a text, noise words removed. */
  function ExtractNames(text: string): (names: set<string>)
    ensures forall n :: n in names ==> IsName(n) && n !in NoiseWords
  {
    (set n | n in Scan(text)) - NoiseWords
  }

  // ---------------------------------------------------------------------------
  // The declaration syntax written out, as a reference for the scan
  // ---------------------------------------------------------------------------

  /** The quoting around a key: nothing, or a single quote character of either kind. */
  predicate IsQuoting(q: string) { q == [] || (|q| == 1 && IsQuote(q[0])) }

  /** One declaration as it may be written: the quoting, the white space in each gap and the version's first digit. */
  datatype Key = Key(openQuote: string, name: string, closeQuote: string, gaps: seq<string>, lastGap: string, digit: char)

  predicate WellFormedKey(k: Key)
  {
    && IsQuoting(k.openQuote) && IsQuoting(k.closeQuote)
    && IsName(k.name)
    && |k.gaps| == |KeyTokens|
    && (forall i :: 0 <= i < |k.gaps| ==> AllSpace(k.gaps[i]))
    && AllSpace(k.lastGap)
    && IsDigit(k.digit)
  }

  /** Each token preceded by its gap, then `rest`. */
  function Spaced(gaps: seq<string>, tokens: seq<string>, rest: string): string
  {
    if gaps == [] || tokens == [] then rest else gaps[0] + (tokens[0] + Spaced(gaps[1..], tokens[1..], rest))
  }

  /** The text of a declaration, up to and including the version's first digit, followed by `rest`. */
  function Written(k: Key, rest: string): string
  {
    k.openQuote + (k.name + (k.closeQuote + Spaced(k.gaps, KeyTokens, k.lastGap + ([k.digit] + rest))))
  }

  lemma {:induction false} SpacedSplit(gaps: seq<string>, tokens: seq<string>, rest: string)
    ensures Spaced(gaps, tokens, rest) == Spaced(gaps, tokens, []) + rest
  {
    if gaps != [] && tokens != [] {
      SpacedSplit(gaps[1..], tokens[1..], rest);
    }
  }

  /** A written declaration is a fixed text followed by whatever comes after it. */
  lemma WrittenSplit(k: Key, rest: string)
    ensures Written(k, rest) == Written(k, []) + rest
  {
    var tail := k.lastGap + [k.digit];
    SpacedSplit(k.gaps, KeyTokens, tail + rest);
    SpacedSplit(k.gaps, KeyTokens, tail);
    assert k.lastGap + ([k.digit] + rest) == tail + rest;
    assert k.lastGap + ([k.digit] + []) == tail;
  }

  /** A name is declared at position `i` of `s`. */
  ghost predicate DeclaredAt(s: string, i: int, name: string)
  {
    0 <= i <= |s| && exists k, rest :: WellFormedKey(k) && k.name == name && s[i..] == Written(k, rest)
  }

  lemma WordLenOf(w: string, rest: string)
    requires forall i :: 0 <= i < |w| ==> IsWordChar(w[i])
    requires rest == [] || !IsWordChar(rest[0])
    ensures WordLen(w + rest) == |w|
  {
    assert forall i :: 0 <= i < |w| ==> (w + rest)[i] == w[i];
    assert |w| < |w + rest| ==> (w + rest)[|w|] == rest[0];
  }

  lemma SpaceLenOf(g: string, rest: string)
    requires AllSpace(g)
    requires rest == [] || !IsSpace(rest[0])
    ensures SpaceLen(g + rest) == |g|
  {
    assert forall i :: 0 <= i < |g| ==> (g + rest)[i] == g[i];
    assert |g| < |g + rest| ==> (g + rest)[|g|] == rest[0];
  }

  /** The tokens' own first characters are neither white space nor quotes. */
  lemma TokensShape()
    ensures forall i :: 0 <= i < |KeyTokens| ==> |KeyTokens[i]| > 0 && !IsSpace(KeyTokens[i][0]) && !IsQuote(KeyTokens[i][0])
  {
  }

  lemma {:induction false} ExpectAllSpaced(gaps: seq<string>, tokens: seq<string>, rest: string)
    requires |gaps| == |tokens|
    requires forall i :: 0 <= i < |gaps| ==> AllSpace(gaps[i])
    requires forall i :: 0 <= i < |tokens| ==> |tokens[i]| > 0 && !IsSpace(tokens[i][0])
    ensures ExpectAll(Spaced(gaps, tokens, rest), tokens) == Some(rest)
  {
    if tokens != [] {
      var tail := Spaced(gaps[1..], tokens[1..], rest);
      var s := Spaced(gaps, tokens, rest);
      assert s == gaps[0] + (tokens[0] + tail);
      SpaceLenOf(gaps[0], tokens[0] + tail);
      assert s[SpaceLen(s)..] == tokens[0] + tail;
      assert Expect(s, tokens[0]) == Some(tail);
      ExpectAllSpaced(gaps[1..], tokens[1..], rest);
    }
  }

  /** The first character of the spaced tokens is a gap's white space or the colon: never a word character or a quote. */
  lemma SpacedStart(gaps: seq<string>, rest: string)
    requires |gaps| == |KeyTokens|
    requires forall i :: 0 <= i < |gaps| ==> AllSpace(gaps[i])
    ensures var s := Spaced(gaps, KeyTokens, rest); s != [] && !IsWordChar(s[0]) && !IsQuote(s[0])
  {
    var s := Spaced(gaps, KeyTokens, rest);
    SpaceIsNotWord();
    assert s == gaps[0] + (":" + Spaced(gaps[1..], KeyTokens[1..], rest));
    if gaps[0] != [] {
      assert s[0] == gaps[0][0];
      assert IsSpace(gaps[0][0]);
    }
  }

  /** The tail of a written declaration is recognised, up to and including the digit. */
  lemma {:induction false} KeyTailRender(close: string, gaps: seq<string>, lastGap: string, digit: char, rest: string)
    requires IsQuoting(close) && |gaps| == |KeyTokens| && (forall i :: 0 <= i < |gaps| ==> AllSpace(gaps[i]))
    requires AllSpace(lastGap) && IsDigit(digit)
    ensures KeyTail(close + Spaced(gaps, KeyTokens, lastGap + ([digit] + rest))) == Some(rest)
  {
    var tail := lastGap + ([digit] + rest);
    var body := Spaced(gaps, KeyTokens, tail);
    SpacedStart(gaps, tail);
    assert StripQuote(close + body) == body;
    TokensShape();
    ExpectAllSpaced(gaps, KeyTokens, tail);
    SpaceIsNotWord();
    SpaceLenOf(lastGap, [digit] + rest);
    assert tail[SpaceLen(tail)..] == [digit] + rest;
  }

  /** Decoding a written declaration gives back its name, and the scan resumes right after its first digit. */
  lemma {:induction false} MatchKeyRender(k: Key, rest: string)
    requires WellFormedKey(k)
    ensures MatchKey(Written(k, rest)) == Some(KeyMatch(k.name, rest))
  {
    var after := k.closeQuote + Spaced(k.gaps, KeyTokens, k.lastGap + ([k.digit] + rest));
    var s := Written(k, rest);
    assert StripQuote(s) == k.name + after;
    SpacedStart(k.gaps, k.lastGap + ([k.digit] + rest));
    WordLenOf(k.name, after);
    KeyTailRender(k.closeQuote, k.gaps, k.lastGap, k.digit, rest);
    assert (k.name + after)[..|k.name|] == k.name;
    assert (k.name + after)[|k.name|..] == after;
  }

  /** The gaps that `ExpectAll` skipped: the text is the tokens, spaced by them, and what `ExpectAll` left. */
  lemma {:induction false} ExpectAllGaps(s: string, tokens: seq<string>) returns (gaps: seq<string>)
    requires ExpectAll(s, tokens).Some?
    ensures |gaps| == |tokens|
    ensures forall i :: 0 <= i < |gaps| ==> AllSpace(gaps[i])
    ensures s == Spaced(gaps, tokens, ExpectAll(s, tokens).value)
  {
    if tokens == [] {
      gaps := [];
    } else {
      var n := SpaceLen(s);
      var after := s[n..][|tokens[0]|..];
      ExpectFirst(s, tokens);
      var g := ExpectAllGaps(after, tokens[1..]);
      gaps := [s[..n]] + g;
      SpacedCons(s[..n], g, tokens, ExpectAll(s, tokens).value);
      forall i | 0 <= i < |gaps| ensures AllSpace(gaps[i]) {
        if i > 0 {
          assert gaps[i] == g[i - 1];
        }
      }
    }
  }

  /** `Spaced` with one more gap and token in front. */
  lemma SpacedCons(gap: string, gaps: seq<string>, tokens: seq<string>, rest: string)
    requires tokens != []
    ensures Spaced([gap] + gaps, tokens, rest) == gap + (tokens[0] + Spaced(gaps, tokens[1..], rest))
  {
    assert ([gap] + gaps)[1..] == gaps;
  }

  /** What the first token's `Expect` skips and leaves. */
  lemma ExpectFirst(s: string, tokens: seq<string>)
    requires tokens != [] && ExpectAll(s, tokens).Some?
    ensures var n := SpaceLen(s);
            && n + |tokens[0]| <= |s|
            && AllSpace(s[..n])
            && s == s[..n] + (tokens[0] + s[n..][|tokens[0]|..])
            && ExpectAll(s[n..][|tokens[0]|..], tokens[1..]) == ExpectAll(s, tokens)
  {
    var n := SpaceLen(s);
    var t := s[n..];
    SpacePrefix(s);
    assert Expect(s, tokens[0]).Some?;
    var after := t[|tokens[0]|..];
    assert t == tokens[0] + after;
    SplitAt(s, n);
  }

  /** The parts of a recognised key tail. */
  lemma KeyTailParts(u: string) returns (close: string, gaps: seq<string>, lastGap: string, digit: char)
    requires KeyTail(u).Some?
    ensures IsQuoting(close) && |gaps| == |KeyTokens| && (forall i :: 0 <= i < |gaps| ==> AllSpace(gaps[i]))
    ensures AllSpace(lastGap) && IsDigit(digit)
    ensures u == close + Spaced(gaps, KeyTokens, lastGap + ([digit] + KeyTail(u).value))
  {
    close := QuoteSplit(u);
    var v := StripQuote(u);
    var w := ExpectAll(v, KeyTokens).value;
    gaps := ExpectAllGaps(v, KeyTokens);
    lastGap, digit := DigitParts(w);
    KeyTailValue(u);
  }

  /** The quote a text opens with, if any, and the rest. */
  lemma QuoteSplit(u: string) returns (close: string)
    ensures IsQuoting(close) && u == close + StripQuote(u)
  {
    close := if u != [] && IsQuote(u[0]) then u[..1] else [];
    assert u == close + StripQuote(u);
  }

  /** A recognised key tail ends right after the digit that follows the tokens. */
  lemma KeyTailValue(u: string)
    requires KeyTail(u).Some?
    ensures var w := ExpectAll(StripQuote(u), KeyTokens).value;
            KeyTail(u).value == w[SpaceLen(w)..][1..]
  {
  }

  /** The parts of a run of spaces followed by a digit. */
  lemma DigitParts(w: string) returns (lastGap: string, digit: char)
    requires var d := w[SpaceLen(w)..]; d != [] && IsDigit(d[0])
    ensures AllSpace(lastGap) && IsDigit(digit)
    ensures w == lastGap + ([digit] + w[SpaceLen(w)..][1..])
  {
    var n := SpaceLen(w);
    var d := w[n..];
    lastGap := w[..n];
    digit := d[0];
    SpacePrefix(w);
    SplitAt(w, n);
    SplitFirst(d);
  }

  lemma SplitFirst(d: string)
    requires d != []
    ensures d == [d[0]] + d[1..]
  {
  }

  lemma SplitAt(t: string, n: nat)
    requires n <= |t|
    ensures t == t[..n] + t[n..]
  {
  }

  /** The word at the start of a text that opens with a letter is a name. */
  lemma NamePrefix(t: string)
    requires t != [] && IsLetter(t[0])
    ensures IsName(t[..WordLen(t)])
  {
  }

  /** Every match of the scan is a declaration written in the syntax above. */
  lemma {:induction false} MatchKeySound(s: string) returns (k: Key)
    requires MatchKey(s).Some?
    ensures WellFormedKey(k) && k.name == MatchKey(s).value.name && Written(k, MatchKey(s).value.rest) == s
  {
    var open := if s != [] && IsQuote(s[0]) then s[..1] else [];
    var t := StripQuote(s);
    assert s == open + t;
    var n := WordLen(t);
    var rest := MatchKey(s).value.rest;
    assert MatchKey(s).value.name == t[..n] && KeyTail(t[n..]) == Some(rest);
    var close, gaps, lastGap, digit := KeyTailParts(t[n..]);
    k := Key(open, t[..n], close, gaps, lastGap, digit);
    assert WellFormedKey(k) by {
      NamePrefix(t);
    }
    assert Written(k, rest) == s by {
      SplitAt(t, n);
      assert Written(k, rest) == open + (t[..n] + t[n..]);
    }
  }

  /** Every name the scan reports is declared somewhere in the text. */
  lemma {:induction false} ScanSound(s: string, name: string)
    requires name in Scan(s)
    ensures exists i :: DeclaredAt(s, i, name)
    decreases |s|
  {
    match MatchKey(s)
    case Some(m) =>
      var k := MatchKeySound(s);
      if name == m.name {
        assert s[0..] == Written(k, m.rest);
        assert DeclaredAt(s, 0, name);
      } else {
        ScanSound(m.rest, name);
        var i :| DeclaredAt(m.rest, i, name);
        var off := |s| - |m.rest|;
        assert s[off..] == m.rest by {
          WrittenSplit(k, m.rest);
        }
        DeclaredShift(s, off, i, name);
      }
    case None =>
      ScanSound(s[1..], name);
      var i :| DeclaredAt(s[1..], i, name);
      DeclaredShift(s, 1, i, name);
  }

  /** A declaration found in a suffix is a declaration of the whole text. */
  lemma DeclaredShift(s: string, off: nat, i: int, name: string)
    requires off <= |s| && DeclaredAt(s[off..], i, name)
    ensures DeclaredAt(s, off + i, name)
  {
    var k, rest :| WellFormedKey(k) && k.name == name && s[off..][i..] == Written(k, rest);
    assert s[off + i..] == s[off..][i..];
  }

  /** Where the first colon and the opening brace of a written declaration are, and what comes before them. */
  lemma KeyLayout(k: Key, r: string) returns (h: nat, a: nat, b: nat)
    requires WellFormedKey(k)
    ensures 0 < h <= a < b < |Written(k, r)|
    ensures forall t :: 0 <= t < h ==> IsWordChar(Written(k, r)[t]) || IsQuote(Written(k, r)[t])
    ensures forall t :: h <= t < a ==> IsSpace(Written(k, r)[t])
    ensures Written(k, r)[a] == ':' && Written(k, r)[b] == '{'
    ensures forall t :: a < t < b ==> IsSpace(Written(k, r)[t])
  {
    var head, g0, g1, more := WrittenShape(k, r);
    h, a, b := ShapeLayout(head, g0, g1, more);
  }

  /** A written declaration is its quoted name, a gap, the colon, a gap, the brace and the rest. */
  lemma WrittenShape(k: Key, r: string) returns (head: string, g0: string, g1: string, more: string)
    requires WellFormedKey(k)
    ensures Written(k, r) == head + (g0 + (":" + (g1 + ("{" + more))))
    ensures head != [] && forall t :: 0 <= t < |head| ==> IsWordChar(head[t]) || IsQuote(head[t])
    ensures AllSpace(g0) && AllSpace(g1)
  {
    head := k.openQuote + k.name + k.closeQuote;
    g0 := k.gaps[0];
    g1 := k.gaps[1];
    more := Spaced(k.gaps[2..], KeyTokens[2..], k.lastGap + ([k.digit] + r));
    assert Spaced(k.gaps, KeyTokens, k.lastGap + ([k.digit] + r)) == g0 + (":" + (g1 + ("{" + more))) by {
      assert k.gaps[1..][1..] == k.gaps[2..];
      assert KeyTokens[1..][1..] == KeyTokens[2..];
    }
    forall t | 0 <= t < |head| ensures IsWordChar(head[t]) || IsQuote(head[t]) {
      if |k.openQuote| <= t < |k.openQuote| + |k.name| {
        assert head[t] == k.name[t - |k.openQuote|];
      }
    }
  }

  /** Positions in a text laid out as a head, a gap, a colon, a gap and a brace. */
  lemma ShapeLayout(head: string, g0: string, g1: string, more: string) returns (h: nat, a: nat, b: nat)
    requires head != [] && forall t :: 0 <= t < |head| ==> IsWordChar(head[t]) || IsQuote(head[t])
    requires AllSpace(g0) && AllSpace(g1)
    ensures var w := head + (g0 + (":" + (g1 + ("{" + more))));
            && 0 < h <= a < b < |w|
            && (forall t :: 0 <= t < h ==> IsWordChar(w[t]) || IsQuote(w[t]))
            && (forall t :: h <= t < a ==> IsSpace(w[t]))
            && w[a] == ':' && w[b] == '{'
            && (forall t :: a < t < b ==> IsSpace(w[t]))
  {
    var w := head + (g0 + (":" + (g1 + ("{" + more))));
    h := |head|;
    a := h + |g0|;
    b := a + 1 + |g1|;
    assert forall t :: 0 <= t < h ==> w[t] == head[t];
    assert forall t :: h <= t < a ==> w[t] == g0[t - h];
    assert forall t :: a < t < b ==> w[t] == g1[t - a - 1];
  }

  /**
   Text that declares nothing and cannot run into a following declaration:
   every colon in it is followed, after white space, by something other
   than an opening brace, and it does not end inside a name or on a quote.
   */
  predicate Quiet(q: string)
  {
    && (forall i {:trigger ColonSettled(q, i)} :: 0 <= i < |q| && q[i] == ':' ==> ColonSettled(q, i))
    && (q == [] || (!IsWordChar(q[|q| - 1]) && !IsQuote(q[|q| - 1])))
  }

  /** The colon at `i` is followed, within `q` and after white space, by a character other than `{`. */
  predicate ColonSettled(q: string, i: nat)
    requires i < |q|
  {
    var j := i + 1 + SpaceLen(q[i + 1..]);
    j < |q| && q[j] != '{'
  }

  /** Text that is empty or opens a declaration with its quote or its name. */
  predicate OpensKey(rest: string)
  {
    rest == [] || IsLetter(rest[0]) || IsQuote(rest[0])
  }

  /** No declaration starts inside quiet text followed by the start of a declaration. */
  lemma QuietNoMatch(q: string, rest: string, p: nat)
    requires Quiet(q) && OpensKey(rest) && p < |q|
    ensures MatchKey(q[p..] + rest).None?
  {
    var s := q[p..] + rest;
    if MatchKey(s).Some? {
      var h, a, b := MatchLayout(s);
      QuietBlocksBrace(q, rest, p, h, a, b);
    }
  }

  /** The layout of a text at whose start the scan matches a declaration. */
  lemma MatchLayout(s: string) returns (h: nat, a: nat, b: nat)
    requires MatchKey(s).Some?
    ensures 0 < h <= a < b < |s|
    ensures forall t :: 0 <= t < h ==> IsWordChar(s[t]) || IsQuote(s[t])
    ensures forall t :: h <= t < a ==> IsSpace(s[t])
    ensures s[a] == ':' && s[b] == '{'
    ensures forall t :: a < t < b ==> IsSpace(s[t])
  {
    var k := MatchKeySound(s);
    h, a, b := KeyLayout(k, MatchKey(s).value.rest);
  }

  /**
   In quiet text followed by the start of a declaration, a name, white
   space, a colon and white space starting inside the text are never
   followed by an opening brace.
   */
  lemma QuietBlocksBrace(q: string, rest: string, p: nat, h: nat, a: nat, b: nat)
    requires Quiet(q) && OpensKey(rest) && p < |q|
    requires var s := q[p..] + rest;
             && 0 < h <= a < b < |s|
             && (forall t :: 0 <= t < h ==> IsWordChar(s[t]) || IsQuote(s[t]))
             && (forall t :: h <= t < a ==> IsSpace(s[t]))
             && s[a] == ':'
             && (forall t :: a < t < b ==> IsSpace(s[t]))
    ensures (q[p..] + rest)[b] != '{'
  {
    var s := q[p..] + rest;
    ColonInQuiet(q, rest, p, h, a);
    assert q[p + a] == ':';
    var len := SettledColon(q, rest, p, a);
    if s[b] == '{' {
      BraceAfterColon(s, a, b, len);
    }
  }

  /** What follows a settled colon of `q`, read in `q[p..] + rest`: white space, then neither white space nor a brace. */
  lemma SettledColon(q: string, rest: string, p: nat, c: nat) returns (len: nat)
    requires p + c < |q| && ColonSettled(q, p + c)
    ensures var s := q[p..] + rest;
            && c + 1 + len < |s|
            && (forall t :: c < t < c + 1 + len ==> IsSpace(s[t]))
            && !IsSpace(s[c + 1 + len]) && s[c + 1 + len] != '{'
  {
    var tail := q[p + c + 1..];
    len := SpaceLen(tail);
    SpacePrefix(tail);
    SpaceStops(tail);
    var s := q[p..] + rest;
    assert forall t :: c < t < c + 1 + len ==> s[t] == tail[..len][t - c - 1];
    assert s[c + 1 + len] == tail[len];
  }

  /** `SpaceLen` stops at the first character that is not white space. */
  lemma {:induction false} SpaceStops(s: string)
    ensures SpaceLen(s) <= |s|
    ensures SpaceLen(s) < |s| ==> !IsSpace(s[SpaceLen(s)])
  {
    if s != [] && IsSpace(s[0]) {
      SpaceStops(s[1..]);
    }
  }

  /** The colon of a declaration starting inside quiet text lies inside that text. */
  lemma ColonInQuiet(q: string, rest: string, p: nat, h: nat, a: nat)
    requires Quiet(q) && OpensKey(rest) && p < |q|
    requires var s := q[p..] + rest;
             && 0 < h <= a < |s| && s[a] == ':'
             && (forall t :: 0 <= t < h ==> IsWordChar(s[t]) || IsQuote(s[t]))
             && (forall t :: h <= t < a ==> IsSpace(s[t]))
    ensures p + a < |q|
  {
    var s := q[p..] + rest;
    var n := |q| - p;
    assert s[n - 1] == q[|q| - 1];
    assert n == |s| || s[n] == rest[0];
    ColonWithin(s, n, h, a);
  }

  /** The colon of a declaration that starts before the end of a text not ending in a name or a quote lies within that text. */
  lemma ColonWithin(s: string, n: nat, h: nat, a: nat)
    requires 0 < n <= |s| && 0 < h <= a < |s| && s[a] == ':'
    requires forall t :: 0 <= t < h ==> IsWordChar(s[t]) || IsQuote(s[t])
    requires forall t :: h <= t < a ==> IsSpace(s[t])
    requires !IsWordChar(s[n - 1]) && !IsQuote(s[n - 1])
    requires n == |s| || IsLetter(s[n]) || IsQuote(s[n])
    ensures a < n
  {
    SpaceIsNotWord();
  }

  /** White space after a colon that ends at a non-space ends at the declaration's brace. */
  lemma BraceAfterColon(s: string, a: nat, b: nat, len: nat)
    requires a < b < |s| && s[b] == '{'
    requires forall t :: a < t < b ==> IsSpace(s[t])
    requires a + 1 + len < |s|
    requires forall t :: a < t < a + 1 + len ==> IsSpace(s[t])
    requires !IsSpace(s[a + 1 + len])
    ensures s[a + 1 + len] == '{'
  {
    SpaceRange();
  }

  /** Quiet text in front of a declaration adds nothing to the scan. */
  lemma {:induction false} ScanSkipsQuiet(q: string, rest: string, p: nat)
    requires Quiet(q) && OpensKey(rest) && p <= |q|
    ensures Scan(q[p..] + rest) == Scan(rest)
    decreases |q| - p
  {
    if p < |q| {
      QuietNoMatch(q, rest, p);
      ScanDropsFirst(q, rest, p);
      ScanSkipsQuiet(q, rest, p + 1);
    } else {
      assert q[p..] + rest == rest;
    }
  }

  /** Where no declaration starts, the scan moves on by one character. */
  lemma ScanDropsFirst(q: string, rest: string, p: nat)
    requires p < |q| && MatchKey(q[p..] + rest).None?
    ensures Scan(q[p..] + rest) == Scan(q[p + 1..] + rest)
  {
    assert (q[p..] + rest)[1..] == q[p + 1..] + rest;
  }

  /**
   One entry of a proposals table: a declaration and the quiet text up to
   the next one (the rest of the version number, other fields such as
   `proposal: '...'`, closing braces, commas, white space).
   */
  datatype Entry = Entry(key: Key, tail: string)

  predicate WellFormedEntry(e: Entry) { WellFormedKey(e.key) && Quiet(e.tail) }

  function Table(entries: seq<Entry>): string
  {
    if entries == [] then [] else Written(entries[0].key, entries[0].tail + Table(entries[1..]))
  }

  function TableNames(entries: seq<Entry>): (names: seq<string>)
    ensures |names| == |entries|
    ensures forall i :: 0 <= i < |entries| ==> names[i] == entries[i].key.name
  {
    if entries == [] then [] else [entries[0].key.name] + TableNames(entries[1..])
  }

  /** A table of declarations, quoted or bare, spaced or minified, scans to exactly its names in order. */
  lemma {:induction false} ScanTable(entries: seq<Entry>)
    requires forall i :: 0 <= i < |entries| ==> WellFormedEntry(entries[i])
    ensures Scan(Table(entries)) == TableNames(entries)
    ensures OpensKey(Table(entries))
  {
    if entries != [] {
      ScanTable(entries[1..]);
      ScanEntry(entries[0], Table(entries[1..]));
    }
  }

  /** One entry in front of text that opens a declaration contributes its name, then the scan goes on with that text. */
  lemma ScanEntry(e: Entry, t: string)
    requires WellFormedEntry(e) && OpensKey(t)
    ensures Scan(Written(e.key, e.tail + t)) == [e.key.name] + Scan(t)
    ensures OpensKey(Written(e.key, e.tail + t))
  {
    MatchKeyRender(e.key, e.tail + t);
    ScanSkipsQuiet(e.tail, t, 0);
    assert e.tail[0..] == e.tail;
    WrittenStart(e.key, e.tail + t);
  }

  /** A written declaration opens with its quote or with the first letter of its name. */
  lemma WrittenStart(k: Key, r: string)
    requires WellFormedKey(k)
    ensures Written(k, r) != [] && (IsLetter(Written(k, r)[0]) || IsQuote(Written(k, r)[0]))
  {
    var w := Written(k, r);
    if k.openQuote == [] {
      assert w == k.name + (k.closeQuote + Spaced(k.gaps, KeyTokens, k.lastGap + ([k.digit] + r)));
      assert w[0] == k.name[0];
    } else {
      assert w[0] == k.openQuote[0];
    }
  }

  /**
   A file of proposal declarations: quiet text in front (a `"use strict"`
   line, an `Object.freeze({` opener, the rest of a bundle) and then a
   table of declarations, the last entry's tail holding whatever follows.
   */
  datatype ProposalsFile = ProposalsFile(preamble: string, entries: seq<Entry>)

  predicate WellFormedFile(f: ProposalsFile)
  {
    Quiet(f.preamble) && forall i :: 0 <= i < |f.entries| ==> WellFormedEntry(f.entries[i])
  }

  function FileText(f: ProposalsFile): string { f.preamble + Table(f.entries) }

  /** A well-formed file scans to exactly the names of its table, in order. */
  lemma ScanFile(f: ProposalsFile)
    requires WellFormedFile(f)
    ensures Scan(FileText(f)) == TableNames(f.entries)
  {
    ScanTable(f.entries);
    ScanSkipsQuiet(f.preamble, Table(f.entries), 0);
    assert f.preamble[0..] == f.preamble;
  }

  lemma DeclaredNames(entries: seq<Entry>)
    ensures (set n | n in TableNames(entries)) == set i | 0 <= i < |entries| :: entries[i].key.name
  {
    var names := TableNames(entries);
    var declared := set i | 0 <= i < |entries| :: entries[i].key.name;
    forall n | n in names ensures n in declared {
      var i :| 0 <= i < |names| && names[i] == n;
    }
    forall i | 0 <= i < |entries| ensures entries[i].key.name in names {
      assert names[i] == entries[i].key.name;
    }
  }

  /** The names a file declares, noise words removed. */
  lemma ExtractFile(f: ProposalsFile)
    requires WellFormedFile(f)
    ensures ExtractNames(FileText(f)) == (set i | 0 <= i < |f.entries| :: f.entries[i].key.name) - NoiseWords
  {
    ScanFile(f);
    DeclaredNames(f.entries);
  }
}
