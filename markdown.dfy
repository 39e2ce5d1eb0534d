/** The Markdown subset renderer of assets/js/news.js (renderMarkdown), whose
    code is repeated character for character in assets/js/blog.js. This module
    is the specification both imperative copies are proved against: the inline
    pass (escaping and four regular-expression substitutions, each written out
    as a left-to-right scanner) and the line-by-line block state machine. */
module Markdown {
  import opened Text
  import opened Wrappers

  // ---------------------------------------------------------------------
  // Escaping: value.replace(/&/g, "&amp;").replace(/</g, "&lt;").replace(/>/g, "&gt;")

  function EscapeHtml(s: string): string {
    ReplaceChar(ReplaceChar(ReplaceChar(s, '&', "&amp;"), '<', "&lt;"), '>', "&gt;")
  }

  /** The escape of one character, as the three passes together treat it. */
  function EscapeChar(c: char): string {
    if c == '&' then "&amp;" else if c == '<' then "&lt;" else if c == '>' then "&gt;" else [c]
  }

  /** One left-to-right pass that escapes each character on its own. */
  function EscapeEach(s: string): string {
    if s == [] then "" else EscapeChar(s[0]) + EscapeEach(s[1..])
  }

  /** The three chained replacements escape each character exactly once: the
      "&amp;" produced for '&' is not escaped again, and "&lt;", "&gt;" are
      produced after the '&' pass. */
  lemma {:induction false} EscapeHtmlIsEscapeEach(s: string)
    ensures EscapeHtml(s) == EscapeEach(s)
  {
    if s != [] {
      assert s == [s[0]] + s[1..];
      ReplaceCharAppend([s[0]], s[1..], '&', "&amp;");
      var r1 := ReplaceChar([s[0]], '&', "&amp;");
      var t1 := ReplaceChar(s[1..], '&', "&amp;");
      ReplaceCharAppend(r1, t1, '<', "&lt;");
      var r2 := ReplaceChar(r1, '<', "&lt;");
      var t2 := ReplaceChar(t1, '<', "&lt;");
      ReplaceCharAppend(r2, t2, '>', "&gt;");
      EscapeCharByPasses(s[0]);
      EscapeHtmlIsEscapeEach(s[1..]);
    }
  }

  lemma EscapeCharByPasses(c: char)
    ensures ReplaceChar(ReplaceChar(ReplaceChar([c], '&', "&amp;"), '<', "&lt;"), '>', "&gt;") == EscapeChar(c)
  {
    ReplaceCharSingle(c, '&', "&amp;");
    var r1 := ReplaceChar([c], '&', "&amp;");
    if c == '&' {
      assert r1 == "&amp;";
      assert ReplaceChar(r1, '<', "&lt;") == "&amp;";
      assert ReplaceChar("&amp;", '>', "&gt;") == "&amp;";
    } else {
      ReplaceCharSingle(c, '<', "&lt;");
      ReplaceCharSingle(c, '>', "&gt;");
      var r2 := ReplaceChar(r1, '<', "&lt;");
      if c == '<' {
        assert r2 == "&lt;";
        assert ReplaceChar("&lt;", '>', "&gt;") == "&lt;";
      } else {
        assert r2 == [c];
      }
    }
  }

  /** Decodes the three entities EscapeHtml writes. */
  function Unescape(t: string): string
    decreases |t|
  {
    if t == [] then ""
    else if StartsWith(t, "&amp;") then "&" + Unescape(t[5..])
    else if StartsWith(t, "&lt;") then "<" + Unescape(t[4..])
    else if StartsWith(t, "&gt;") then ">" + Unescape(t[4..])
    else [t[0]] + Unescape(t[1..])
  }

  /** Escaping loses nothing: decoding the entities gives back the author's text. */
  lemma {:induction false} EscapeRoundTrip(s: string)
    ensures Unescape(EscapeHtml(s)) == s
  {
    EscapeHtmlIsEscapeEach(s);
    EscapeEachRoundTrip(s);
  }

  lemma {:induction false} EscapeEachRoundTrip(s: string)
    ensures Unescape(EscapeEach(s)) == s
  {
    if s != [] {
      UnescapeEscapeChar(s[0], EscapeEach(s[1..]));
      EscapeEachRoundTrip(s[1..]);
      assert [s[0]] + s[1..] == s;
    }
  }

  /** Decoding the escape of one character gives that character back, and
      decoding resumes right after it. */
  lemma UnescapeEscapeChar(c: char, rest: string)
    ensures Unescape(EscapeChar(c) + rest) == [c] + Unescape(rest)
  {
    if c == '&' {
      UnescapeEntity("&amp;", rest);
    } else if c == '<' {
      UnescapeEntity("&lt;", rest);
    } else if c == '>' {
      UnescapeEntity("&gt;", rest);
    } else {
      var t := [c] + rest;
      assert t[0] == c && t[1..] == rest;
    }
  }

  lemma UnescapeEntity(e: string, rest: string)
    requires e == "&amp;" || e == "&lt;" || e == "&gt;"
    ensures Unescape(e + rest) == (if e == "&amp;" then "&" else if e == "&lt;" then "<" else ">") + Unescape(rest)
  {
    var t := e + rest;
    assert t[..|e|] == e && t[|e|..] == rest;
    if e != "&amp;" {
      assert t[1] != 'a';
    }
  }

  /** No '<' or '>' of the author's text is left after escaping. */
  lemma {:induction false} EscapeHasNoAngles(s: string)
    ensures forall i :: 0 <= i < |EscapeHtml(s)| ==> EscapeHtml(s)[i] != '<' && EscapeHtml(s)[i] != '>'
  {
    EscapeHtmlIsEscapeEach(s);
    EscapeEachNoAngles(s);
  }

  lemma {:induction false} EscapeEachNoAngles(s: string)
    ensures forall i :: 0 <= i < |EscapeEach(s)| ==> EscapeEach(s)[i] != '<' && EscapeEach(s)[i] != '>'
  {
    if s != [] {
      EscapeEachNoAngles(s[1..]);
    }
  }

  // ---------------------------------------------------------------------
  // The four substitutions. Each is a global replace: the text is scanned from
  // the left, a match consumes its characters and scanning resumes after it;
  // where no match starts, one character is copied. Matching at a position
  // looks only to the right, so each scanner is written over the remaining
  // suffix t.

  /** The characters '.' does not match in a JavaScript regular expression
      without the s flag. */
  predicate IsLineTerminator(c: char) {
    c == '\n' || c == '\r' || c as int == 0x2028 || c as int == 0x2029
  }

  /** d occurs in t at position j. */
  predicate OccursAt(t: string, j: nat, d: string) {
    j + |d| <= |t| && t[j..j + |d|] == d
  }

  /** No line terminator in t[lo..hi]: '.' matches all of it. */
  predicate NoTerminator(t: string, lo: nat, hi: nat)
    requires lo <= hi <= |t|
  {
    forall i :: lo <= i < hi ==> !IsLineTerminator(t[i])
  }

  /** Lazy search for the closing delimiter of (.+?)d, from position p: the
      nearest p' >= p where d starts, provided no line terminator comes first.
      None means every later occurrence of d has a line terminator before it. */
  function LazyClose(t: string, p: nat, d: string): (k: Option<nat>)
    requires |d| > 0
    ensures k.Some? ==> p <= k.value && OccursAt(t, k.value, d) && NoTerminator(t, p, k.value)
    ensures k.Some? ==> forall j :: p <= j < k.value ==> !OccursAt(t, j, d)
    ensures k.None? ==> forall j :: p <= j && OccursAt(t, j, d) ==> !NoTerminator(t, p, j)
    decreases |t| - p
  {
    if p + |d| <= |t| && t[p..p + |d|] == d then Some(p)
    else if p < |t| && !IsLineTerminator(t[p]) then LazyClose(t, p + 1, d)
    else None
  }

  /** A match of d(.+?)d at the start of t: the index where the closing d
      starts. The captured text t[|d|..k] is never empty and holds no line
      terminator, and k is the nearest occurrence of d after the capture's
      first character; None means no such occurrence exists. */
  function LazyMatch(t: string, d: string): (k: Option<nat>)
    requires |d| > 0
    ensures k.Some? ==> StartsWith(t, d) && |d| < k.value && OccursAt(t, k.value, d)
    ensures k.Some? ==> NoTerminator(t, |d|, k.value) && forall j :: |d| < j < k.value ==> !OccursAt(t, j, d)
    ensures k.None? && StartsWith(t, d) ==> forall j :: |d| < j && OccursAt(t, j, d) ==> !NoTerminator(t, |d|, j)
  {
    if StartsWith(t, d) && |d| < |t| && !IsLineTerminator(t[|d|]) then LazyClose(t, |d| + 1, d) else None
  }

  /** One step of the global replace at the start of t: the text written and
      the number of characters consumed, the whole match or one copied
      character. */
  function LazyStep(t: string, d: string, open: string, close: string): (r: (string, nat))
    requires |d| > 0 && t != []
    ensures 0 < r.1 <= |t|
  {
    match LazyMatch(t, d)
    case Some(k) => (open + t[|d|..k] + close, k + |d|)
    case None => ([t[0]], 1)
  }

  /** output.replace(/DcDc(.+?)DcDc/g, "<tag>$1</tag>") for a delimiter d. */
  function ReplaceLazy(t: string, d: string, open: string, close: string): string
    requires |d| > 0
    decreases |t|
  {
    if t == [] then ""
    else var step := LazyStep(t, d, open, close); step.0 + ReplaceLazy(t[step.1..], d, open, close)
  }

  lemma ReplaceLazyUnfold(t: string, d: string, open: string, close: string, piece: string, n: nat)
    requires |d| > 0 && t != [] && LazyStep(t, d, open, close) == (piece, n)
    ensures ReplaceLazy(t, d, open, close) == piece + ReplaceLazy(t[n..], d, open, close)
  {
  }

  // The regular expression /\*\*(.+?)\*\*/g, replaced by <strong>$1</strong>.
  function Bold(t: string): string {
    ReplaceLazy(t, "**", "<strong>", "</strong>")
  }

  // The regular expression /\*(.+?)\*/g, replaced by <em>$1</em>.
  function Italic(t: string): string {
    ReplaceLazy(t, "*", "<em>", "</em>")
  }

  /** A match of `([^`]+)` at the start of t: the index of the closing backtick.
      The greedy class runs to the first backtick after the opening one,
      which must not be adjacent; None means t does not open with a backtick,
      has no other, or has the next one adjacent. */
  function CodeMatch(t: string): (k: Option<nat>)
    ensures k.Some? ==> 2 <= k.value < |t| && t[0] == '`' && t[k.value] == '`'
    ensures k.Some? ==> forall i :: 1 <= i < k.value ==> t[i] != '`'
    ensures k.None? && t != [] && t[0] == '`' ==> forall j :: 2 <= j < |t| && t[j] == '`' ==> '`' in t[1..j]
  {
    if t != [] && t[0] == '`' then
      match FindChar(t, 1, '`')
      case Some(j) => if j >= 2 then Some(j) else None
      case None => None
    else None
  }

  function CodeStep(t: string): (r: (string, nat))
    requires t != []
    ensures 0 < r.1 <= |t|
  {
    match CodeMatch(t)
    case Some(k) => ("<code>" + t[1..k] + "</code>", k + 1)
    case None => ([t[0]], 1)
  }

  /** /`([^`]+)`/g -> <code>$1</code> */
  function Code(t: string): string
    decreases |t|
  {
    if t == [] then "" else var step := CodeStep(t); step.0 + Code(t[step.1..])
  }

  lemma CodeUnfold(t: string, piece: string, n: nat)
    requires t != [] && CodeStep(t) == (piece, n)
    ensures Code(t) == piece + Code(t[n..])
  {
  }

  /** The pattern \[([^\]]+)]\(([^)]+)\) matches at the start of t with its
      ']' at j and its closing ')' at k. */
  predicate LinkSplit(t: string, j: nat, k: nat) {
    2 <= j && j + 3 <= k < |t| && t[0] == '[' && t[j] == ']' && t[j + 1] == '(' && t[k] == ')'
    && ']' !in t[1..j] && ')' !in t[j + 2..k]
  }

  /** A match of \[([^\]]+)]\(([^)]+)\) at the start of t: the indices of the
      ']' and of the closing ')'. Both classes are greedy and stop at the first
      ']' and the first ')' respectively, so this split is the only one that
      fits, and None means none fits. */
  function LinkMatch(t: string): (m: Option<(nat, nat)>)
    ensures m.Some? ==> LinkSplit(t, m.value.0, m.value.1)
    ensures forall j: nat, k: nat :: LinkSplit(t, j, k) ==> m == Some((j, k))
  {
    if t != [] && t[0] == '[' then
      match FindChar(t, 1, ']')
      case Some(j) =>
        if j >= 2 && j + 1 < |t| && t[j + 1] == '(' then
          match FindChar(t, j + 2, ')')
          case Some(k) => if k >= j + 3 then Some((j, k)) else None
          case None => None
        else None
      case None => None
    else None
  }

  function LinkStep(t: string): (r: (string, nat))
    requires t != []
    ensures 0 < r.1 <= |t|
  {
    match LinkMatch(t)
    case Some((j, k)) => ("<a href=\"" + t[j + 2..k] + "\">" + t[1..j] + "</a>", k + 1)
    case None => ([t[0]], 1)
  }

  /** /\[([^\]]+)]\(([^)]+)\)/g -> <a href="$2">$1</a> */
  function Link(t: string): string
    decreases |t|
  {
    if t == [] then "" else var step := LinkStep(t); step.0 + Link(t[step.1..])
  }

  lemma LinkUnfold(t: string, piece: string, n: nat)
    requires t != [] && LinkStep(t) == (piece, n)
    ensures Link(t) == piece + Link(t[n..])
  {
  }

  /** renderInline: escape first, then bold, italic, code and link, in that order. */
  function RenderInline(text: string): string {
    Link(Code(Italic(Bold(EscapeHtml(text)))))
  }

  // ---------------------------------------------------------------------
  // What survives of the author's '<': every '<' in the output opens one of
  // the tags the renderer writes itself.

  /** The tags renderInline and the block flushes write. */
  const Tags: seq<string> := [
    "<strong>", "</strong>", "<em>", "</em>", "<code>", "</code>", "<a href=\"", "</a>",
    "<p>", "</p>", "<ul>", "</ul>", "<li>", "</li>",
    "<h2>", "</h2>", "<h3>", "</h3>", "<h4>", "</h4>"]

  predicate IsTag(s: string) {
    InTags(s, 0)
  }

  /** s is one of the tags from index k on. */
  predicate InTags(s: string, k: nat)
    decreases |Tags| - k
  {
    k < |Tags| && (Tags[k] == s || InTags(s, k + 1))
  }

  predicate StartsTag(t: string) {
    exists n :: 1 <= n <= |t| && IsTag(t[..n])
  }

  /** Every '<' in s is the first character of a tag the renderer writes. */
  predicate AnglesAreTags(s: string) {
    forall i {:trigger StartsTag(s[i..])} :: 0 <= i < |s| && s[i] == '<' ==> StartsTag(s[i..])
  }

  /** The characters the scanners look for to open or close a match. */
  predicate IsDelimiter(c: char) {
    c == '*' || c == '`' || c == '[' || c == ']' || c == ')'
  }

  lemma {:induction false} InTagsBelow(s: string, j: nat, k: nat)
    requires j <= k < |Tags| && Tags[k] == s
    ensures InTags(s, j)
    decreases k - j
  {
    if j < k {
      InTagsBelow(s, j + 1, k);
    }
  }

  lemma TagAt(k: nat)
    requires k < |Tags|
    ensures IsTag(Tags[k])
  {
    InTagsBelow(Tags[k], 0, k);
  }

  /** The tags renderInline writes are tags. */
  lemma InlineTags()
    ensures IsTag("<strong>") && IsTag("</strong>") && IsTag("<em>") && IsTag("</em>")
    ensures IsTag("<code>") && IsTag("</code>") && IsTag("<a href=\"") && IsTag("</a>")
  {
    TagAt(0); TagAt(1); TagAt(2); TagAt(3); TagAt(4); TagAt(5); TagAt(6); TagAt(7);
  }

  /** The tags the block flushes write are tags. */
  lemma BlockTags()
    ensures IsTag("<p>") && IsTag("</p>") && IsTag("<ul>") && IsTag("</ul>") && IsTag("<li>") && IsTag("</li>")
    ensures IsTag("<h2>") && IsTag("</h2>") && IsTag("<h3>") && IsTag("</h3>") && IsTag("<h4>") && IsTag("</h4>")
  {
    TagAt(8); TagAt(9); TagAt(10); TagAt(11); TagAt(12); TagAt(13);
    TagAt(14); TagAt(15); TagAt(16); TagAt(17); TagAt(18); TagAt(19);
  }

  /** What every tag looks like: a '<' that opens it and no other, and none
      of the characters the scanners look for. */
  predicate TagShaped(s: string) {
    && |s| >= 2 && s[0] == '<'
    && (forall j :: 1 <= j < |s| ==> s[j] != '<')
    && (forall j :: 0 <= j < |s| ==> !IsDelimiter(s[j]))
  }

  lemma AllTagsShaped()
    ensures forall k :: 0 <= k < |Tags| ==> TagShaped(Tags[k])
  {
  }

  lemma {:induction false} TagShapeFrom(s: string, k: nat)
    requires InTags(s, k)
    ensures TagShaped(s)
    decreases |Tags| - k
  {
    if Tags[k] == s {
      AllTagsShaped();
    } else {
      TagShapeFrom(s, k + 1);
    }
  }

  lemma TagShape(s: string)
    requires IsTag(s)
    ensures |s| >= 2 && s[0] == '<'
    ensures forall j :: 1 <= j < |s| ==> s[j] != '<'
    ensures forall j :: 0 <= j < |s| ==> !IsDelimiter(s[j])
  {
    TagShapeFrom(s, 0);
  }

  lemma TagIsTagged(s: string)
    requires IsTag(s)
    ensures AnglesAreTags(s)
  {
    TagShape(s);
    assert s[0..][..|s|] == s;
  }

  lemma {:induction false} AnglesAreTagsAppend(a: string, b: string)
    requires AnglesAreTags(a) && AnglesAreTags(b)
    ensures AnglesAreTags(a + b)
  {
    forall i | 0 <= i < |a + b| && (a + b)[i] == '<' ensures StartsTag((a + b)[i..]) {
      if i < |a| {
        assert StartsTag(a[i..]);
        var n :| 1 <= n <= |a[i..]| && IsTag(a[i..][..n]);
        assert (a + b)[i..][..n] == a[i..][..n];
      } else {
        assert (a + b)[i..] == b[i - |a|..];
      }
    }
  }

  lemma AnglesAreTagsSuffix(t: string, lo: nat)
    requires AnglesAreTags(t) && lo <= |t|
    ensures AnglesAreTags(t[lo..])
  {
    forall i | 0 <= i < |t[lo..]| && t[lo..][i] == '<' ensures StartsTag(t[lo..][i..]) {
      assert t[lo..][i..] == t[lo + i..];
    }
  }

  /** A slice that ends just before a delimiter does not cut a tag, since no tag
      contains a delimiter. */
  lemma AnglesAreTagsInfix(t: string, lo: nat, hi: nat)
    requires AnglesAreTags(t) && lo <= hi < |t| && IsDelimiter(t[hi])
    ensures AnglesAreTags(t[lo..hi])
  {
    forall i | 0 <= i < |t[lo..hi]| && t[lo..hi][i] == '<' ensures StartsTag(t[lo..hi][i..]) {
      InfixAt(t, lo, hi, i);
    }
  }

  lemma InfixAt(t: string, lo: nat, hi: nat, i: nat)
    requires AnglesAreTags(t) && lo + i < hi < |t| && IsDelimiter(t[hi]) && t[lo + i] == '<'
    ensures StartsTag(t[lo..hi][i..])
  {
    var m := lo + i;
    assert StartsTag(t[m..]);
    var n :| 1 <= n <= |t[m..]| && IsTag(t[m..][..n]);
    TagBeforeDelimiter(t, m, n, hi);
    var u := t[lo..hi][i..];
    assert u == t[m..hi];
    assert u[..n] == t[m..][..n];
  }

  /** A tag that starts at m, before a delimiter at hi, ends before hi. */
  lemma TagBeforeDelimiter(t: string, m: nat, n: nat, hi: nat)
    requires m <= hi < |t| && m + n <= |t| && IsTag(t[m..][..n]) && IsDelimiter(t[hi])
    ensures m + n <= hi
  {
    var tag := t[m..][..n];
    TagShape(tag);
    forall j | m <= j < m + n
      ensures !IsDelimiter(t[j])
    {
      assert t[j] == tag[j - m];
    }
  }

  /** A '<' at the start of t opens a tag, so t splits as that tag and the rest. */
  lemma SplitTag(t: string) returns (tag: string)
    requires AnglesAreTags(t) && t != [] && t[0] == '<'
    ensures IsTag(tag) && 2 <= |tag| <= |t| && t == tag + t[|tag|..]
    ensures AnglesAreTags(tag) && AnglesAreTags(t[|tag|..])
    ensures !('*' in tag) && !('`' in tag) && !('[' in tag)
  {
    assert t[0..] == t;
    assert StartsTag(t[0..]);
    var n :| 1 <= n <= |t| && IsTag(t[..n]);
    tag := t[..n];
    assert t == tag + t[n..];
    TagShape(tag);
    TagIsTagged(tag);
    AnglesAreTagsSuffix(t, n);
  }

  /** Text without the opening delimiter is copied through unchanged. */
  lemma {:induction false} ReplaceLazyCopies(p: string, r: string, d: string, open: string, close: string)
    requires |d| > 0 && !(d[0] in p)
    ensures ReplaceLazy(p + r, d, open, close) == p + ReplaceLazy(r, d, open, close)
  {
    if p == [] {
      assert p + r == r;
    } else {
      var t := p + r;
      ConsAppend(p, r);
      ReplaceLazyCopyAt(t, d, open, close);
      ReplaceLazyCopies(p[1..], r, d, open, close);
      ConsAppend(p, ReplaceLazy(r, d, open, close));
    }
  }

  lemma {:induction false} ReplaceLazyKeepsTags(t: string, d: string, open: string, close: string)
    requires |d| > 0 && d[0] == '*' && IsTag(open) && IsTag(close) && AnglesAreTags(t)
    ensures AnglesAreTags(ReplaceLazy(t, d, open, close))
    decreases |t|
  {
    if t != [] {
      match LazyMatch(t, d)
      case Some(k) =>
        AnglesAreTagsSuffix(t, k + |d|);
        ReplaceLazyKeepsTags(t[k + |d|..], d, open, close);
        ReplaceLazyMatchTagged(t, d, open, close, k);
      case None =>
        if t[0] == '<' {
          var tag := SplitTag(t);
          ReplaceLazyKeepsTags(t[|tag|..], d, open, close);
          ReplaceLazyCopiesTag(t, tag, d, open, close);
        } else {
          AnglesAreTagsSuffix(t, 1);
          ReplaceLazyKeepsTags(t[1..], d, open, close);
          ReplaceLazyCopyAt(t, d, open, close);
          CharTagged(t[0], ReplaceLazy(t[1..], d, open, close));
        }
    }
  }

  lemma ReplaceLazyMatchTagged(t: string, d: string, open: string, close: string, k: nat)
    requires |d| > 0 && d[0] == '*' && IsTag(open) && IsTag(close) && AnglesAreTags(t)
    requires t != [] && LazyMatch(t, d) == Some(k) && AnglesAreTags(ReplaceLazy(t[k + |d|..], d, open, close))
    ensures AnglesAreTags(ReplaceLazy(t, d, open, close))
  {
    assert t[k] == t[k..k + |d|][0];
    AnglesAreTagsInfix(t, |d|, k);
    ReplaceLazyAt(t, d, open, close, k);
    WrapTagged(open, t[|d|..k], close, ReplaceLazy(t[k + |d|..], d, open, close));
  }

  /** Where the delimiters match, the captured text is wrapped in the tags. */
  lemma ReplaceLazyAt(t: string, d: string, open: string, close: string, k: nat)
    requires |d| > 0 && LazyMatch(t, d) == Some(k)
    ensures ReplaceLazy(t, d, open, close) == open + t[|d|..k] + close + ReplaceLazy(t[k + |d|..], d, open, close)
  {
    var piece := open + t[|d|..k] + close;
    assert t != [];
    assert LazyStep(t, d, open, close) == (piece, k + |d|);
    ReplaceLazyUnfold(t, d, open, close, piece, k + |d|);
  }

  /** Where no match starts, one character is copied. */
  lemma ReplaceLazyCopyAt(t: string, d: string, open: string, close: string)
    requires |d| > 0 && t != [] && (t[0] != d[0] || LazyMatch(t, d).None?)
    ensures ReplaceLazy(t, d, open, close) == [t[0]] + ReplaceLazy(t[1..], d, open, close)
  {
    assert LazyMatch(t, d).None?;
    assert LazyStep(t, d, open, close) == ([t[0]], 1);
    ReplaceLazyUnfold(t, d, open, close, [t[0]], 1);
  }

  lemma ReplaceLazyCopiesTag(t: string, tag: string, d: string, open: string, close: string)
    requires |d| > 0 && d[0] == '*' && |tag| <= |t| && t == tag + t[|tag|..] && !('*' in tag)
    requires AnglesAreTags(tag) && AnglesAreTags(ReplaceLazy(t[|tag|..], d, open, close))
    ensures AnglesAreTags(ReplaceLazy(t, d, open, close))
  {
    ReplaceLazyCopies(tag, t[|tag|..], d, open, close);
    AnglesAreTagsAppend(tag, ReplaceLazy(t[|tag|..], d, open, close));
  }

  /** A character other than '<' in front of tagged text. */
  lemma CharTagged(c: char, rest: string)
    requires c != '<' && AnglesAreTags(rest)
    ensures AnglesAreTags([c] + rest)
  {
    AnglesAreTagsAppend([c], rest);
  }

  /** Tagged text between two tags, in front of tagged text. */
  lemma WrapTagged(open: string, mid: string, close: string, rest: string)
    requires IsTag(open) && IsTag(close) && AnglesAreTags(mid) && AnglesAreTags(rest)
    ensures AnglesAreTags(open + mid + close + rest)
  {
    TagIsTagged(open);
    TagIsTagged(close);
    AnglesAreTags3(open, mid, close);
    AnglesAreTagsAppend(open + mid + close, rest);
  }

  lemma {:induction false} CodeCopies(p: string, r: string)
    requires !('`' in p)
    ensures Code(p + r) == p + Code(r)
  {
    if p == [] {
      assert p + r == r;
    } else {
      var t := p + r;
      ConsAppend(p, r);
      CodeCopyAt(t);
      CodeCopies(p[1..], r);
      ConsAppend(p, Code(r));
    }
  }

  lemma {:induction false} CodeKeepsTags(t: string)
    requires AnglesAreTags(t)
    ensures AnglesAreTags(Code(t))
    decreases |t|
  {
    if t != [] {
      match CodeMatch(t)
      case Some(k) =>
        AnglesAreTagsSuffix(t, k + 1);
        CodeKeepsTags(t[k + 1..]);
        CodeMatchTagged(t, k);
      case None =>
        if t[0] == '<' {
          var tag := SplitTag(t);
          CodeKeepsTags(t[|tag|..]);
          CodeCopiesTag(t, tag);
        } else {
          AnglesAreTagsSuffix(t, 1);
          CodeKeepsTags(t[1..]);
          CodeCopyAt(t);
          CharTagged(t[0], Code(t[1..]));
        }
    }
  }

  lemma CodeMatchTagged(t: string, k: nat)
    requires AnglesAreTags(t) && CodeMatch(t) == Some(k) && AnglesAreTags(Code(t[k + 1..]))
    ensures AnglesAreTags(Code(t))
  {
    AnglesAreTagsInfix(t, 1, k);
    InlineTags();
    CodeAt(t, k);
    WrapTagged("<code>", t[1..k], "</code>", Code(t[k + 1..]));
  }

  /** Where a code span matches, it is wrapped in the code tags. */
  lemma CodeAt(t: string, k: nat)
    requires CodeMatch(t) == Some(k)
    ensures Code(t) == "<code>" + t[1..k] + "</code>" + Code(t[k + 1..])
  {
    var piece := "<code>" + t[1..k] + "</code>";
    assert CodeStep(t) == (piece, k + 1);
    CodeUnfold(t, piece, k + 1);
  }

  /** Where no code span starts, one character is copied. */
  lemma CodeCopyAt(t: string)
    requires t != [] && (t[0] != '`' || CodeMatch(t).None?)
    ensures Code(t) == [t[0]] + Code(t[1..])
  {
    assert CodeMatch(t).None?;
    assert CodeStep(t) == ([t[0]], 1);
    CodeUnfold(t, [t[0]], 1);
  }

  lemma CodeCopiesTag(t: string, tag: string)
    requires |tag| <= |t| && t == tag + t[|tag|..] && !('`' in tag)
    requires AnglesAreTags(tag) && AnglesAreTags(Code(t[|tag|..]))
    ensures AnglesAreTags(Code(t))
  {
    CodeCopies(tag, t[|tag|..]);
    AnglesAreTagsAppend(tag, Code(t[|tag|..]));
  }

  lemma {:induction false} LinkCopies(p: string, r: string)
    requires !('[' in p)
    ensures Link(p + r) == p + Link(r)
  {
    if p == [] {
      assert p + r == r;
    } else {
      var t := p + r;
      ConsAppend(p, r);
      LinkCopyAt(t);
      LinkCopies(p[1..], r);
      ConsAppend(p, Link(r));
    }
  }

  lemma {:induction false} LinkKeepsTags(t: string)
    requires AnglesAreTags(t)
    ensures AnglesAreTags(Link(t))
    decreases |t|
  {
    if t != [] {
      match LinkMatch(t)
      case Some((j, k)) =>
        AnglesAreTagsSuffix(t, k + 1);
        LinkKeepsTags(t[k + 1..]);
        LinkMatchTagged(t, j, k);
      case None =>
        if t[0] == '<' {
          var tag := SplitTag(t);
          LinkKeepsTags(t[|tag|..]);
          LinkCopiesTag(t, tag);
        } else {
          AnglesAreTagsSuffix(t, 1);
          LinkKeepsTags(t[1..]);
          LinkCopyAt(t);
          CharTagged(t[0], Link(t[1..]));
        }
    }
  }

  lemma LinkMatchTagged(t: string, j: nat, k: nat)
    requires AnglesAreTags(t) && LinkMatch(t) == Some((j, k)) && AnglesAreTags(Link(t[k + 1..]))
    ensures AnglesAreTags(Link(t))
  {
    AnglesAreTagsInfix(t, j + 2, k);
    AnglesAreTagsInfix(t, 1, j);
    LinkAt(t, j, k);
    AnchorTagged(t[j + 2..k], t[1..j], Link(t[k + 1..]));
  }

  /** Where a link matches, it is replaced by the anchor. */
  lemma LinkAt(t: string, j: nat, k: nat)
    requires LinkMatch(t) == Some((j, k))
    ensures Link(t) == "<a href=\"" + t[j + 2..k] + "\">" + t[1..j] + "</a>" + Link(t[k + 1..])
  {
    var piece := "<a href=\"" + t[j + 2..k] + "\">" + t[1..j] + "</a>";
    assert LinkStep(t) == (piece, k + 1);
    LinkUnfold(t, piece, k + 1);
  }

  /** Where no link starts, one character is copied. */
  lemma LinkCopyAt(t: string)
    requires t != [] && (t[0] != '[' || LinkMatch(t).None?)
    ensures Link(t) == [t[0]] + Link(t[1..])
  {
    assert LinkMatch(t).None?;
    assert LinkStep(t) == ([t[0]], 1);
    LinkUnfold(t, [t[0]], 1);
  }

  /** The anchor the link substitution writes, in front of tagged text. */
  lemma AnchorTagged(url: string, text: string, rest: string)
    requires AnglesAreTags(url) && AnglesAreTags(text) && AnglesAreTags(rest)
    ensures AnglesAreTags("<a href=\"" + url + "\">" + text + "</a>" + rest)
  {
    assert AnglesAreTags("\">");
    AnglesAreTagsAppend(url, "\">");
    AnglesAreTagsAppend(url + "\">", text);
    InlineTags();
    WrapTagged("<a href=\"", url + "\">" + text, "</a>", rest);
    assert "<a href=\"" + (url + "\">" + text) + "</a>" + rest == "<a href=\"" + url + "\">" + text + "</a>" + rest;
  }

  lemma LinkCopiesTag(t: string, tag: string)
    requires |tag| <= |t| && t == tag + t[|tag|..] && !('[' in tag)
    requires AnglesAreTags(tag) && AnglesAreTags(Link(t[|tag|..]))
    ensures AnglesAreTags(Link(t))
  {
    LinkCopies(tag, t[|tag|..]);
    AnglesAreTagsAppend(tag, Link(t[|tag|..]));
  }

  /** No '<' the author wrote reaches the output as markup: after renderInline
      every '<' opens a tag the renderer itself wrote. */
  lemma RenderInlineKeepsAnglesInTags(text: string)
    ensures AnglesAreTags(RenderInline(text))
  {
    EscapeHasNoAngles(text);
    var e := EscapeHtml(text);
    InlineTags();
    ReplaceLazyKeepsTags(e, "**", "<strong>", "</strong>");
    ReplaceLazyKeepsTags(Bold(e), "*", "<em>", "</em>");
    CodeKeepsTags(Italic(Bold(e)));
    LinkKeepsTags(Code(Italic(Bold(e))));
  }

  /** Text with none of the characters the inline pass reacts to is rendered as it is. */
  predicate IsPlainInline(s: string) {
    forall i :: 0 <= i < |s| ==> !(s[i] in "&<>*`[")
  }

  lemma {:induction false} EscapeEachPlain(s: string)
    requires IsPlainInline(s)
    ensures EscapeEach(s) == s
  {
    if s != [] {
      EscapeEachPlain(s[1..]);
      assert [s[0]] + s[1..] == s;
    }
  }

  lemma RenderInlinePlain(s: string)
    requires IsPlainInline(s)
    ensures RenderInline(s) == s
  {
    EscapeHtmlIsEscapeEach(s);
    EscapeEachPlain(s);
    assert s + "" == s;
    ReplaceLazyCopies(s, "", "**", "<strong>", "</strong>");
    ReplaceLazyCopies(s, "", "*", "<em>", "</em>");
    CodeCopies(s, "");
    LinkCopies(s, "");
  }

  // ---------------------------------------------------------------------
  // Blocks. The renderer keeps three buffers: the blocks written so far, the
  // lines of the open paragraph and the items of the open bullet list.

  datatype Buffers = Buffers(blocks: seq<string>, paragraph: seq<string>, listItems: seq<string>)

  const Start := Buffers([], [], [])

  /** The block flushParagraph writes: the lines joined with one space. */
  function ParagraphBlock(paragraph: seq<string>): string {
    "<p>" + RenderInline(Join(paragraph, " ")) + "</p>"
  }

  /** listItems.map((item) => `<li>${renderInline(item)}</li>`).join("") */
  function ListItems(items: seq<string>): string {
    if items == [] then "" else "<li>" + RenderInline(items[0]) + "</li>" + ListItems(items[1..])
  }

  /** The block flushList writes. */
  function ListBlock(items: seq<string>): string {
    "<ul>" + ListItems(items) + "</ul>"
  }

  function FlushParagraph(b: Buffers): Buffers {
    if |b.paragraph| > 0 then Buffers(b.blocks + [ParagraphBlock(b.paragraph)], [], b.listItems) else b
  }

  function FlushList(b: Buffers): Buffers {
    if |b.listItems| > 0 then Buffers(b.blocks + [ListBlock(b.listItems)], b.paragraph, []) else b
  }

  /** flushParagraph(); flushList(); -- always in this order. */
  function Flush(b: Buffers): (r: Buffers)
    ensures r.paragraph == [] && r.listItems == []
  {
    FlushList(FlushParagraph(b))
  }

  function Emit(b: Buffers, block: string): Buffers {
    b.(blocks := b.blocks + [block])
  }

  predicate IsBullet(trimmed: string) {
    StartsWith(trimmed, "- ") || StartsWith(trimmed, "* ")
  }

  /** A line that renderMarkdown appends to the open paragraph: not blank, not
      an image, not a heading and not a bullet item. */
  predicate IsParagraphLine(line: string) {
    var trimmed := Trim(line);
    trimmed != "" && !StartsWith(trimmed, "![") && !StartsWith(trimmed, "### ")
    && !StartsWith(trimmed, "## ") && !StartsWith(trimmed, "# ") && !IsBullet(trimmed)
  }

  /** What the forEach callback does with one line: it trims the line and
      looks only at the trimmed text. */
  function Step(b: Buffers, line: string): Buffers {
    StepTrimmed(b, Trim(line))
  }

  function StepTrimmed(b: Buffers, trimmed: string): Buffers {
    if trimmed == "" then Flush(b)
    else if StartsWith(trimmed, "![") then b
    else if StartsWith(trimmed, "### ") then Emit(Flush(b), "<h4>" + RenderInline(trimmed[4..]) + "</h4>")
    else if StartsWith(trimmed, "## ") then Emit(Flush(b), "<h3>" + RenderInline(trimmed[3..]) + "</h3>")
    else if StartsWith(trimmed, "# ") then Emit(Flush(b), "<h2>" + RenderInline(trimmed[2..]) + "</h2>")
    else if IsBullet(trimmed) then
      var f := FlushParagraph(b);
      f.(listItems := f.listItems + [trimmed[2..]])
    else b.(paragraph := b.paragraph + [trimmed])
  }

  /** The lines processed in order from the buffers b. */
  function Run(b: Buffers, lines: seq<string>): Buffers
    decreases |lines|
  {
    if lines == [] then b else Run(Step(b, lines[0]), lines[1..])
  }

  /** All lines, then the final flushes, then blocks.join(""). */
  function RenderLines(lines: seq<string>): string {
    Concat(Flush(Run(Start, lines)).blocks)
  }

  /** renderMarkdown: an empty (falsy) input gives ""; otherwise the carriage
      returns are removed and the text is split into lines at "\n". */
  function Render(markdown: string): string {
    if markdown == "" then "" else RenderLines(Split(RemoveChar(markdown, '\r'), '\n'))
  }

  // ---------------------------------------------------------------------
  // The whole output: every '<' in it opens a tag the renderer wrote.

  lemma AnglesAreTags3(a: string, b: string, c: string)
    requires AnglesAreTags(a) && AnglesAreTags(b) && AnglesAreTags(c)
    ensures AnglesAreTags(a + b + c)
  {
    AnglesAreTagsAppend(a, b);
    AnglesAreTagsAppend(a + b, c);
  }

  lemma {:induction false} ListItemsTagged(items: seq<string>)
    ensures AnglesAreTags(ListItems(items))
  {
    if items != [] {
      BlockTags();
      TagIsTagged("<li>");
      TagIsTagged("</li>");
      RenderInlineKeepsAnglesInTags(items[0]);
      ListItemsTagged(items[1..]);
      AnglesAreTags3("<li>", RenderInline(items[0]), "</li>");
      AnglesAreTagsAppend("<li>" + RenderInline(items[0]) + "</li>", ListItems(items[1..]));
    }
  }

  predicate BlocksTagged(b: Buffers) {
    forall i :: 0 <= i < |b.blocks| ==> AnglesAreTags(b.blocks[i])
  }

  lemma EmitTagged(b: Buffers, open: string, text: string, close: string)
    requires BlocksTagged(b) && IsTag(open) && IsTag(close)
    ensures BlocksTagged(Emit(b, open + RenderInline(text) + close))
  {
    TagIsTagged(open);
    TagIsTagged(close);
    RenderInlineKeepsAnglesInTags(text);
    AnglesAreTags3(open, RenderInline(text), close);
  }

  lemma FlushTagged(b: Buffers)
    requires BlocksTagged(b)
    ensures BlocksTagged(FlushParagraph(b)) && BlocksTagged(Flush(b))
  {
    BlockTags();
    if |b.paragraph| > 0 {
      EmitTagged(b, "<p>", Join(b.paragraph, " "), "</p>");
    }
    var f := FlushParagraph(b);
    if |f.listItems| > 0 {
      BlockTags();
      TagIsTagged("<ul>");
      TagIsTagged("</ul>");
      ListItemsTagged(f.listItems);
      AnglesAreTags3("<ul>", ListItems(f.listItems), "</ul>");
    }
  }

  lemma StepTagged(b: Buffers, line: string)
    requires BlocksTagged(b)
    ensures BlocksTagged(Step(b, line))
  {
    FlushTagged(b);
    BlockTags();
    var trimmed := Trim(line);
    if trimmed != "" && !StartsWith(trimmed, "![") {
      if StartsWith(trimmed, "### ") {
        EmitTagged(Flush(b), "<h4>", trimmed[4..], "</h4>");
      } else if StartsWith(trimmed, "## ") {
        EmitTagged(Flush(b), "<h3>", trimmed[3..], "</h3>");
      } else if StartsWith(trimmed, "# ") {
        EmitTagged(Flush(b), "<h2>", trimmed[2..], "</h2>");
      }
    }
  }

  lemma {:induction false} RunTagged(b: Buffers, lines: seq<string>)
    requires BlocksTagged(b)
    ensures BlocksTagged(Run(b, lines))
    decreases |lines|
  {
    if lines != [] {
      StepTagged(b, lines[0]);
      RunTagged(Step(b, lines[0]), lines[1..]);
    }
  }

  lemma {:induction false} ConcatTagged(blocks: seq<string>)
    requires forall i :: 0 <= i < |blocks| ==> AnglesAreTags(blocks[i])
    ensures AnglesAreTags(Concat(blocks))
  {
    if blocks != [] {
      ConcatTagged(blocks[1..]);
      AnglesAreTagsAppend(blocks[0], Concat(blocks[1..]));
    }
  }

  /** No '<' of the author's Markdown survives as markup: every '<' in the
      rendered output opens one of the tags the renderer writes. */
  lemma RenderKeepsAnglesInTags(markdown: string)
    ensures AnglesAreTags(Render(markdown))
  {
    if markdown != "" {
      var lines := Split(RemoveChar(markdown, '\r'), '\n');
      RunTagged(Start, lines);
      FlushTagged(Run(Start, lines));
      ConcatTagged(Flush(Run(Start, lines)).blocks);
    }
  }
}
