/** scripts/normalize-html-asset-paths.py: every HTML page of the site is
    rewritten so that its stylesheet, script and image references climb from
    the page's directory to the site root. The directory walk, reading and
    writing files and the final report line are I/O: the walk's listing and
    the text of each file are arguments, and the files written are returned
    as a list together with the two counters. */
module AssetPaths {
  import opened Wrappers
  import opened Text
  import opened Seqs

  /** A path relative to the site root, as its components (Path.parts). */
  type RelPath = seq<string>

  // ---------------------------------------------------------------------
  // html_files

  /** Pages under .git or admin are never touched. */
  predicate Skipped(rel: RelPath) {
    |rel| > 0 && (rel[0] == ".git" || rel[0] == "admin")
  }

  function IsKept(): RelPath -> bool {
    rel => !Skipped(rel)
  }

  /** html_files: the paths root.rglob("*.html") lists, in its order, without
      the skipped ones. */
  method HtmlFiles(listing: seq<RelPath>) returns (files: seq<RelPath>)
    ensures files == Filter(listing, IsKept())
  {
    files := [];
    var i := 0;
    while i < |listing|
      invariant 0 <= i <= |listing|
      invariant files == Filter(listing[..i], IsKept())
    {
      var rel := listing[i];
      assert listing[..i + 1][..i] == listing[..i];
      if !Skipped(rel) {
        files := files + [rel];
      }
      i := i + 1;
    }
    assert listing[..i] == listing;
  }

  /** Exactly the listed pages outside .git and admin are processed. */
  lemma HtmlFilesSkip(listing: seq<RelPath>)
    ensures forall rel :: rel in Filter(listing, IsKept()) <==> rel in listing && !Skipped(rel)
  {
    forall rel
      ensures rel in Filter(listing, IsKept()) <==> rel in listing && !Skipped(rel)
    {
      var f := Filter(listing, IsKept());
      if rel in listing && !Skipped(rel) {
        var i :| 0 <= i < |listing| && listing[i] == rel;
      }
      if rel in f {
        var i :| 0 <= i < |f| && f[i] == rel;
      }
    }
  }

  // ---------------------------------------------------------------------
  // depth_prefix

  /** max(0, n - 1). */
  function Depth(rel: RelPath): nat {
    if |rel| == 0 then 0 else |rel| - 1
  }

  /** depth_prefix: "../" once for each directory the page lies in. */
  function DepthPrefix(rel: RelPath): (r: string)
    ensures |r| == 3 * Depth(rel)
  {
    Repeat("../", Depth(rel))
  }

  /** How a browser resolves the leading "../" steps of a relative URL from
      the directory dir: each step leaves one directory, and the root is its
      own parent. The result is the directory reached and the rest of the URL. */
  function Climb(dir: seq<string>, url: string): (seq<string>, string)
    decreases |url|
  {
    if StartsWith(url, "../") then Climb(if dir == [] then [] else dir[..|dir| - 1], url[3..]) else (dir, url)
  }

  lemma {:induction false} RepeatClimbs(dir: seq<string>, url: string)
    requires !StartsWith(url, "../")
    ensures Climb(dir, Repeat("../", |dir|) + url) == ([], url)
    decreases |dir|
  {
    if dir == [] {
      assert Repeat("../", 0) + url == url;
    } else {
      var rest := Repeat("../", |dir| - 1) + url;
      var s := Repeat("../", |dir|) + url;
      assert s == "../" + rest;
      assert s[..3] == "../" && s[3..] == rest;
      RepeatClimbs(dir[..|dir| - 1], url);
    }
  }

  /** The prefix leads from the page's directory to the site root, so the
      rewritten reference names the root's own asset. */
  lemma PrefixReachesRoot(rel: RelPath, url: string)
    requires |rel| > 0 && !StartsWith(url, "../")
    ensures Climb(rel[..|rel| - 1], DepthPrefix(rel) + url) == ([], url)
  {
    RepeatClimbs(rel[..|rel| - 1], url);
  }

  // ---------------------------------------------------------------------
  // normalize_content: three re.sub passes. Each pattern starts with the
  // attribute name and its opening quote, refuses a value that starts with
  // http:// or https:// (the lookahead (?!https?://)) and, since [^"]*
  // cannot cross a quote, reads the value up to the first closing quote.

  datatype Rule =
    | Stylesheet  // href="(?!https?://)[^"]*css/main\.css"
    | Script      // src="(?!https?://)[^"]*assets/js/([a-zA-Z0-9_.-]+\.js)"
    | Image       // src="(?!https?://)[^"]*assets/img/([^"]+)"

  function Attr(rule: Rule): string {
    if rule == Stylesheet then "href=\"" else "src=\""
  }

  predicate IsRemote(s: string) {
    StartsWith(s, "http://") || StartsWith(s, "https://")
  }

  predicate NoQuote(v: string) {
    forall i :: 0 <= i < |v| ==> v[i] != '"'
  }

  /** The stylesheet value ends in css/main.css; it becomes prefix + css/main.css. */
  function StylesheetTarget(v: string, prefix: string): (r: Option<string>)
    ensures r.Some? <==> EndsWith(v, "css/main.css")
    ensures r.Some? ==> r.value == prefix + "css/main.css"
  {
    if EndsWith(v, "css/main.css") then Some(prefix + "css/main.css") else None
  }

  /** The class [a-zA-Z0-9_.-]. */
  predicate IsNameChar(c: char) {
    ('a' <= c <= 'z') || ('A' <= c <= 'Z') || ('0' <= c <= '9') || c == '_' || c == '.' || c == '-'
  }

  /** [a-zA-Z0-9_.-]+\.js */
  predicate IsScriptName(s: string) {
    |s| > 3 && EndsWith(s, ".js") && forall i :: 0 <= i < |s| - 3 ==> IsNameChar(s[i])
  }

  /** What follows the last '/' of v, all of v when it has none. */
  function LastSegment(v: string): (s: string)
    ensures |s| <= |v| && s == v[|v| - |s|..]
    ensures forall i :: 0 <= i < |s| ==> s[i] != '/'
    ensures |s| < |v| ==> v[|v| - |s| - 1] == '/'
  {
    if v == [] || v[|v| - 1] == '/' then "" else LastSegment(v[..|v| - 1]) + [v[|v| - 1]]
  }

  /** The value ends in assets/js/ and a script name starting at k + 10. */
  predicate ScriptSplit(v: string, k: nat) {
    k + 10 <= |v| && v[k..k + 10] == "assets/js/" && IsScriptName(v[k + 10..])
  }

  /** No slash can be part of a script name, so the name is what follows the
      last '/': the only split the pattern can use. */
  function ScriptTarget(v: string, prefix: string): Option<string> {
    var s := LastSegment(v);
    if |s| + 10 <= |v| && v[|v| - |s| - 10..|v| - |s|] == "assets/js/" && IsScriptName(s)
    then Some(prefix + "assets/js/" + s) else None
  }

  /** The value holds assets/img/ at k with at least one character after it. */
  predicate ImageSplit(v: string, k: nat) {
    k + 11 < |v| && v[k..k + 11] == "assets/img/"
  }

  /** The last split at or before k; the greedy [^"]* takes the longest prefix. */
  function LastImageSplit(v: string, k: nat): (r: Option<nat>)
    ensures r.Some? ==> r.value <= k && ImageSplit(v, r.value)
    ensures r.Some? ==> forall j :: r.value < j <= k ==> !ImageSplit(v, j)
    ensures r.None? ==> forall j :: 0 <= j <= k ==> !ImageSplit(v, j)
    decreases k
  {
    if ImageSplit(v, k) then Some(k) else if k == 0 then None else LastImageSplit(v, k - 1)
  }

  function ImageTarget(v: string, prefix: string): Option<string> {
    match LastImageSplit(v, |v|)
    case Some(k) => Some(prefix + "assets/img/" + v[k + 11..])
    case None => None
  }

  /** The new value a rule writes for the value v, or None when its pattern
      does not match v. */
  function Target(rule: Rule, v: string, prefix: string): Option<string> {
    match rule
    case Stylesheet => StylesheetTarget(v, prefix)
    case Script => ScriptTarget(v, prefix)
    case Image => ImageTarget(v, prefix)
  }

  /** A match of the rule's pattern at the start of t: what replaces it and
      how many characters it covers. */
  function AttrMatch(t: string, rule: Rule, prefix: string): (m: Option<(string, nat)>)
    ensures m.Some? ==> |Attr(rule)| < m.value.1 <= |t| && t[..|Attr(rule)|] == Attr(rule) && t[m.value.1 - 1] == '"'
  {
    var a := Attr(rule);
    if StartsWith(t, a) && !IsRemote(t[|a|..]) then
      match FindChar(t, |a|, '"')
      case Some(q) =>
        (match Target(rule, t[|a|..q], prefix)
         case Some(w) => Some((a + w + "\"", q + 1))
         case None => None)
      case None => None
    else None
  }

  /** One step of re.sub: the replacement of a match, or one copied character. */
  function SubStep(t: string, rule: Rule, prefix: string): (r: (string, nat))
    requires t != []
    ensures 0 < r.1 <= |t|
  {
    match AttrMatch(t, rule, prefix)
    case Some(m) => m
    case None => ([t[0]], 1)
  }

  /** re.sub of one rule over the whole text. */
  function Sub(t: string, rule: Rule, prefix: string): string
    decreases |t|
  {
    if t == [] then "" else var step := SubStep(t, rule, prefix); step.0 + Sub(t[step.1..], rule, prefix)
  }

  /** normalize_content: the stylesheet, script and image passes in this order. */
  function NormalizeContent(content: string, prefix: string): string {
    Sub(Sub(Sub(content, Stylesheet, prefix), Script, prefix), Image, prefix)
  }

  lemma SubUnfold(t: string, rule: Rule, prefix: string, piece: string, n: nat)
    requires t != [] && SubStep(t, rule, prefix) == (piece, n)
    ensures Sub(t, rule, prefix) == piece + Sub(t[n..], rule, prefix)
  {
  }

  // ---------------------------------------------------------------------
  // What each pattern matches.

  /** The lookahead sees the value: a quote cannot occur inside http:// or https://. */
  lemma RemoteValue(v: string, rest: string)
    requires NoQuote(v)
    ensures IsRemote(v + "\"" + rest) <==> IsRemote(v)
  {
    var s := v + "\"" + rest;
    assert s[|v|] == '"';
    if |v| >= 7 {
      assert s[..7] == v[..7];
    }
    if |v| >= 8 {
      assert s[..8] == v[..8];
    }
    if |v| < 7 && |s| >= 7 {
      assert s[..7][|v|] == '"';
    }
    if |v| < 8 && |s| >= 8 {
      assert s[..8][|v|] == '"';
    }
  }

  /** At an attribute whose value v is followed by its closing quote, the
      pattern matches exactly when v is not remote and the rule's target
      exists, and the match covers the attribute, v and the quote. */
  lemma AttrMatchAt(rule: Rule, v: string, rest: string, prefix: string)
    requires NoQuote(v)
    ensures AttrMatch(Attr(rule) + v + "\"" + rest, rule, prefix)
      == if IsRemote(v) || Target(rule, v, prefix).None? then None
         else Some((Attr(rule) + Target(rule, v, prefix).value + "\"", |Attr(rule)| + |v| + 1))
  {
    var a := Attr(rule);
    var t := a + v + "\"" + rest;
    assert t[..|a|] == a;
    assert t[|a|..] == v + "\"" + rest;
    RemoteValue(v, rest);
    assert t[|a| + |v|] == '"';
    forall i | |a| <= i < |a| + |v|
      ensures t[i] != '"'
    {
      assert t[i] == v[i - |a|];
    }
    assert FindChar(t, |a|, '"') == Some(|a| + |v|) by {
      FindFirst(t, |a|, |a| + |v|, '"');
    }
    assert t[|a|..|a| + |v|] == v;
  }

  lemma FindFirst(t: string, p: nat, q: nat, c: char)
    requires p <= q < |t| && t[q] == c && forall i :: p <= i < q ==> t[i] != c
    ensures FindChar(t, p, c) == Some(q)
  {
    var r := FindChar(t, p, c);
    assert r.Some?;
  }

  /** An attribute with a value the rule rewrites is replaced by the same
      attribute with the new value, and the scan resumes after its quote. */
  lemma {:induction false} Rewrites(rule: Rule, v: string, rest: string, prefix: string)
    requires NoQuote(v) && !IsRemote(v) && Target(rule, v, prefix).Some?
    ensures Sub(Attr(rule) + v + "\"" + rest, rule, prefix)
      == Attr(rule) + Target(rule, v, prefix).value + "\"" + Sub(rest, rule, prefix)
  {
    var a := Attr(rule);
    var t := a + v + "\"" + rest;
    var piece := a + Target(rule, v, prefix).value + "\"";
    AttrMatchAt(rule, v, rest, prefix);
    assert SubStep(t, rule, prefix) == (piece, |a| + |v| + 1);
    SubUnfold(t, rule, prefix, piece, |a| + |v| + 1);
    assert t[|a| + |v| + 1..] == rest;
  }

  /** href="V" with V ending in css/main.css and not remote becomes
      href="{prefix}css/main.css". */
  lemma StylesheetRewritten(v: string, rest: string, prefix: string)
    requires NoQuote(v) && !IsRemote(v) && EndsWith(v, "css/main.css")
    ensures Sub("href=\"" + v + "\"" + rest, Stylesheet, prefix)
      == "href=\"" + prefix + "css/main.css" + "\"" + Sub(rest, Stylesheet, prefix)
  {
    Rewrites(Stylesheet, v, rest, prefix);
  }

  /** The script name is determined by the value: it is what follows the
      last '/', so at most one split fits the pattern. */
  lemma ScriptSplitUnique(v: string, k: nat)
    requires ScriptSplit(v, k)
    ensures k == |v| - |LastSegment(v)| - 10
  {
    var s := LastSegment(v);
    var name := v[k + 10..];
    assert v[k + 9] == v[k..k + 10][9] == '/';
    forall i | k + 10 <= i < |v|
      ensures v[i] != '/'
    {
      assert v[i] == name[i - k - 10];
      if i < |v| - 3 {
        assert IsNameChar(name[i - k - 10]);
      } else {
        assert name[|name| - 3..] == ".js";
        assert name[i - k - 10] == name[|name| - 3..][i - k - 10 - (|name| - 3)];
      }
    }
    LastSegmentAfterSlash(v, k + 9);
  }

  /** After the last slash at m comes the last segment. */
  lemma {:induction false} LastSegmentAfterSlash(v: string, m: nat)
    requires m < |v| && v[m] == '/' && forall i :: m < i < |v| ==> v[i] != '/'
    ensures LastSegment(v) == v[m + 1..]
    decreases |v|
  {
    if m < |v| - 1 {
      var init := v[..|v| - 1];
      LastSegmentAfterSlash(init, m);
      assert init[m + 1..] + [v[|v| - 1]] == v[m + 1..];
    }
  }

  /** The script pattern matches exactly the values that end in assets/js/
      and a script name, and writes prefix + assets/js/ + that name. */
  lemma ScriptTargetMeans(v: string, prefix: string)
    ensures ScriptTarget(v, prefix).Some? <==> exists k :: ScriptSplit(v, k)
    ensures forall k :: ScriptSplit(v, k) ==> ScriptTarget(v, prefix) == Some(prefix + "assets/js/" + v[k + 10..])
  {
    var s := LastSegment(v);
    if ScriptTarget(v, prefix).Some? {
      assert ScriptSplit(v, |v| - |s| - 10);
    }
    forall k | ScriptSplit(v, k)
      ensures ScriptTarget(v, prefix) == Some(prefix + "assets/js/" + v[k + 10..])
    {
      ScriptSplitUnique(v, k);
    }
  }

  /** src="V" with V = P + assets/js/ + NAME, NAME a script name and V not
      remote, becomes src="{prefix}assets/js/NAME". */
  lemma ScriptRewritten(p: string, name: string, rest: string, prefix: string)
    requires NoQuote(p + "assets/js/" + name) && !IsRemote(p + "assets/js/" + name) && IsScriptName(name)
    ensures Sub("src=\"" + (p + "assets/js/" + name) + "\"" + rest, Script, prefix)
      == "src=\"" + (prefix + "assets/js/" + name) + "\"" + Sub(rest, Script, prefix)
  {
    var v := p + "assets/js/" + name;
    assert v[|p|..|p| + 10] == "assets/js/" && v[|p| + 10..] == name;
    assert ScriptSplit(v, |p|);
    ScriptTargetMeans(v, prefix);
    Rewrites(Script, v, rest, prefix);
  }

  /** The image pattern matches exactly the values holding assets/img/ with
      something after it, and keeps what follows the last such occurrence. */
  lemma ImageTargetMeans(v: string, prefix: string)
    ensures ImageTarget(v, prefix).Some? <==> exists k :: ImageSplit(v, k)
    ensures forall k :: (ImageSplit(v, k) && (forall j :: k < j ==> !ImageSplit(v, j))) ==>
      ImageTarget(v, prefix) == Some(prefix + "assets/img/" + v[k + 11..])
  {
    var r := LastImageSplit(v, |v|);
    if r.None? {
      forall k: nat
        ensures !ImageSplit(v, k)
      {
        if k <= |v| {
          assert !ImageSplit(v, k);
        }
      }
    }
    forall k: nat | ImageSplit(v, k) && (forall j :: k < j ==> !ImageSplit(v, j))
      ensures ImageTarget(v, prefix) == Some(prefix + "assets/img/" + v[k + 11..])
    {
      assert k <= |v|;
      assert r.Some?;
      assert !(k < r.value);
    }
  }

  /** src="V" where V holds assets/img/ at k, with something after it and no
      later occurrence that has, becomes src="{prefix}assets/img/REST" with
      REST the text after that occurrence. */
  lemma ImageRewritten(v: string, k: nat, rest: string, prefix: string)
    requires NoQuote(v) && !IsRemote(v) && ImageSplit(v, k) && forall j :: k < j ==> !ImageSplit(v, j)
    ensures Sub("src=\"" + v + "\"" + rest, Image, prefix)
      == "src=\"" + (prefix + "assets/img/" + v[k + 11..]) + "\"" + Sub(rest, Image, prefix)
  {
    ImageTargetMeans(v, prefix);
    Rewrites(Image, v, rest, prefix);
  }

  // ---------------------------------------------------------------------
  // Remote references.

  /** Every occurrence of the rule's attribute in t starts a remote value. */
  predicate OnlyRemote(t: string, rule: Rule) {
    forall i :: 0 <= i <= |t| && StartsWith(t[i..], Attr(rule)) ==> IsRemote(t[i + |Attr(rule)|..])
  }

  /** A text in which no pattern match starts is left as it is. */
  lemma {:induction false} SubUnchanged(t: string, rule: Rule, prefix: string)
    requires forall i :: 0 <= i < |t| ==> AttrMatch(t[i..], rule, prefix).None?
    ensures Sub(t, rule, prefix) == t
    decreases |t|
  {
    if t != [] {
      assert t[0..] == t;
      SubCopies(t, rule, prefix);
      NoMatchInTail(t, rule, prefix);
      SubUnchanged(t[1..], rule, prefix);
      assert [t[0]] + t[1..] == t;
    }
  }

  /** Where no match starts, one character is copied. */
  lemma SubCopies(t: string, rule: Rule, prefix: string)
    requires t != [] && AttrMatch(t, rule, prefix).None?
    ensures Sub(t, rule, prefix) == [t[0]] + Sub(t[1..], rule, prefix)
  {
    assert SubStep(t, rule, prefix) == ([t[0]], 1);
    SubUnfold(t, rule, prefix, [t[0]], 1);
  }

  lemma NoMatchInTail(t: string, rule: Rule, prefix: string)
    requires t != [] && forall i :: 0 <= i < |t| ==> AttrMatch(t[i..], rule, prefix).None?
    ensures forall i :: 0 <= i < |t[1..]| ==> AttrMatch(t[1..][i..], rule, prefix).None?
  {
    forall i | 0 <= i < |t[1..]|
      ensures AttrMatch(t[1..][i..], rule, prefix).None?
    {
      assert t[1..][i..] == t[i + 1..];
    }
  }

  lemma RemoteNeverMatches(t: string, rule: Rule, prefix: string)
    requires OnlyRemote(t, rule)
    ensures forall i :: 0 <= i < |t| ==> AttrMatch(t[i..], rule, prefix).None?
  {
    forall i | 0 <= i < |t|
      ensures AttrMatch(t[i..], rule, prefix).None?
    {
      var a := Attr(rule);
      if StartsWith(t[i..], a) {
        assert t[i..][|a|..] == t[i + |a|..];
      }
    }
  }

  /** A page whose stylesheet and script or image references are all remote
      (http:// or https://) is left exactly as it is. */
  lemma RemoteOnlyUnchanged(t: string, prefix: string)
    requires OnlyRemote(t, Stylesheet) && OnlyRemote(t, Script)
    ensures NormalizeContent(t, prefix) == t
  {
    RemoteNeverMatches(t, Stylesheet, prefix);
    SubUnchanged(t, Stylesheet, prefix);
    RemoteNeverMatches(t, Script, prefix);
    SubUnchanged(t, Script, prefix);
    assert Attr(Image) == Attr(Script);
    RemoteNeverMatches(t, Image, prefix);
    SubUnchanged(t, Image, prefix);
  }

  /** The pattern never matches at a remote value: such an attribute is
      copied, as everything else the scan passes over. */
  lemma RemoteKept(rule: Rule, v: string, rest: string, prefix: string)
    requires NoQuote(v) && IsRemote(v)
    ensures AttrMatch(Attr(rule) + v + "\"" + rest, rule, prefix) == None
    ensures Sub(Attr(rule) + v + "\"" + rest, rule, prefix)
      == [Attr(rule)[0]] + Sub((Attr(rule) + v + "\"" + rest)[1..], rule, prefix)
  {
    AttrMatchAt(rule, v, rest, prefix);
    SubCopies(Attr(rule) + v + "\"" + rest, rule, prefix);
  }

  // ---------------------------------------------------------------------
  // main

  datatype Page = Page(path: RelPath, content: string)

  /** The file main writes for a page, if its text changes. */
  function Rewritten(rel: RelPath, read: RelPath -> string): seq<Page> {
    var after := NormalizeContent(read(rel), DepthPrefix(rel));
    if after != read(rel) then [Page(rel, after)] else []
  }

  /** The files main writes, in the order it visits the pages. */
  function Writes(files: seq<RelPath>, read: RelPath -> string): (r: seq<Page>)
    ensures |r| <= |files|
  {
    if files == [] then [] else Writes(files[..|files| - 1], read) + Rewritten(files[|files| - 1], read)
  }

  /** main: every kept page is read, normalised with the prefix of its depth
      and written back only when its text changed; scanned counts the pages
      and changed the files written. */
  method NormalizeSite(listing: seq<RelPath>, read: RelPath -> string)
    returns (writes: seq<Page>, scanned: nat, changed: nat)
    ensures scanned == |Filter(listing, IsKept())|
    ensures writes == Writes(Filter(listing, IsKept()), read)
    ensures changed == |writes| <= scanned
  {
    var files := HtmlFiles(listing);
    writes, scanned, changed := [], 0, 0;
    var i := 0;
    while i < |files|
      invariant 0 <= i <= |files|
      invariant scanned == i
      invariant writes == Writes(files[..i], read)
      invariant changed == |writes|
    {
      var rel := files[i];
      assert files[..i + 1][..i] == files[..i];
      scanned := scanned + 1;
      var prefix := DepthPrefix(rel);
      var before := read(rel);
      var after := NormalizeContent(before, prefix);
      if after != before {
        writes := writes + [Page(rel, after)];
        changed := changed + 1;
      }
      i := i + 1;
    }
    assert files[..i] == files;
  }

  /** A file is written only when its text changed, with its normalised
      text, and every page whose text changes is written. */
  lemma {:induction false} WritesExactlyChanged(files: seq<RelPath>, read: RelPath -> string)
    ensures forall w :: w in Writes(files, read) ==>
      w.path in files && w.content == NormalizeContent(read(w.path), DepthPrefix(w.path)) && w.content != read(w.path)
    ensures forall rel :: rel in files && NormalizeContent(read(rel), DepthPrefix(rel)) != read(rel) ==>
      Page(rel, NormalizeContent(read(rel), DepthPrefix(rel))) in Writes(files, read)
  {
    if files != [] {
      var init, last := files[..|files| - 1], files[|files| - 1];
      WritesExactlyChanged(init, read);
      assert files == init + [last];
      forall rel | rel in files
        ensures rel in init || rel == last
      {
      }
    }
  }
}
