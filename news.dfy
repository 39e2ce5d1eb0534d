/** The logic of assets/js/news.js that is not DOM assembly: renderMarkdown
    and the two path helpers withBasePath and withBaseAsset. */
module News {
  import opened Text
  import opened Wrappers
  import Markdown
  import MarkdownRenderer

  /** renderMarkdown. A falsy argument gives ""; markdown is a string here, so
      the only falsy value is the empty string. */
  method RenderMarkdown(markdown: string) returns (html: string)
    ensures html == Markdown.Render(markdown)
  {
    if markdown == "" {
      return "";
    }
    var lines := Split(RemoveChar(markdown, '\r'), '\n');
    html := MarkdownRenderer.RenderLines(lines);
  }

  /** getBasePath: Site.basePath when it is set and not empty, otherwise "/". */
  function GetBasePath(siteBasePath: Option<string>): (r: string)
    ensures r != ""
    ensures siteBasePath.Some? && siteBasePath.value != "" ==> r == siteBasePath.value
    ensures siteBasePath.None? || siteBasePath.value == "" ==> r == "/"
  {
    match siteBasePath
    case Some(p) => if p == "" then "/" else p
    case None => "/"
  }

  /** path.replace(/^\//, ""): at most one leading slash removed. The literal
      in the source is written with a doubled backslash, which read
      character by character would not even be a well-formed statement; the
      evident meaning, a single escaped slash anchored at the start, is the
      one modelled. */
  function StripSlash(path: string): (r: string)
    ensures StartsWith(path, "/") ==> path == "/" + r
    ensures !StartsWith(path, "/") ==> r == path
  {
    if |path| > 0 && path[0] == '/' then path[1..] else path
  }

  /** withBasePath: the base path followed by path without its leading slash
      (a missing path is the empty string). */
  function WithBasePath(base: string, path: string): (r: string)
    ensures StartsWith(path, "/") ==> r == base + path[1..]
    ensures !StartsWith(path, "/") ==> r == base + path
  {
    base + StripSlash(path)
  }

  /** /^(https?:)?\/\//i -- again written with doubled backslashes in the
      source: "//", "http://" or "https://" at the start, letters in any case. */
  predicate IsAbsoluteUrl(text: string) {
    StartsWith(text, "//") || StartsWithIgnoringCase(text, "http://") || StartsWithIgnoringCase(text, "https://")
  }

  /** A prefix test under the regular expression flag i, for a prefix p written
      in lower-case ASCII without a 'k': the flag folds ASCII case only, and on
      such a p Lower, which also maps U+212A to 'k', agrees with it. */
  predicate StartsWithIgnoringCase(text: string, p: string) {
    |p| <= |text| && Lower(text[..|p|]) == p
  }

  /** Values withBaseAsset returns as they are. */
  predicate KeptAsIs(text: string) {
    IsAbsoluteUrl(text) || StartsWith(text, "data:") || StartsWith(text, "mailto:")
  }

  /** withBaseAsset. */
  function WithBaseAsset(base: string, value: string): (r: string)
    ensures value == "" ==> r == ""
    ensures value != "" && KeptAsIs(value) ==> r == value
  {
    if value == "" then ""
    else if KeptAsIs(value) then value
    else if StartsWith(value, "/") then WithBasePath(base, value[1..])
    else WithBasePath(base, value)
  }

  // ---------------------------------------------------------------------
  // Properties.

  /** One leading slash never matters to withBasePath. */
  lemma LeadingSlashIgnored(base: string, path: string)
    requires !StartsWith(path, "/")
    ensures WithBasePath(base, "/" + path) == WithBasePath(base, path)
  {
    assert ("/" + path)[1..] == path;
  }

  /** Every other value is the base path followed by the value less one
      leading slash: the separate slash branch of withBaseAsset, which strips a
      slash before withBasePath would strip another, gives the same result,
      because a second slash would have made the value absolute. */
  lemma RelativeAssetUnderBase(base: string, value: string)
    requires value != "" && !KeptAsIs(value)
    ensures WithBaseAsset(base, value) == WithBasePath(base, value)
    ensures WithBaseAsset(base, value) == base + StripSlash(value)
  {
    if StartsWith(value, "/") && |value| >= 2 {
      assert value[1..][..1] == value[1..2];
    }
  }

  /** A result of withBasePath is kept as it is by a second withBaseAsset when
      the base itself is absolute; so an asset under such a base is stable. */
  lemma AbsoluteBaseIdempotent(base: string, value: string)
    requires IsAbsoluteUrl(base)
    ensures WithBaseAsset(base, WithBaseAsset(base, value)) == WithBaseAsset(base, value)
  {
    if value != "" && !KeptAsIs(value) {
      RelativeAssetUnderBase(base, value);
      PrefixKeepsAbsolute(base, StripSlash(value));
    }
  }

  lemma PrefixKeepsAbsolute(base: string, rest: string)
    requires IsAbsoluteUrl(base)
    ensures IsAbsoluteUrl(base + rest)
  {
    var t := base + rest;
    if StartsWith(base, "//") {
      assert t[..2] == base[..2];
    } else if StartsWithIgnoringCase(base, "http://") {
      assert t[..7] == base[..7];
    } else {
      assert t[..8] == base[..8];
    }
  }
}
