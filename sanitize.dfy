/** assets/js/sanitize.js: an allow-list HTML sanitizer over a parsed tree.

    The tree is a value: DOMParser, the serialisation through innerHTML and
    new URL are not modelled. Those become parameters: the parsed body is
    passed in, and a UrlParser gives the protocol new URL would report, or None
    where the constructor throws. */
module Sanitize {
  import opened Text
  import opened Wrappers

  datatype Attr = Attr(name: string, value: string)

  datatype Node =
    | TextNode(data: string)
    | OtherNode
    | Element(tag: string, attrs: seq<Attr>, children: seq<Node>)

  /** new URL(value, window.location.origin).protocol, or None when it throws. */
  type UrlParser = string -> Option<string>

  const AllowedTags: set<string> :=
    {"p", "br", "strong", "em", "ul", "ol", "li", "a", "h2", "h3", "h4", "blockquote", "code", "pre"}

  /** ALLOWED_ATTRS[tag] || [] */
  function AllowedAttrs(tag: string): seq<string> {
    if tag == "a" then ["href", "title", "rel", "target"] else []
  }

  /** isSafeUrl: a non-empty value whose protocol is http:, https: or mailto:. */
  predicate IsSafeUrl(value: string, url: UrlParser) {
    value != "" && url(value).Some? && url(value).value in ["http:", "https:", "mailto:"]
  }

  /** What the HTML parser guarantees of every element's attributes, foreign
      (SVG, MathML) ones included: no name occurs twice. Names are not assumed
      lower case: the parser keeps viewBox and the like in mixed case. */
  predicate ParsedAttrs(attrs: seq<Attr>) {
    forall i, j :: 0 <= i < j < |attrs| ==> attrs[i].name != attrs[j].name
  }

  predicate Parsed(n: Node)
    decreases n
  {
    match n
    case Element(_, attrs, children) =>
      ParsedAttrs(attrs) && forall i :: 0 <= i < |children| ==> Parsed(children[i])
    case _ => true
  }

  // ---------------------------------------------------------------------
  // Attributes.

  /** The test the forEach callback applies to one attribute of an allowed
      element whose lower-cased tag is tag. */
  predicate Removed(tag: string, a: Attr, url: UrlParser) {
    var name := Lower(a.name);
    StartsWith(name, "on") || name == "style" || name !in AllowedAttrs(tag)
    || (tag == "a" && name == "href" && !IsSafeUrl(a.value, url))
  }

  /** The attributes that survive the pass, in their original order. */
  function KeptAttrs(tag: string, attrs: seq<Attr>, url: UrlParser): (r: seq<Attr>)
    decreases |attrs|
  {
    if attrs == [] then []
    else
      var last := attrs[|attrs| - 1];
      KeptAttrs(tag, attrs[..|attrs| - 1], url) + (if Removed(tag, last, url) then [] else [last])
  }

  /** removeAttribute: the first attribute with that name goes. The name is
      matched as given: the DOM does so on foreign elements, and on HTML
      elements, whose names the parser has lower-cased, lower-casing the
      argument of removeAttribute(attr.name) changes nothing. */
  function RemoveAttribute(attrs: seq<Attr>, name: string): seq<Attr> {
    if attrs == [] then []
    else if attrs[0].name == name then attrs[1..]
    else [attrs[0]] + RemoveAttribute(attrs[1..], name)
  }

  /** setAttribute: the first attribute with that name gets the value; without
      one, the attribute is added at the end. */
  function SetAttribute(attrs: seq<Attr>, name: string, value: string): seq<Attr> {
    if attrs == [] then [Attr(name, value)]
    else if attrs[0].name == name then [Attr(name, value)] + attrs[1..]
    else [attrs[0]] + SetAttribute(attrs[1..], name, value)
  }

  /** getAttribute: the value of the first attribute with that name, or null. */
  function GetAttribute(attrs: seq<Attr>, name: string): Option<string> {
    if attrs == [] then None
    else if attrs[0].name == name then Some(attrs[0].value)
    else GetAttribute(attrs[1..], name)
  }

  /** Lines 61-66: every a gets rel="noopener noreferrer", and target="_blank"
      unless it has a non-empty target. */
  function Harden(tag: string, attrs: seq<Attr>): seq<Attr> {
    if tag == "a" then
      var withRel := SetAttribute(attrs, "rel", "noopener noreferrer");
      var target := GetAttribute(withRel, "target");
      if target.None? || target.value == "" then SetAttribute(withRel, "target", "_blank") else withRel
    else attrs
  }

  function CleanedAttrs(tag: string, attrs: seq<Attr>, url: UrlParser): seq<Attr> {
    Harden(tag, KeptAttrs(tag, attrs, url))
  }

  // ---------------------------------------------------------------------
  // sanitizeNode, as written. A node is replaced in its parent by the nodes
  // returned here: itself (with its attributes and children cleaned) or, for
  // a tag that is not allowed, its children, which nobody then visits.

  function Sanitized(n: Node, url: UrlParser): seq<Node>
    decreases n
  {
    match n
    case Element(tag, attrs, children) =>
      var t := Lower(tag);
      if t !in AllowedTags then children
      else [Element(tag, CleanedAttrs(t, attrs, url), SanitizedList(children, url))]
    case _ => [n]
  }

  /** The children, each sanitized in order, as the parent holds them afterwards. */
  function SanitizedList(ns: seq<Node>, url: UrlParser): seq<Node>
    decreases ns
  {
    if ns == [] then [] else SanitizedList(ns[..|ns| - 1], url) + Sanitized(ns[|ns| - 1], url)
  }

  /** The body element of the document: the first child of the html element
      that is a body or a frameset. The head, which comes before, is neither. */
  predicate IsBodyLike(n: Node) {
    n.Element? && IsBodyTag(Lower(n.tag))
  }

  predicate IsBodyTag(t: string) {
    t == "body" || t == "frameset"
  }

  /** htmlChildren[k] is the first body-like child. */
  predicate FirstBodyLike(htmlChildren: seq<Node>, k: int) {
    0 <= k < |htmlChildren| && IsBodyLike(htmlChildren[k]) && forall i :: 0 <= i < k ==> !IsBodyLike(htmlChildren[i])
  }

  function DocumentBody(htmlChildren: seq<Node>): (r: Option<Node>)
    ensures r.Some? ==> r.value in htmlChildren && IsBodyLike(r.value)
    ensures r.None? <==> forall i :: 0 <= i < |htmlChildren| ==> !IsBodyLike(htmlChildren[i])
    ensures forall k :: FirstBodyLike(htmlChildren, k) ==> r == Some(htmlChildren[k])
  {
    if htmlChildren == [] then None
    else if IsBodyLike(htmlChildren[0]) then Some(htmlChildren[0])
    else DocumentBody(htmlChildren[1..])
  }

  /** What sanitizeHtml gives once the body has been replaced: the children of
      the new doc.body, or the TypeError that reading innerHTML of null raises. */
  function BodyAfter(replacement: seq<Node>): Result<seq<Node>, string> {
    match DocumentBody(replacement)
    case Some(b) => Success(b.children)
    case None => Failure("TypeError: doc.body is null")
  }

  // ---------------------------------------------------------------------
  // The imperative passes.

  /** The attribute pass: a forEach over a snapshot of node.attributes, each
      removal by name on the live list. */
  method CleanAttributes(tag: string, attrs: seq<Attr>, url: UrlParser) returns (kept: seq<Attr>)
    requires ParsedAttrs(attrs)
    ensures kept == KeptAttrs(tag, attrs, url)
  {
    var snapshot := attrs;
    kept := attrs;
    var i := 0;
    while i < |snapshot|
      invariant 0 <= i <= |snapshot|
      invariant kept == KeptAttrs(tag, snapshot[..i], url) + snapshot[i..]
    {
      var attr := snapshot[i];
      var name := Lower(attr.name);
      if StartsWith(name, "on") || name == "style" {
        PassRemoves(tag, snapshot, i, url);
        kept := RemoveAttribute(kept, attr.name);
      } else if name !in AllowedAttrs(tag) {
        PassRemoves(tag, snapshot, i, url);
        kept := RemoveAttribute(kept, attr.name);
      } else if tag == "a" && name == "href" && !IsSafeUrl(attr.value, url) {
        PassRemoves(tag, snapshot, i, url);
        kept := RemoveAttribute(kept, attr.name);
      } else {
        PassKeeps(tag, snapshot, i, url);
      }
      i := i + 1;
    }
    PrefixAll(snapshot);
  }

  /** while (node.firstChild) fragment.appendChild(node.firstChild): the
      children move, in order, into the fragment that replaces the node. */
  method Unwrap(children: seq<Node>) returns (fragment: seq<Node>)
    ensures fragment == children
  {
    fragment := [];
    var rest := children;
    while rest != []
      invariant fragment + rest == children
      decreases |rest|
    {
      ConsSplit(fragment, rest);
      fragment := fragment + [rest[0]];
      rest := rest[1..];
    }
  }

  /** sanitizeNode. Returns what stands in the parent's place of node afterwards. */
  method SanitizeNode(node: Node, url: UrlParser) returns (replacement: seq<Node>)
    requires Parsed(node)
    ensures replacement == Sanitized(node, url)
    decreases node
  {
    var attrs: seq<Attr> := [];
    if node.Element? {
      var tag := Lower(node.tag);
      if tag !in AllowedTags {
        replacement := Unwrap(node.children);
        return;
      }
      attrs := CleanAttributes(tag, node.attrs, url);
      if tag == "a" {
        attrs := SetAttribute(attrs, "rel", "noopener noreferrer");
        var target := GetAttribute(attrs, "target");
        if target.None? || target.value == "" {
          attrs := SetAttribute(attrs, "target", "_blank");
        }
      }
      var children := node.children;
      var result: seq<Node> := [];
      var i := 0;
      while i < |children|
        invariant 0 <= i <= |children|
        invariant result == SanitizedList(children[..i], url)
      {
        SanitizedListPrefix(children, i, url);
        var r := SanitizeNode(children[i], url);
        result := result + r;
        i := i + 1;
      }
      PrefixAll(children);
      replacement := [Element(node.tag, attrs, result)];
    } else {
      replacement := [node];
    }
  }

  /** window.sanitizeHtml. An empty input gives ""; otherwise body, the parse
      of input, is sanitized in place of itself, and the children of whatever
      doc.body then is are returned. */
  method SanitizeHtml(input: string, body: Node, url: UrlParser) returns (r: Result<seq<Node>, string>)
    requires input != "" ==> IsBodyLike(body) && Parsed(body)
    ensures input == "" ==> r == Success([])
    ensures input != "" ==> r == BodyAfter(Sanitized(body, url))
  {
    if input == "" {
      return Success([]);
    }
    var replacement := SanitizeNode(body, url);
    r := BodyAfter(replacement);
  }

  // ---------------------------------------------------------------------
  // Helpers of the loops.

  lemma KeptAttrsPrefix(tag: string, attrs: seq<Attr>, i: nat, url: UrlParser)
    requires i < |attrs|
    ensures KeptAttrs(tag, attrs[..i + 1], url)
      == KeptAttrs(tag, attrs[..i], url) + (if Removed(tag, attrs[i], url) then [] else [attrs[i]])
  {
    assert attrs[..i + 1][..i] == attrs[..i];
  }

  lemma {:induction false} KeptAttrsFrom(tag: string, attrs: seq<Attr>, url: UrlParser, a: Attr)
    requires a in KeptAttrs(tag, attrs, url)
    ensures a in attrs && !Removed(tag, a, url)
    decreases |attrs|
  {
    if attrs != [] {
      var init := attrs[..|attrs| - 1];
      if a in KeptAttrs(tag, init, url) {
        KeptAttrsFrom(tag, init, url, a);
      }
    }
  }

  lemma {:induction false} RemoveAttributeSkips(p: seq<Attr>, s: seq<Attr>, name: string)
    requires forall a :: a in p ==> a.name != name
    ensures RemoveAttribute(p + s, name) == p + RemoveAttribute(s, name)
    decreases |p|
  {
    if p != [] {
      assert (p + s)[0] == p[0];
      assert (p + s)[1..] == p[1..] + s;
      RemoveAttributeSkips(p[1..], s, name);
      assert [p[0]] + (p[1..] + RemoveAttribute(s, name)) == p + RemoveAttribute(s, name);
    } else {
      assert p + s == s;
    }
  }

  /** An attribute the pass removes: it is gone from the live list, and the
      part already processed is unchanged. */
  lemma PassRemoves(tag: string, attrs: seq<Attr>, i: nat, url: UrlParser)
    requires ParsedAttrs(attrs) && i < |attrs| && Removed(tag, attrs[i], url)
    ensures RemoveAttribute(KeptAttrs(tag, attrs[..i], url) + attrs[i..], attrs[i].name)
      == KeptAttrs(tag, attrs[..i + 1], url) + attrs[i + 1..]
  {
    var p := KeptAttrs(tag, attrs[..i], url);
    var name := attrs[i].name;
    forall a | a in p
      ensures a.name != name
    {
      KeptAttrsFrom(tag, attrs[..i], url, a);
      var k :| 0 <= k < i && attrs[..i][k] == a;
      assert attrs[k] == a;
    }
    RemoveAttributeSkips(p, attrs[i..], name);
    assert attrs[i..] == [attrs[i]] + attrs[i + 1..];
    KeptAttrsPrefix(tag, attrs, i, url);
    assert p + [] == p;
  }

  /** An attribute the pass keeps stays where it was. */
  lemma PassKeeps(tag: string, attrs: seq<Attr>, i: nat, url: UrlParser)
    requires i < |attrs| && !Removed(tag, attrs[i], url)
    ensures KeptAttrs(tag, attrs[..i], url) + attrs[i..] == KeptAttrs(tag, attrs[..i + 1], url) + attrs[i + 1..]
  {
    assert attrs[i..] == [attrs[i]] + attrs[i + 1..];
    KeptAttrsPrefix(tag, attrs, i, url);
  }

  lemma SanitizedListPrefix(ns: seq<Node>, i: nat, url: UrlParser)
    requires i < |ns|
    ensures SanitizedList(ns[..i + 1], url) == SanitizedList(ns[..i], url) + Sanitized(ns[i], url)
  {
    assert ns[..i + 1][..i] == ns[..i];
  }

  // ---------------------------------------------------------------------
  // Attributes: what the pass keeps and what the hardening adds.

  lemma LowerOfNames()
    ensures Lower("rel") == "rel" && Lower("target") == "target"
  {
    LowerOfNoUpper("rel");
    LowerOfNoUpper("target");
  }

  /** An attribute survives the pass exactly when it was there and the
      callback does not remove it. */
  lemma {:induction false} KeptAttrsExactly(tag: string, attrs: seq<Attr>, url: UrlParser, a: Attr)
    ensures a in KeptAttrs(tag, attrs, url) <==> a in attrs && !Removed(tag, a, url)
    decreases |attrs|
  {
    if attrs != [] {
      var init := attrs[..|attrs| - 1];
      KeptAttrsExactly(tag, init, url, a);
      assert attrs == init + [attrs[|attrs| - 1]];
    }
  }

  /** Every element but a ends with no attributes at all. */
  lemma {:induction false} OnlyAnchorsKeepAttributes(tag: string, attrs: seq<Attr>, url: UrlParser)
    requires tag != "a"
    ensures CleanedAttrs(tag, attrs, url) == []
    decreases |attrs|
  {
    if attrs != [] {
      OnlyAnchorsKeepAttributes(tag, attrs[..|attrs| - 1], url);
    }
  }

  lemma {:induction false} SetAttributeFrom(attrs: seq<Attr>, name: string, value: string, a: Attr)
    requires a in SetAttribute(attrs, name, value)
    ensures a in attrs || a == Attr(name, value)
    decreases |attrs|
  {
    if attrs != [] && attrs[0].name != name && a != attrs[0] {
      SetAttributeFrom(attrs[1..], name, value, a);
    }
  }

  /** getAttribute after setAttribute: the new value under that name, the old
      values under every other. */
  lemma {:induction false} GetAfterSet(attrs: seq<Attr>, name: string, value: string, other: string)
    ensures GetAttribute(SetAttribute(attrs, name, value), name) == Some(value)
    ensures other != name ==> GetAttribute(SetAttribute(attrs, name, value), other) == GetAttribute(attrs, other)
    decreases |attrs|
  {
    if attrs != [] && attrs[0].name != name {
      GetAfterSet(attrs[1..], name, value, other);
    }
  }

  /** The attributes an allowed element keeps, under its lower-cased tag:
      none that the pass would remove, and on a, rel="noopener noreferrer" and
      a non-empty target. */
  predicate CleanAttrs(tag: string, attrs: seq<Attr>, url: UrlParser) {
    (forall i :: 0 <= i < |attrs| ==> !Removed(tag, attrs[i], url))
    && (tag == "a" ==>
          GetAttribute(attrs, "rel") == Some("noopener noreferrer")
          && GetAttribute(attrs, "target").Some? && GetAttribute(attrs, "target").value != "")
  }

  lemma SetKeepsNotRemoved(tag: string, attrs: seq<Attr>, name: string, value: string, url: UrlParser)
    requires forall a :: a in attrs ==> !Removed(tag, a, url)
    requires !Removed(tag, Attr(name, value), url)
    ensures forall a :: a in SetAttribute(attrs, name, value) ==> !Removed(tag, a, url)
  {
    forall a | a in SetAttribute(attrs, name, value)
      ensures !Removed(tag, a, url)
    {
      SetAttributeFrom(attrs, name, value, a);
    }
  }

  /** Lines 61-66 on attributes none of which the pass removes. */
  lemma HardenAnchor(kept: seq<Attr>, url: UrlParser)
    requires forall a :: a in kept ==> !Removed("a", a, url)
    ensures CleanAttrs("a", Harden("a", kept), url)
    ensures var before := GetAttribute(kept, "target");
      GetAttribute(Harden("a", kept), "target") == if before.Some? && before.value != "" then before else Some("_blank")
  {
    var withRel := SetAttribute(kept, "rel", "noopener noreferrer");
    RelSet(kept, url);
    var target := GetAttribute(withRel, "target");
    if target.None? || target.value == "" {
      TargetSet(withRel, url);
    } else {
      NotRemovedAt("a", withRel, url);
    }
  }

  /** Line 61: rel is set and target is left as it was. */
  lemma RelSet(kept: seq<Attr>, url: UrlParser)
    requires forall a :: a in kept ==> !Removed("a", a, url)
    ensures var withRel := SetAttribute(kept, "rel", "noopener noreferrer");
      && (forall a :: a in withRel ==> !Removed("a", a, url))
      && GetAttribute(withRel, "rel") == Some("noopener noreferrer")
      && GetAttribute(withRel, "target") == GetAttribute(kept, "target")
  {
    HardeningKept(url);
    GetAfterSet(kept, "rel", "noopener noreferrer", "target");
    SetKeepsNotRemoved("a", kept, "rel", "noopener noreferrer", url);
  }

  /** Lines 62-65: a missing or empty target becomes _blank, rel stays. */
  lemma TargetSet(withRel: seq<Attr>, url: UrlParser)
    requires forall a :: a in withRel ==> !Removed("a", a, url)
    requires GetAttribute(withRel, "rel") == Some("noopener noreferrer")
    ensures var r := SetAttribute(withRel, "target", "_blank");
      CleanAttrs("a", r, url) && GetAttribute(r, "target") == Some("_blank")
  {
    HardeningKept(url);
    var r := SetAttribute(withRel, "target", "_blank");
    GetAfterSet(withRel, "target", "_blank", "rel");
    SetKeepsNotRemoved("a", withRel, "target", "_blank", url);
    NotRemovedAt("a", r, url);
  }

  /** The two attributes the hardening sets are ones the pass keeps on a. */
  lemma HardeningKept(url: UrlParser)
    ensures !Removed("a", Attr("rel", "noopener noreferrer"), url)
    ensures !Removed("a", Attr("target", "_blank"), url)
    ensures "rel" != "target"
  {
    LowerOfNames();
  }

  lemma NotRemovedAt(tag: string, attrs: seq<Attr>, url: UrlParser)
    requires forall a :: a in attrs ==> !Removed(tag, a, url)
    ensures forall i :: 0 <= i < |attrs| ==> !Removed(tag, attrs[i], url)
  {
    forall i | 0 <= i < |attrs|
      ensures !Removed(tag, attrs[i], url)
    {
      assert attrs[i] in attrs;
    }
  }

  /** Lines 45-66 together: on an allowed element the attributes left satisfy
      CleanAttrs; an existing non-empty target is kept and any other becomes
      _blank. */
  lemma CleanedAttrsAreClean(tag: string, attrs: seq<Attr>, url: UrlParser)
    ensures CleanAttrs(tag, CleanedAttrs(tag, attrs, url), url)
    ensures tag == "a" ==>
      var before := GetAttribute(KeptAttrs(tag, attrs, url), "target");
      GetAttribute(CleanedAttrs(tag, attrs, url), "target")
        == if before.Some? && before.value != "" then before else Some("_blank")
  {
    var kept := KeptAttrs(tag, attrs, url);
    forall a | a in kept
      ensures !Removed(tag, a, url)
    {
      KeptAttrsExactly(tag, attrs, url, a);
    }
    if tag == "a" {
      HardenAnchor(kept, url);
    } else {
      OnlyAnchorsKeepAttributes(tag, attrs, url);
    }
  }

  // ---------------------------------------------------------------------
  // The tree, as written.

  /** The children of a node are sanitized one after another, in order. */
  lemma {:induction false} SanitizedListAppend(a: seq<Node>, b: seq<Node>, url: UrlParser)
    ensures SanitizedList(a + b, url) == SanitizedList(a, url) + SanitizedList(b, url)
    decreases |b|
  {
    if b == [] {
      assert a + b == a;
    } else {
      var init := b[..|b| - 1];
      assert (a + b)[..|a + b| - 1] == a + init;
      SanitizedListAppend(a, init, url);
    }
  }

  /** Text and every other non-element node come out as they went in, and a
      single node in a list is sanitized as itself. */
  lemma SanitizedSingle(n: Node, url: UrlParser)
    ensures SanitizedList([n], url) == Sanitized(n, url)
    ensures !n.Element? ==> Sanitized(n, url) == [n]
  {
    assert [n][..0] == [];
  }

  /** An element whose tag is allowed keeps its tag name, and stands in its
      place with clean attributes and each child sanitized. */
  lemma AllowedElementKept(n: Node, url: UrlParser)
    requires n.Element? && Lower(n.tag) in AllowedTags
    ensures |Sanitized(n, url)| == 1
    ensures var e := Sanitized(n, url)[0];
      e.Element? && e.tag == n.tag && CleanAttrs(Lower(n.tag), e.attrs, url)
      && e.children == SanitizedList(n.children, url)
  {
    CleanedAttrsAreClean(Lower(n.tag), n.attrs, url);
  }

  /** An element whose tag is not allowed, whatever its attributes, is
      replaced in place by its children, in order and not visited: among its
      siblings, its children stand unchanged between the sanitized nodes
      before it and those after it. */
  lemma UnwrappedChildrenSurvive(a: seq<Node>, n: Node, b: seq<Node>, url: UrlParser)
    requires n.Element? && Lower(n.tag) !in AllowedTags
    ensures Sanitized(n, url) == n.children
    ensures SanitizedList(a + [n] + b, url) == SanitizedList(a, url) + n.children + SanitizedList(b, url)
  {
    SanitizedListAppend(a + [n], b, url);
    SanitizedListAppend(a, [n], url);
    SanitizedSingle(n, url);
  }

  lemma ExampleTags()
    ensures Lower("blockquote") in AllowedTags && Lower("div") !in AllowedTags && Lower("script") !in AllowedTags
  {
    LowerBlockquote();
    LowerDiv();
    LowerScript();
    TagsOfExample();
  }

  lemma TagsOfExample()
    ensures "blockquote" in AllowedTags && "div" !in AllowedTags && "script" !in AllowedTags
  {
  }

  lemma LowerBlockquote()
    ensures Lower("blockquote") == "blockquote"
  {
    var t := "blockquote";
    assert NoUpper(t) by {
      forall i | 0 <= i < |t|
        ensures !('A' <= t[i] <= 'Z') && t[i] != '\U{212A}'
      {
      }
    }
    LowerOfNoUpper(t);
  }

  lemma LowerDiv()
    ensures Lower("div") == "div"
  {
    var t := "div";
    assert NoUpper(t) by {
      forall i | 0 <= i < |t|
        ensures !('A' <= t[i] <= 'Z') && t[i] != '\U{212A}'
      {
      }
    }
    LowerOfNoUpper(t);
  }

  lemma LowerScript()
    ensures Lower("script") == "script"
  {
    var t := "script";
    assert NoUpper(t) by {
      forall i | 0 <= i < |t|
        ensures !('A' <= t[i] <= 'Z') && t[i] != '\U{212A}'
      {
      }
    }
    LowerOfNoUpper(t);
  }

  /** An element whose tag is not allowed, inside an allowed one, gives its
      children to the allowed element, where they stay unvisited: an element
      among them whose tag is not allowed is then not clean. */
  lemma UnwrappedInsideKept(outer: Node, inner: Node, n: Node, url: UrlParser)
    requires outer.Element? && Lower(outer.tag) in AllowedTags && outer.children == [inner]
    requires inner.Element? && Lower(inner.tag) !in AllowedTags && inner.children == [n]
    requires n.Element? && Lower(n.tag) !in AllowedTags
    ensures var out := Sanitized(outer, url);
      |out| == 1 && out[0].children == [n] && !CleanList(out, url)
  {
    UnwrappedChildrenSurvive([], inner, [], url);
    assert [] + [inner] + [] == [inner];
    AllowedElementKept(outer, url);
    var out := Sanitized(outer, url);
    assert out[0].children == [n];
    assert out[0].children[0] == n && !Clean(n, url);
    assert !Clean(out[0], url);
  }

  /** The tree of <blockquote><div><script>alert(1)</script></div></blockquote>,
      which the parser nests as written: sanitizeNode keeps the script. It
      shows in sanitizeNode, and in sanitizeHtml once that sanitizes the
      body's children instead of the body. */
  lemma ScriptInsideDivSurvives(url: UrlParser)
    ensures var out := Sanitized(Element("blockquote", [], [Element("div", [], [Element("script", [], [TextNode("alert(1)")])])]), url);
      |out| == 1 && out[0].children == [Element("script", [], [TextNode("alert(1)")])]
      && !CleanList(out, url)
  {
    ExampleTags();
    var script := Element("script", [], [TextNode("alert(1)")]);
    var div := Element("div", [], [script]);
    UnwrappedInsideKept(Element("blockquote", [], [div]), div, script, url);
  }

  /** toLowerCase maps U+212A KELVIN SIGN to 'k', so a tag spelled with it
      is the allowed blockquote and is kept, with its children sanitized. */
  lemma KelvinSignTagKept(attrs: seq<Attr>, children: seq<Node>, url: UrlParser)
    ensures Lower("bloc\U{212A}quote") == "blockquote"
    ensures Sanitized(Element("bloc\U{212A}quote", attrs, children), url)
      == [Element("bloc\U{212A}quote", CleanedAttrs("blockquote", attrs, url), SanitizedList(children, url))]
  {
    LowerKelvinTag();
    TagsOfExample();
  }

  lemma LowerKelvinTag()
    ensures Lower("bloc\U{212A}quote") == "blockquote"
  {
    SpellKelvinTag();
    LowerAppend("bloc" + "\U{212A}", "quote");
    LowerAppend("bloc", "\U{212A}");
    LowerPieces();
  }

  lemma SpellKelvinTag()
    ensures "bloc\U{212A}quote" == "bloc" + "\U{212A}" + "quote"
    ensures "blockquote" == "bloc" + "k" + "quote"
  {
  }

  lemma LowerPieces()
    ensures Lower("bloc") == "bloc" && Lower("\U{212A}") == "k" && Lower("quote") == "quote"
  {
    assert NoUpper("bloc");
    assert NoUpper("quote");
    LowerOfNoUpper("bloc");
    LowerOfNoUpper("quote");
  }

  /** sanitizeHtml succeeds on a non-empty input exactly when the parsed body
      has a body or frameset child (a frameset nested in a frameset); for any
      ordinary document it fails, since the body itself is unwrapped. */
  lemma SanitizeHtmlFailsUnlessNestedBody(body: Node, url: UrlParser)
    requires IsBodyLike(body)
    ensures BodyAfter(Sanitized(body, url)).Failure?
      <==> forall i :: 0 <= i < |body.children| ==> !IsBodyLike(body.children[i])
  {
    BodyIsUnwrapped(body, url);
  }

  /** The root passed to sanitizeNode is never an allowed element. */
  lemma BodyIsUnwrapped(body: Node, url: UrlParser)
    requires IsBodyLike(body)
    ensures Sanitized(body, url) == body.children
  {
    BodyTagsNotAllowed(Lower(body.tag));
  }

  lemma BodyTagsNotAllowed(t: string)
    requires IsBodyTag(t)
    ensures t !in AllowedTags
  {
  }

  // ---------------------------------------------------------------------
  // What the sanitizer evidently means to do: visit the children of an
  // unwrapped element too, and return the sanitized content of the body.

  predicate Clean(n: Node, url: UrlParser)
    decreases n
  {
    match n
    case Element(tag, attrs, children) =>
      Lower(tag) in AllowedTags && CleanAttrs(Lower(tag), attrs, url)
      && forall i :: 0 <= i < |children| ==> Clean(children[i], url)
    case _ => true
  }

  predicate CleanList(ns: seq<Node>, url: UrlParser) {
    forall i :: 0 <= i < |ns| ==> Clean(ns[i], url)
  }

  function SanitizedIntended(n: Node, url: UrlParser): seq<Node>
    decreases n
  {
    match n
    case Element(tag, attrs, children) =>
      var t := Lower(tag);
      if t !in AllowedTags then SanitizedListIntended(children, url)
      else [Element(tag, CleanedAttrs(t, attrs, url), SanitizedListIntended(children, url))]
    case _ => [n]
  }

  function SanitizedListIntended(ns: seq<Node>, url: UrlParser): seq<Node>
    decreases ns
  {
    if ns == [] then [] else SanitizedListIntended(ns[..|ns| - 1], url) + SanitizedIntended(ns[|ns| - 1], url)
  }

  function SanitizeHtmlIntended(input: string, body: Node, url: UrlParser): Result<seq<Node>, string> {
    if input == "" then Success([])
    else if body.Element? then Success(SanitizedListIntended(body.children, url))
    else Success(SanitizedIntended(body, url))
  }

  lemma {:induction false} IntendedIsClean(n: Node, url: UrlParser)
    ensures CleanList(SanitizedIntended(n, url), url)
    decreases n, 1
  {
    match n
    case Element(tag, attrs, children) =>
      IntendedListIsClean(children, url);
      if Lower(tag) in AllowedTags {
        CleanedAttrsAreClean(Lower(tag), attrs, url);
        var e := Element(tag, CleanedAttrs(Lower(tag), attrs, url), SanitizedListIntended(children, url));
        assert Clean(e, url);
      }
    case _ =>
  }

  lemma {:induction false} IntendedListIsClean(ns: seq<Node>, url: UrlParser)
    ensures CleanList(SanitizedListIntended(ns, url), url)
    decreases ns, 0
  {
    if ns != [] {
      var init := ns[..|ns| - 1];
      IntendedListIsClean(init, url);
      IntendedIsClean(ns[|ns| - 1], url);
      var a := SanitizedListIntended(init, url);
      var b := SanitizedIntended(ns[|ns| - 1], url);
      assert forall i :: |a| <= i < |a + b| ==> (a + b)[i] == b[i - |a|];
    }
  }

  /** The corrected sanitizeHtml always succeeds, and everything it returns
      is clean at every depth. */
  lemma SanitizeHtmlIntendedIsClean(input: string, body: Node, url: UrlParser)
    ensures SanitizeHtmlIntended(input, body, url).Success?
    ensures CleanList(SanitizeHtmlIntended(input, body, url).value, url)
  {
    if input != "" {
      if body.Element? {
        IntendedListIsClean(body.children, url);
      } else {
        IntendedIsClean(body, url);
      }
    }
  }

  /** Where no element needs unwrapping the two versions agree. */
  predicate AllAllowed(n: Node)
    decreases n
  {
    match n
    case Element(tag, _, children) =>
      Lower(tag) in AllowedTags && forall i :: 0 <= i < |children| ==> AllAllowed(children[i])
    case _ => true
  }

  lemma {:induction false} IntendedAgreesOnAllowedTrees(n: Node, url: UrlParser)
    requires AllAllowed(n)
    ensures SanitizedIntended(n, url) == Sanitized(n, url)
    decreases n, 1
  {
    match n
    case Element(tag, attrs, children) =>
      IntendedListAgrees(children, url);
    case _ =>
  }

  lemma {:induction false} IntendedListAgrees(ns: seq<Node>, url: UrlParser)
    requires forall i :: 0 <= i < |ns| ==> AllAllowed(ns[i])
    ensures SanitizedListIntended(ns, url) == SanitizedList(ns, url)
    decreases ns, 0
  {
    if ns != [] {
      IntendedListAgrees(ns[..|ns| - 1], url);
      IntendedAgreesOnAllowedTrees(ns[|ns| - 1], url);
    }
  }
}
