/**
 * The parsed fragment as a tree of elements and text nodes, and the rewrites
 * `_getArticleContent` performs on it: paragraph-break spacers become a
 * placeholder text node, deferred images become live images, cross-reference
 * spans are tagged, and cross-reference anchors are demoted to spans.
 *
 * Each rewrite replaces a matching element together with its subtree; it
 * recurses only into elements that do not match, as replacing the members of
 * a `querySelectorAll` list one after another does.
 */
module Dom {
  import opened Wrappers
  import opened Strings

  datatype Attr = Attr(name: string, value: string)

  /** An element keeps its class list apart from its other attributes, which stay in document order. */
  datatype Node =
    | TextNode(data: string)
    | Element(tag: string, classes: seq<string>, attrs: seq<Attr>, children: seq<Node>)

  /** The detached `div` whose `innerHTML` receives the composed fragment. */
  function Container(children: seq<Node>): Node {
    Element("div", [], [], children)
  }

  function AttrValue(attrs: seq<Attr>, name: string): Option<string>
    decreases |attrs|
  {
    if attrs == [] then None
    else if attrs[0].name == name then Some(attrs[0].value)
    else AttrValue(attrs[1..], name)
  }

  predicate HasAttr(attrs: seq<Attr>, name: string) {
    AttrValue(attrs, name).Some?
  }

  lemma {:induction false} HasAttrMember(attrs: seq<Attr>, name: string)
    ensures HasAttr(attrs, name) <==> exists k :: 0 <= k < |attrs| && attrs[k].name == name
    decreases |attrs|
  {
    if attrs != [] {
      HasAttrMember(attrs[1..], name);
      if HasAttr(attrs[1..], name) {
        var k :| 0 <= k < |attrs[1..]| && attrs[1..][k].name == name;
        assert attrs[k + 1].name == name;
      }
      if exists k :: 0 <= k < |attrs| && attrs[k].name == name {
        var k :| 0 <= k < |attrs| && attrs[k].name == name;
        if k > 0 {
          assert attrs[1..][k - 1].name == name;
        }
      }
    }
  }

  /** The reflected `alt` or `title` property: the attribute's value, or "" without one. */
  function AttrOrEmpty(attrs: seq<Attr>, name: string): string {
    match AttrValue(attrs, name)
    case None => ""
    case Some(v) => v
  }

  /** The text of a node and all its descendants, in document order (`textContent`). */
  function TextContent(n: Node): string {
    match n
    case TextNode(d) => d
    case Element(_, _, _, kids) => TextContentAll(kids)
  }

  function TextContentAll(ns: seq<Node>): string {
    if ns == [] then "" else TextContent(ns[0]) + TextContentAll(ns[1..])
  }

  /** Lists whose nodes pairwise have the same text have the same text. */
  lemma {:induction false} TextContentAllPointwise(xs: seq<Node>, ys: seq<Node>)
    requires |xs| == |ys|
    requires forall k :: 0 <= k < |xs| ==> TextContent(xs[k]) == TextContent(ys[k])
    ensures TextContentAll(xs) == TextContentAll(ys)
    decreases |xs|
  {
    if xs != [] {
      TextContentAllPointwise(xs[1..], ys[1..]);
    }
  }

  // ---- Positions, and replacing every match of a selector ----------------------

  /** The node reached from `n` by following the child indices of `path`, if there is one. */
  function At(n: Node, path: seq<nat>): Option<Node>
    decreases |path|
  {
    if path == [] then Some(n)
    else if n.Element? && path[0] < |n.children| then At(n.children[path[0]], path[1..])
    else None
  }

  /** `y` is the element `x` with the same tag, classes, attributes and number of children. */
  predicate SameShell(x: Node, y: Node) {
    x.Element? && y.Element? && y.tag == x.tag && y.classes == x.classes && y.attrs == x.attrs
    && |y.children| == |x.children|
  }

  /** `path` leads from `n` to some node without passing through an element that `matches`. */
  predicate Exposed(n: Node, path: seq<nat>, matches: Node -> bool)
    decreases |path|
  {
    path == []
    || (n.Element? && !matches(n) && path[0] < |n.children| && Exposed(n.children[path[0]], path[1..], matches))
  }

  /** No element of the tree `matches`. */
  predicate NoMatch(n: Node, matches: Node -> bool) {
    n.Element? ==> !matches(n) && forall k :: 0 <= k < |n.children| ==> NoMatch(n.children[k], matches)
  }

  /**
   * Replacing the members of a static `querySelectorAll` list one after the
   * other: a match inside an earlier match is replaced only within the detached
   * subtree, so in the tree every outermost match gives way to its replacement
   * where it stands, and every other node is kept.
   */
  function ReplaceOutermost(n: Node, matches: Node -> bool, replacement: Node -> Node): Node {
    match n
    case TextNode(_) => n
    case Element(tag, cls, attrs, kids) =>
      if matches(n) then replacement(n)
      else Element(tag, cls, attrs,
                   seq(|kids|, k requires 0 <= k < |kids| => ReplaceOutermost(kids[k], matches, replacement)))
  }

  /** A tree without a match is left exactly as it was. */
  lemma {:induction false} Untouched(n: Node, matches: Node -> bool, replacement: Node -> Node)
    ensures NoMatch(n, matches) ==> ReplaceOutermost(n, matches, replacement) == n
  {
    if n.Element? && NoMatch(n, matches) {
      var m := ReplaceOutermost(n, matches, replacement);
      forall k | 0 <= k < |n.children| ensures m.children[k] == n.children[k] {
        Untouched(n.children[k], matches, replacement);
      }
      assert m.children == n.children;
    }
  }

  /**
   * At every position reached without passing through a match, the rewritten
   * tree holds the replacement of a match, the same text node, or an element
   * of the same shell.
   */
  lemma {:induction false} ReplacedInPlace(n: Node, matches: Node -> bool, replacement: Node -> Node, path: seq<nat>)
    requires Exposed(n, path, matches)
    ensures At(n, path).Some?
    ensures var x, y := At(n, path).value, At(ReplaceOutermost(n, matches, replacement), path);
      && (x.TextNode? ==> y == Some(x))
      && (x.Element? && matches(x) ==> y == Some(replacement(x)))
      && (x.Element? && !matches(x) ==> y.Some? && SameShell(x, y.value))
    decreases |path|
  {
    if path != [] {
      ReplacedInPlace(n.children[path[0]], matches, replacement, path[1..]);
    }
  }

  // ---- Paragraph breaks: `span.line-spacer` -----------------------------------

  const Placeholder := "%p%"

  predicate IsSpacer(n: Node) {
    n.Element? && n.tag == "span" && "line-spacer" in n.classes
  }

  function SpacerText(n: Node): Node {
    TextNode(Placeholder)
  }

  /** Every `span.line-spacer` is replaced, in place, by the text node `%p%`; a tree without one is kept. */
  function ReplaceSpacers(n: Node): (r: Node)
    ensures NoMatch(n, IsSpacer) ==> r == n
    ensures n.Element? && !IsSpacer(n) ==> SameShell(n, r)
  {
    Untouched(n, IsSpacer, SpacerText);
    ReplaceOutermost(n, IsSpacer, SpacerText)
  }

  /** No line spacer is left anywhere in the tree, and a spacer itself becomes `%p%`. */
  lemma {:induction false} SpacersReplaced(n: Node)
    ensures NoMatch(ReplaceSpacers(n), IsSpacer)
    ensures IsSpacer(n) ==> ReplaceSpacers(n) == TextNode(Placeholder)
  {
    if n.Element? && !IsSpacer(n) {
      var m := ReplaceSpacers(n);
      forall k | 0 <= k < |n.children| ensures NoMatch(m.children[k], IsSpacer) {
        SpacersReplaced(n.children[k]);
        assert m.children[k] == ReplaceSpacers(n.children[k]);
      }
    }
  }

  /**
   * Each spacer reached without passing through another one becomes `%p%`
   * where it stood; every other node there keeps its place and shell.
   */
  lemma {:induction false} SpacersInPlace(n: Node, path: seq<nat>)
    requires Exposed(n, path, IsSpacer)
    ensures At(n, path).Some?
    ensures var x, y := At(n, path).value, At(ReplaceSpacers(n), path);
      && (IsSpacer(x) ==> y == Some(TextNode(Placeholder)))
      && (x.TextNode? ==> y == Some(x))
      && (x.Element? && !IsSpacer(x) ==> y.Some? && SameShell(x, y.value))
  {
    ReplacedInPlace(n, IsSpacer, SpacerText, path);
  }

  // ---- Images: `img` with a deferred `data-src` -------------------------------

  const ImageHost := "https://worldanvil.com"

  predicate IsImage(n: Node) {
    n.Element? && n.tag == "img"
  }

  /** All `img` elements in document order, as `querySelectorAll("img")` lists them. */
  function Images(n: Node): (r: seq<Node>)
    ensures forall m :: m in r ==> IsImage(m)
    ensures IsImage(n) ==> |r| > 0 && r[0] == n
  {
    match n
    case TextNode(_) => []
    case Element(tag, _, _, kids) => (if tag == "img" then [n] else []) + ImagesAll(kids)
  }

  function ImagesAll(ns: seq<Node>): (r: seq<Node>)
    ensures forall m :: m in r ==> IsImage(m)
  {
    if ns == [] then [] else Images(ns[0]) + ImagesAll(ns[1..])
  }

  /** The images of consecutive subtrees follow one another: the list is in document order. */
  lemma {:induction false} ImagesAllAppend(xs: seq<Node>, ys: seq<Node>)
    ensures ImagesAll(xs + ys) == ImagesAll(xs) + ImagesAll(ys)
    decreases |xs|
  {
    if xs == [] {
      assert xs + ys == ys;
    } else {
      var zs := xs + ys;
      assert zs[0] == xs[0] && zs[1..] == xs[1..] + ys;
      ImagesAllAppend(xs[1..], ys);
      calc {
        ImagesAll(zs);
        Images(xs[0]) + ImagesAll(xs[1..] + ys);
        Images(xs[0]) + (ImagesAll(xs[1..]) + ImagesAll(ys));
        ImagesAll(xs) + ImagesAll(ys);
      }
    }
  }

  lemma {:induction false} ImagesAllMember(ns: seq<Node>, m: Node)
    ensures m in ImagesAll(ns) <==> exists k :: 0 <= k < |ns| && m in Images(ns[k])
    decreases |ns|
  {
    if ns != [] {
      ImagesAllMember(ns[1..], m);
      if exists k :: 0 <= k < |ns| && m in Images(ns[k]) {
        var k :| 0 <= k < |ns| && m in Images(ns[k]);
        if k > 0 {
          assert ns[1..][k - 1] == ns[k];
        }
      }
      if m in ImagesAll(ns[1..]) {
        var k :| 0 <= k < |ns[1..]| && m in Images(ns[1..][k]);
        assert ns[k + 1] == ns[1..][k];
      }
    }
  }

  /** Every listed image stands at some position of the tree. */
  lemma {:induction false} ImageHasPosition(n: Node, m: Node)
    requires m in Images(n)
    ensures exists p :: At(n, p) == Some(m)
    decreases n
  {
    if m == n {
      assert At(n, []) == Some(m);
    } else {
      var kids := n.children;
      ImagesAllMember(kids, m);
      var k :| 0 <= k < |kids| && m in Images(kids[k]);
      ImageHasPosition(kids[k], m);
      var p :| At(kids[k], p) == Some(m);
      assert ([k] + p)[1..] == p;
      assert At(n, [k] + p) == Some(m);
    }
  }

  /** Every `img` at any position of the tree is listed. */
  lemma {:induction false} ImageAtPositionListed(n: Node, p: seq<nat>)
    requires At(n, p).Some? && IsImage(At(n, p).value)
    ensures At(n, p).value in Images(n)
    decreases |p|
  {
    if p != [] {
      var kids := n.children;
      ImageAtPositionListed(kids[p[0]], p[1..]);
      ImagesAllMember(kids, At(n, p).value);
    }
  }

  /** The list holds exactly the `img` elements found at some position of the tree. */
  lemma ImagesMember(n: Node, m: Node)
    ensures m in Images(n) <==> IsImage(m) && exists p :: At(n, p) == Some(m)
  {
    if m in Images(n) {
      ImageHasPosition(n, m);
    }
    if IsImage(m) && exists p :: At(n, p) == Some(m) {
      var p :| At(n, p) == Some(m);
      ImageAtPositionListed(n, p);
    }
  }

  /** The list is empty exactly when no position of the tree holds an `img` element. */
  lemma NoImages(n: Node)
    ensures Images(n) == [] <==> forall p :: At(n, p).Some? ==> !IsImage(At(n, p).value)
  {
    if Images(n) != [] {
      ImageHasPosition(n, Images(n)[0]);
    }
    forall p | At(n, p).Some? && IsImage(At(n, p).value) ensures Images(n) != [] {
      ImageAtPositionListed(n, p);
    }
  }

  /** `i.dataset.src` as a template literal renders it. */
  function DeferredSource(i: Node): string
    requires i.Element?
  {
    Interpolate(AttrValue(i.attrs, "data-src"))
  }

  /** The `new Image()` that takes a deferred image's place; a text node is never an image. */
  function LiveImage(i: Node): Node {
    match i
    case TextNode(_) => i
    case Element(_, _, attrs, _) =>
      Element("img", [], [Attr("src", ImageHost + DeferredSource(i)),
                          Attr("alt", AttrOrEmpty(attrs, "alt")),
                          Attr("title", AttrOrEmpty(attrs, "title"))], [])
  }

  /** Every `img` is replaced, in place, by its live image; a tree without one is kept. */
  function ReplaceImages(n: Node): (r: Node)
    ensures NoMatch(n, IsImage) ==> r == n
    ensures n.Element? && !IsImage(n) ==> SameShell(n, r)
  {
    Untouched(n, IsImage, LiveImage);
    ReplaceOutermost(n, IsImage, LiveImage)
  }

  /** A live image loads from the World Anvil host and keeps no deferred source. */
  predicate IsLive(i: Node) {
    i.Element? && i.children == [] && |i.attrs| > 0 && i.attrs[0].name == "src"
    && StartsWith(i.attrs[0].value, ImageHost) && !HasAttr(i.attrs, "data-src")
  }

  /** What an element's `src` property holds before URL serialisation; a text node has none. */
  function ImageSrc(n: Node): string {
    if n.Element? then AttrOrEmpty(n.attrs, "src") else ""
  }

  predicate AllImagesLive(n: Node) {
    (IsImage(n) ==> IsLive(n))
    && (n.Element? ==> forall k :: 0 <= k < |n.children| ==> AllImagesLive(n.children[k]))
  }

  /** After the rewrite every image in the tree is live, with its source, alt and title carried over. */
  lemma {:induction false} ImagesMadeLive(n: Node)
    ensures AllImagesLive(ReplaceImages(n))
    ensures IsImage(n) ==>
      ReplaceImages(n).attrs == [Attr("src", ImageHost + DeferredSource(n)),
                                 Attr("alt", AttrOrEmpty(n.attrs, "alt")),
                                 Attr("title", AttrOrEmpty(n.attrs, "title"))]
  {
    if IsImage(n) {
      var m := ReplaceImages(n);
      assert m.attrs[0].name == "src";
      assert m.attrs[0].value[..|ImageHost|] == ImageHost;
      assert !HasAttr(m.attrs, "data-src") by {
        HasAttrMember(m.attrs, "data-src");
      }
    } else if n.Element? {
      forall k | 0 <= k < |n.children| ensures AllImagesLive(ReplaceImages(n).children[k]) {
        ImagesMadeLive(n.children[k]);
        assert ReplaceImages(n).children[k] == ReplaceImages(n.children[k]);
      }
    }
  }

  /**
   * Each image reached without passing through another one gives way, where it
   * stood, to the live image built from its own `data-src`, `alt` and `title`;
   * every other node there keeps its place and shell.
   */
  lemma {:induction false} ImagesInPlace(n: Node, path: seq<nat>)
    requires Exposed(n, path, IsImage)
    ensures At(n, path).Some?
    ensures var x, y := At(n, path).value, At(ReplaceImages(n), path);
      && (IsImage(x) ==> y == Some(Element("img", [], [Attr("src", ImageHost + DeferredSource(x)),
                                                      Attr("alt", AttrOrEmpty(x.attrs, "alt")),
                                                      Attr("title", AttrOrEmpty(x.attrs, "title"))], [])))
      && (x.TextNode? ==> y == Some(x))
      && (x.Element? && !IsImage(x) ==> y.Some? && SameShell(x, y.value))
  {
    ReplacedInPlace(n, IsImage, LiveImage, path);
  }

  // ---- Cross-reference links ----------------------------------------------------

  /** `classList.add(c)`: appended unless already present. */
  function AddClass(cls: seq<string>, c: string): (r: seq<string>)
    ensures c in r
    ensures forall x :: x in cls ==> x in r
    ensures forall x :: x in r ==> x in cls || x == c
  {
    if c in cls then cls else cls + [c]
  }

  /** The two link classes added, `entity-link` first, then `wa-link`. */
  function LinkClasses(cls: seq<string>): seq<string> {
    AddClass(AddClass(cls, "entity-link"), "wa-link")
  }

  predicate IsRefSpan(n: Node) {
    n.Element? && n.tag == "span" && HasAttr(n.attrs, "data-article-id")
  }

  /** Every `span[data-article-id]` gets the two link classes; nothing else changes. */
  function TagRefSpans(n: Node): (r: Node)
    ensures n.Element? ==> r.Element? && r.tag == n.tag && r.attrs == n.attrs && |r.children| == |n.children|
    ensures NoMatch(n, IsRefSpan) ==> r == n
  {
    match n
    case TextNode(_) => n
    case Element(tag, cls, attrs, kids) =>
      var tagged := seq(|kids|, k requires 0 <= k < |kids| => TagRefSpans(kids[k]));
      assert NoMatch(n, IsRefSpan) ==> tagged == kids;
      Element(tag, if IsRefSpan(n) then LinkClasses(cls) else cls, attrs, tagged)
  }

  predicate AllRefSpansTagged(n: Node) {
    (IsRefSpan(n) ==> "entity-link" in n.classes && "wa-link" in n.classes)
    && (n.Element? ==> forall k :: 0 <= k < |n.children| ==> AllRefSpansTagged(n.children[k]))
  }

  /** Tagging marks every cross-reference span and leaves the text of the tree as it was. */
  lemma {:induction false} RefSpansTagged(n: Node)
    ensures AllRefSpansTagged(TagRefSpans(n))
    ensures TextContent(TagRefSpans(n)) == TextContent(n)
  {
    if n.Element? {
      var m := TagRefSpans(n);
      forall k | 0 <= k < |n.children|
        ensures AllRefSpansTagged(m.children[k]) && TextContent(m.children[k]) == TextContent(n.children[k])
      {
        RefSpansTagged(n.children[k]);
      }
      TextContentAllPointwise(m.children, n.children);
    }
  }

  /**
   * Tagging is in place: every node keeps its position, every element its tag,
   * attributes and number of children; a cross-reference span gains exactly the
   * two link classes, and every other element keeps its classes.
   */
  lemma {:induction false} TaggedInPlace(n: Node, path: seq<nat>)
    requires At(n, path).Some?
    ensures var x, y := At(n, path).value, At(TagRefSpans(n), path);
      && y.Some?
      && (x.TextNode? ==> y == Some(x))
      && (x.Element? ==> y.value.Element? && y.value.tag == x.tag && y.value.attrs == x.attrs
                         && |y.value.children| == |x.children|)
      && (x.Element? && !IsRefSpan(x) ==> y.value.classes == x.classes)
      && (IsRefSpan(x) ==> forall c :: c in y.value.classes <==> c in x.classes || c == "entity-link" || c == "wa-link")
    decreases |path|
  {
    if path != [] {
      TaggedInPlace(n.children[path[0]], path[1..]);
    }
  }

  predicate IsRefAnchor(n: Node) {
    n.Element? && n.tag == "a" && HasAttr(n.attrs, "data-article-id")
  }

  predicate IsDataAttr(a: Attr) {
    StartsWith(a.name, "data-")
  }

  /** The `data-*` attributes, in order: what `el.dataset` enumerates. */
  function DataAttrs(attrs: seq<Attr>): (r: seq<Attr>)
    ensures forall a :: a in r <==> a in attrs && IsDataAttr(a)
    decreases |attrs|
  {
    if attrs == [] then []
    else (if IsDataAttr(attrs[0]) then [attrs[0]] else []) + DataAttrs(attrs[1..])
  }

  /** The children `span.textContent = s` leaves: none for "", else one text node. */
  function TextChildren(s: string): seq<Node> {
    if s == "" then [] else [TextNode(s)]
  }

  /** The span an anchor is demoted to; a text node is never an anchor. */
  function DemotedSpan(n: Node): Node {
    match n
    case TextNode(_) => n
    case Element(_, cls, attrs, _) =>
      Element("span", LinkClasses(cls), DataAttrs(attrs), TextChildren(TextContent(n)))
  }

  /** Every `a[data-article-id]` is replaced, in place, by its demoted span; a tree without one is kept. */
  function DemoteAnchors(n: Node): (r: Node)
    ensures NoMatch(n, IsRefAnchor) ==> r == n
    ensures n.Element? && !IsRefAnchor(n) ==> SameShell(n, r)
  {
    Untouched(n, IsRefAnchor, DemotedSpan);
    ReplaceOutermost(n, IsRefAnchor, DemotedSpan)
  }

  /**
   * A demoted anchor is a span with the anchor's classes and the two link
   * classes, exactly the anchor's data attributes, the anchor's text, and no `href`.
   */
  lemma AnchorDemotion(n: Node)
    requires IsRefAnchor(n)
    ensures var m := DemoteAnchors(n);
      && m.Element? && m.tag == "span"
      && (forall c :: c in m.classes <==> c in n.classes || c == "entity-link" || c == "wa-link")
      && (forall a :: a in m.attrs <==> a in n.attrs && IsDataAttr(a))
      && HasAttr(m.attrs, "data-article-id")
      && !HasAttr(m.attrs, "href")
      && TextContent(m) == TextContent(n)
  {
    var m := DemoteAnchors(n);
    HasAttrMember(n.attrs, "data-article-id");
    HasAttrMember(m.attrs, "data-article-id");
    var k :| 0 <= k < |n.attrs| && n.attrs[k].name == "data-article-id";
    assert n.attrs[k].name[..5] == "data-";
    assert n.attrs[k] in m.attrs;
    forall j | 0 <= j < |m.attrs| ensures m.attrs[j].name != "href" {
      assert m.attrs[j] in m.attrs;
    }
    HasAttrMember(m.attrs, "href");
    assert TextContentAll(TextChildren(TextContent(n))) == TextContent(n);
  }

  /** After demotion no cross-reference anchor is left, and the text of the tree is unchanged. */
  lemma {:induction false} AnchorsDemoted(n: Node)
    ensures NoMatch(DemoteAnchors(n), IsRefAnchor)
    ensures TextContent(DemoteAnchors(n)) == TextContent(n)
  {
    if IsRefAnchor(n) {
      var m := DemoteAnchors(n);
      assert TextContentAll(TextChildren(TextContent(n))) == TextContent(n);
      forall k | 0 <= k < |m.children| ensures NoMatch(m.children[k], IsRefAnchor) {
        assert m.children[k].TextNode?;
      }
    } else if n.Element? {
      var m := DemoteAnchors(n);
      forall k | 0 <= k < |n.children|
        ensures NoMatch(m.children[k], IsRefAnchor) && TextContent(m.children[k]) == TextContent(n.children[k])
      {
        AnchorsDemoted(n.children[k]);
        assert m.children[k] == DemoteAnchors(n.children[k]);
      }
      TextContentAllPointwise(m.children, n.children);
    }
  }

  /**
   * Each anchor reached without passing through another one gives way, where it
   * stood, to its demoted span; every other node there keeps its place and shell.
   */
  lemma {:induction false} AnchorsInPlace(n: Node, path: seq<nat>)
    requires Exposed(n, path, IsRefAnchor)
    ensures At(n, path).Some?
    ensures var x, y := At(n, path).value, At(DemoteAnchors(n), path);
      && (IsRefAnchor(x) ==> y == Some(Element("span", LinkClasses(x.classes), DataAttrs(x.attrs),
                                               TextChildren(TextContent(x)))))
      && (x.TextNode? ==> y == Some(x))
      && (x.Element? && !IsRefAnchor(x) ==> y.Some? && SameShell(x, y.value))
  {
    ReplacedInPlace(n, IsRefAnchor, DemotedSpan, path);
  }
}
