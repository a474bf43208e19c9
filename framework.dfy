/**
 * `_getArticleContent`: a World Anvil article becomes one HTML string and a
 * featured-image URL. The browser and Foundry services it calls are the
 * function-valued fields of `Host`.
 */
module Framework {
  import opened Wrappers
  import opened Strings
  import opened ArticleData
  import opened Assembler
  import opened Compositor
  import opened Dom
  import opened FeaturedImage

  /**
   * The collaborators: `String.prototype.titleCase`, `game.i18n.localize`,
   * the `innerHTML` setter (parse) and getter (serialise) of the container,
   * and the URL serialisation behind the `src` property of an image.
   */
  datatype Host = Host(
    titleCase: string -> string,
    localize: string -> string,
    parse: string -> seq<Node>,
    serialize: seq<Node> -> string,
    resolveUrl: string -> string)

  /** Where `_processCSS` uploads the rewritten stylesheet, and under which name. */
  const UploadTarget := "modules/world-anvil/assets"
  const StylesheetName := "test.css"

  /**
   * The `<link>` that `_processCSS` returns, whatever became of its upload: it points at
   * the uploaded file. It holds no `%`, so the paragraph-break substitution never touches it.
   */
  function StylesheetLink(): (r: string)
    ensures '%' !in r
  {
    "<link href=\"/" + UploadTarget + "/" + StylesheetName + "\" rel=\"stylesheet\">"
  }

  const ParagraphBreak := "</p>\n<p>"

  /** Every `%p%` of the HTML turned into a paragraph break; a text without `%p%` is kept as it is. */
  function ParagraphBreaks(s: string): (r: string)
    ensures !Contains(s, Placeholder) ==> r == s
  {
    ReplaceAllWithoutMatch(s, Placeholder, ParagraphBreak);
    ReplaceAll(s, Placeholder, ParagraphBreak)
  }

  /** The window at the head of the output is no placeholder when the input's head is none. */
  lemma HeadNotPlaceholder(s: string)
    requires |s| >= 3 && s[..3] != Placeholder
    ensures !OccursAt(ParagraphBreaks(s), Placeholder, 0)
  {
    var t := ParagraphBreaks(s);
    var rest := ParagraphBreaks(s[1..]);
    assert t == [s[0]] + rest;
    if s[0] != '%' {
      assert t[0] != '%';
    } else if s[1] != 'p' {
      ReplaceAllHead(s[1..], Placeholder, ParagraphBreak);
      assert t[1] == rest[0];
    } else if |s[1..]| < 3 {
      assert rest == s[1..];
      assert t[2] == s[2];
    } else {
      assert s[1..][..3] != Placeholder;
      assert s[1..][1..] == s[2..];
      var rest2 := ParagraphBreaks(s[2..]);
      assert rest == [s[1]] + rest2;
      ReplaceAllHead(s[2..], Placeholder, ParagraphBreak);
      assert t[2] == rest2[0];
    }
  }

  /** Every placeholder is substituted: none is left, and none is formed across a substitution. */
  lemma {:induction false} NoPlaceholderLeft(s: string)
    ensures !Contains(ParagraphBreaks(s), Placeholder)
    decreases |s|
  {
    var t := ParagraphBreaks(s);
    if |s| < 3 {
      assert t == s;
    } else if s[..3] == Placeholder {
      var rest := ParagraphBreaks(s[3..]);
      NoPlaceholderLeft(s[3..]);
      assert t == ParagraphBreak + rest;
      forall i: nat ensures !OccursAt(t, Placeholder, i) {
        if i < 8 {
          assert t[i] == ParagraphBreak[i] != '%';
        } else {
          OccursAtShift(ParagraphBreak, rest, Placeholder, i - 8);
        }
      }
    } else {
      var rest := ParagraphBreaks(s[1..]);
      NoPlaceholderLeft(s[1..]);
      assert t == [s[0]] + rest;
      forall i: nat ensures !OccursAt(t, Placeholder, i) {
        if i == 0 {
          HeadNotPlaceholder(s);
        } else {
          OccursAtShift([s[0]], rest, Placeholder, i - 1);
        }
      }
    }
  }

  /** Substituting again changes nothing. */
  lemma ParagraphBreaksIdempotent(s: string)
    ensures ParagraphBreaks(ParagraphBreaks(s)) == ParagraphBreaks(s)
  {
    NoPlaceholderLeft(s);
    ReplaceAllWithoutMatch(ParagraphBreaks(s), Placeholder, ParagraphBreak);
  }

  /** The stylesheet link stays at the head of the document, untouched by the substitution. */
  lemma StylesheetFirst(x: string)
    ensures ParagraphBreaks(StylesheetLink() + x) == StylesheetLink() + ParagraphBreaks(x)
    ensures StartsWith(ParagraphBreaks(StylesheetLink() + x), StylesheetLink())
  {
    ReplaceAllKeepsPrefix(StylesheetLink(), x, Placeholder, ParagraphBreak);
  }

  /** The deferred fragment that is handed to the container's `innerHTML` setter. */
  function DeferredFragment(a: Article, host: Host): string {
    DeferSources(ComposedFragment(a, host.localize, host.titleCase))
  }

  /** The container after parsing the deferred fragment. */
  function ParsedContainer(a: Article, host: Host): Node {
    Container(host.parse(DeferredFragment(a, host)))
  }

  /** The resolved `src` of every image of the tree, in document order. */
  function ImageSources(root: Node, resolveUrl: string -> string): seq<string> {
    var imgs := Images(root);
    seq(|imgs|, k requires 0 <= k < |imgs| => assert imgs[k] in imgs; resolveUrl(ImageHost + DeferredSource(imgs[k])))
  }

  /**
   * The featured image read off the tree. The candidates are the resolved sources of the
   * live images that take the places of the `img` elements, in document order. Without a
   * portrait or cover the first of them wins when it is non-empty. The image is null iff
   * the article has neither portrait nor cover and no `img` occurs anywhere in the tree.
   */
  lemma FeaturedFromTree(a: Article, root: Node, resolveUrl: string -> string)
    ensures |ImageSources(root, resolveUrl)| == |Images(root)|
    ensures forall k :: 0 <= k < |Images(root)| ==>
      ImageSources(root, resolveUrl)[k] == resolveUrl(ImageSrc(LiveImage(Images(root)[k])))
    ensures !Truthy(InitialImage(a)) && Images(root) != [] && ImageSources(root, resolveUrl)[0] != "" ==>
      Featured(InitialImage(a), ImageSources(root, resolveUrl)) == Some(resolveUrl(ImageSrc(LiveImage(Images(root)[0]))))
    ensures Featured(InitialImage(a), ImageSources(root, resolveUrl)).None?
        <==> a.portrait.None? && a.cover.None? && forall p :: At(root, p).Some? ==> !IsImage(At(root, p).value)
  {
    var imgs := Images(root);
    var sources := ImageSources(root, resolveUrl);
    forall k | 0 <= k < |imgs| ensures sources[k] == resolveUrl(ImageSrc(LiveImage(imgs[k]))) {
      assert imgs[k] in imgs;
    }
    ImagePrecedence(a, sources);
    NoImages(root);
  }

  /** The four tree rewrites, in the order the source applies them. */
  function Rewritten(root: Node): (r: Node)
    ensures root.Element? && !IsSpacer(root) && !IsImage(root) && !IsRefAnchor(root) ==> r.Element?
  {
    DemoteAnchors(TagRefSpans(ReplaceImages(ReplaceSpacers(root))))
  }

  /** The children of the container once the four rewrites are done. */
  function RewrittenChildren(children: seq<Node>): seq<Node> {
    Rewritten(Container(children)).children
  }

  /** The fragment stage: sections, relations, composition and the `src=` deferral. */
  method BuildFragment(a: Article, host: Host) returns (content: string)
    ensures content == DeferredFragment(a, host)
  {
    var body, panel := AssembleSections(a.sections, host.titleCase);
    var aside := AssembleRelations(a.relations, host.titleCase);
    content := Compose(a, host.localize, body, panel.top, panel.main, panel.bottom, aside);
    content := DeferSources(content);
  }

  /**
   * The tree stage: the container takes the fragment, the four rewrites run with the
   * image search between them, and the serialised tree gets the link and its breaks.
   */
  method RenderFragment(content: string, a: Article, host: Host) returns (result: TransformResult)
    ensures result.html == ParagraphBreaks(StylesheetLink() + host.serialize(RewrittenChildren(host.parse(content))))
    ensures result.img == Featured(InitialImage(a), ImageSources(ReplaceSpacers(Container(host.parse(content))), host.resolveUrl))
    ensures StartsWith(result.html, StylesheetLink())
    ensures !Contains(result.html, Placeholder)
  {
    var style := StylesheetLink();
    var div := Container(host.parse(content));
    ghost var children := div.children;

    div := ReplaceSpacers(div);

    var image := InitialImage(a);
    var sources := ImageSources(div, host.resolveUrl);
    image := ChooseImage(image, sources);
    div := ReplaceImages(div);

    div := TagRefSpans(div);
    div := DemoteAnchors(div);
    assert div == Rewritten(Container(children));

    var serialized := host.serialize(div.children);
    var html := style + serialized;
    StylesheetFirst(serialized);
    NoPlaceholderLeft(html);
    html := ParagraphBreaks(html);
    result := TransformResult(html, image);
  }

  /** The whole transformation: the fragment stage, then the tree stage. */
  method GetArticleContent(a: Article, host: Host) returns (result: TransformResult)
    ensures result.html == ParagraphBreaks(StylesheetLink() + host.serialize(RewrittenChildren(host.parse(DeferredFragment(a, host)))))
    ensures result.img == Featured(InitialImage(a), ImageSources(ReplaceSpacers(ParsedContainer(a, host)), host.resolveUrl))
    ensures StartsWith(result.html, StylesheetLink())
    ensures !Contains(result.html, Placeholder)
  {
    var content := BuildFragment(a, host);
    result := RenderFragment(content, a, host);
  }

  /** The article "Town": one section "History" and an `http://` portrait. */
  function Town(): Article {
    Article("Town", "http://x/town", "", Some([("s1", Section(Some("History"), "Old."))]), Some([]),
            Some(ImageRef("http://img/p.png")), None)
  }

  /** A single entry gives its zone exactly its own piece. */
  lemma SingleEntryZone(es: seq<(string, Section)>, titleCase: string -> string, z: Zone)
    requires |es| == 1
    ensures ZoneText(es, titleCase, z) == SectionPiece(es[0], titleCase, z)
  {
    var ps := SectionPieces(es, titleCase, z);
    assert ps[..|ps| - 1] == [];
    assert ConcatAll(ps) == "" + ps[0];
  }

  /** "History" is no reserved title. */
  lemma HistoryIsBody()
    ensures Placement("History") == Body
  {
    assert |Lower("History")| == 7;
  }

  /** The section "History" of "Town" is the whole body, wrapped as a heading and a paragraph. */
  lemma TownBody(titleCase: string -> string)
    ensures ZoneText(Entries(Town().sections), titleCase, Body) == "<h2>History</h2>\n<p>Old.</p><hr/>"
  {
    var es := Entries(Town().sections);
    assert SectionTitle(es[0], titleCase) == "History";
    assert es[0].1.contentParsed == "Old.";
    HistoryIsBody();
    SingleEntryZone(es, titleCase, Body);
    HistoryChunk();
  }

  /** The body wrapper around "History" and "Old.". */
  lemma HistoryChunk()
    ensures Chunk(Body, "History", "Old.") == "<h2>History</h2>\n<p>Old.</p><hr/>"
  {
  }

  /** The image of "Town" is its portrait with the secure scheme, whatever the body holds. */
  lemma TownImage(sources: seq<string>)
    ensures Featured(InitialImage(Town()), sources) == Some("https://img/p.png")
  {
    var url := "http://img/p.png";
    assert url[..7] == "http://";
    assert "https://" + url[7..] == "https://img/p.png";
    ImagePrecedence(Town(), sources);
  }
}
