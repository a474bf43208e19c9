# World Anvil article import: a Dafny model of `_getArticleContent`

The Foundry VTT module `world-anvil` imports World Anvil articles as journal
entries. Its one real algorithm is `_getArticleContent`
(`module/framework.js`). It turns an article record into one HTML string and
a featured-image URL, in four stages:

1. **Section assembler** (`assembler.dfy`, module `Assembler`). It walks the
   article's sections in order. Three reserved lower-cased titles
   (`sidepanelcontent`, `sidebarcontentbottom`, `sidebarcontenttop`) go to the
   `main`, `bottom` and `top` zones of the side panel. Every other section goes
   to the body. It then walks the relation groups: a single item counts as a
   one-element list, items of type `customarticletemplate` or `image` are
   dropped, and each group with items left adds a `<dt>/<dd>` entry to the
   aside. The side panel is a class (`SidePanel`) whose three fields the
   section loop appends to, as the source's `sidePanel` object.
2. **Compositor** (`compositor.dfy`, module `Compositor`). It builds the
   fragment step by step: heading, link paragraph, the container, the optional
   panel block (always top, then main, then bottom), the optional `<aside>`,
   and the closing `</div>`. Then every `src=` becomes `data-src=`.
3. **Featured image** (`featured.dfy`, module `FeaturedImage`). The portrait
   URL, else the cover URL, each with its first `http://` made `https://`.
   Failing both, the `src` of the first body `<img>`: its `data-src` prefixed
   with `https://worldanvil.com` by string concatenation, then read back
   through the image's `src` getter (`resolveUrl`). JavaScript truthiness is kept: an empty URL is
   falsy and gives way to the first body image.
4. **Rewriter** (`dom.dfy`, module `Dom`, and `framework.dfy`). The composed
   fragment is taken as an already-parsed tree of elements and text nodes.
   Line spacers become `%p%` text nodes. Deferred images become live images.
   Cross-reference spans get the classes `entity-link` and `wa-link`.
   Cross-reference anchors are demoted to spans. The stylesheet link is put in
   front, and every `%p%` becomes `</p>\n<p>`.

`Framework.GetArticleContent` runs the four stages in the source's order:
`Framework.BuildFragment` covers the first two, `Framework.RenderFragment` the
tree, the image search and the final substitution.
Its collaborators are the function-valued fields of `Framework.Host`:
`titleCase`, `game.i18n.localize`, the container's `innerHTML` setter
(`parse`) and getter (`serialize`), and the URL serialisation behind an
image's `src` property (`resolveUrl`). `Strings` holds JavaScript's
`replace` (global and first-occurrence), `join` and lower-casing.

Three details of the source:

- A relation item with no `type` passes the type filter and is kept. Its
  marker reads `data-template="undefined"`.
- A body section is `<h2>title</h2>\n<p>content</p><hr/>`, with a newline.
  A paragraph break is `</p>\n<p>`, also with a newline.
- A relation marker starts with the literal `< span` (with a space), as the
  source writes it. The model does not assume that parsing turns it into a
  `span` element.

## Model

| member | source | states |
|---|---|---|
| `Assembler.Placement` | module/framework.js:66-78 | A section goes to `main`, `bottom` or `top` exactly when its lower-cased title is `sidepanelcontent`, `sidebarcontentbottom` or `sidebarcontenttop`. Every other title goes to the body. |
| `Assembler.PlacementIgnoresCase` | module/framework.js:65-66 | The zone ignores case: a title and its lower-cased form land in the same zone. |
| `Assembler.AssembleSections` | module/framework.js:63-80 | The body and the three side-panel zones are exactly what the sections contribute to each zone, in section order. A missing `sections` leaves all four empty. |
| `Assembler.SectionPlacement` | module/framework.js:64-79 | A section lands once, at its own position, in the zone its lower-cased display title selects. Its text is wrapped in that zone's `<div class=…>…</div><hr/>`, or in `<h2>…</h2>\n<p>…</p><hr/>` for the body. Every other zone is as if the section were absent, so a reserved title never reaches the body. |
| `Assembler.SectionOrder` | module/framework.js:64-79 | Two sections of the same zone appear in that zone in input order, each in its wrapper, separated by exactly what the sections between them contribute. |
| `Assembler.AssembleRelations` | module/framework.js:83-94 | The aside is the concatenation of the group entries, in group order. A missing `relations` leaves it empty. |
| `Assembler.Survivors` | module/framework.js:87 | An item survives the filter iff it is in the group and its type is neither `customarticletemplate` nor `image`. |
| `Assembler.MarkedItems` | module/framework.js:87-88 | Each item that is not excluded has its marker in the list, and each marker in the list belongs to an item that is not excluded. |
| `Assembler.RelationGroupPlacement` | module/framework.js:84-93 | A group adds its entry at its own position among the groups, between the entries of the groups before it and those after it. |
| `Assembler.EmptyGroupEntry` | module/framework.js:87-92 | A group's entry is empty iff every item of the group is excluded. |
| `Assembler.PrefilteredAside` | module/framework.js:86-92 | Removing the excluded items beforehand, and giving the items as a list, yields the same aside. The filter is idempotent. |
| `Assembler.ScalarItemsAsList` | module/framework.js:86 | A group whose `items` is one item renders exactly as the group whose `items` is the one-element list holding it. |
| `Compositor.AppendBody` | module/framework.js:99-100 | The body, then `</div><hr/>`, which closes the article content whether or not the body is empty. |
| `Compositor.AppendPanel` | module/framework.js:101-107 | Appending the zones one by one, each only when non-empty, gives the panel block. The block is absent when all three zones are empty; otherwise it is `<div class="panel panel-default">` holding top, main and bottom in that order. |
| `Compositor.Compose` | module/framework.js:97-109 | The fragment is the header, then the body, then `</div><hr/>` whether or not the body is empty. Next comes the panel block: absent when all three zones are empty, otherwise `<div class="panel panel-default">` holding top, main and bottom in that order. Then the aside block, absent when the aside is empty, and a final `</div>`. The three zones are passed as the panel's three strings. The steps are `Compositor.OpenArticle` (lines 97-98, heading and link paragraph), `Compositor.AppendBody`, `Compositor.AppendPanel` and `Compositor.AppendAside` (line 108, the optional `<aside><dl>…</dl></aside>`). |
| `Compositor.EmptyArticleLayout` | module/framework.js:97-109 | An article without sections or relations composes to its header followed by `</div><hr/></div>`. |
| `Compositor.DeferSources` | module/framework.js:112 | A fragment without `src=` passes unchanged. |
| `Compositor.DeferredSourcesPreceded` | module/framework.js:112 | After the rewrite, every occurrence of `src=` is immediately preceded by `data-`. |
| `Compositor.RestoreUndoesDefer` | module/framework.js:112 | Rewriting every `data-src=` back to `src=` gives back exactly the original fragment. The deferral changes nothing but the inserted `data-` prefixes. |
| `Dom.Untouched` | module/framework.js:119-152 | Each of the four rewrites leaves a tree without a match exactly as it was. |
| `Dom.ReplacedInPlace` | module/framework.js:119-152 | At every position reached without passing through a match, the rewritten tree holds the replacement of a match where the match stood. A text node there is kept. Any other element keeps its tag, classes, attributes and number of children. |
| `Dom.ReplaceSpacers` | module/framework.js:119-120 | A tree without a line spacer is kept. An element that is not a spacer keeps its tag, classes, attributes and number of children. |
| `Dom.SpacersReplaced` | module/framework.js:119-120 | No `span.line-spacer` is left anywhere in the tree. A spacer itself becomes the text node `%p%`. |
| `Dom.SpacersInPlace` | module/framework.js:119-120 | Each spacer not nested in another spacer becomes `%p%` where it stood, at any depth. Every other node on the way keeps its place and its shell. |
| `Dom.Images` | module/framework.js:131 | Every node collected for the image loop is an `img` element. An image root comes first. |
| `Dom.ImagesAllAppend` | module/framework.js:131 | The images of consecutive subtrees follow one another, so the list is in document order. |
| `Dom.ImagesMember` | module/framework.js:131 | A node is listed iff it is an `img` element and stands at some position of the tree. |
| `Dom.NoImages` | module/framework.js:131 | The list is empty iff no position of the tree holds an `img` element. |
| `Dom.ReplaceImages` | module/framework.js:131-137 | A tree without an `img` is kept. An element that is not an image keeps its tag, classes, attributes and number of children. |
| `Dom.ImagesMadeLive` | module/framework.js:131-137 | Every image left in the tree is live: its first attribute is a `src` starting with `https://worldanvil.com`, it has no `data-src`, and it has no children. A replaced image's attributes are exactly `src` (the host plus its deferred source), `alt` and `title`, each copied. |
| `Dom.ImagesInPlace` | module/framework.js:131-137 | Each image, at any depth, gives way where it stood to a childless `img` whose attributes are `src` (the host plus that image's own `data-src`), its `alt` and its `title`. Every other node keeps its place and its shell. |
| `Dom.AddClass` | module/framework.js:143 | After `classList.add`, the list holds the new class and every old one, and nothing else. |
| `Dom.TagRefSpans` | module/framework.js:142-144 | A tree without a `span[data-article-id]` is kept. Every element keeps its tag, attributes and number of children. |
| `Dom.RefSpansTagged` | module/framework.js:142-144 | Every `span[data-article-id]` carries `entity-link` and `wa-link`. The text of the tree is unchanged. |
| `Dom.TaggedInPlace` | module/framework.js:142-144 | At every position, text nodes are kept, and every element keeps its tag, attributes and number of children. A cross-reference span's classes become exactly its old ones plus `entity-link` and `wa-link`. Every other element keeps its classes. |
| `Dom.DataAttrs` | module/framework.js:149 | An attribute is copied iff the anchor has it and its name starts with `data-`. |
| `Dom.DemoteAnchors` | module/framework.js:145-152 | A tree without an `a[data-article-id]` is kept. An element that is not such an anchor keeps its tag, classes, attributes and number of children. |
| `Dom.AnchorDemotion` | module/framework.js:145-152 | A demoted `a[data-article-id]` is a `span`. Its classes are the anchor's plus `entity-link` and `wa-link`. Its attributes are exactly the anchor's data attributes, so it keeps `data-article-id` and has no `href`. Its text is the anchor's text. |
| `Dom.AnchorsDemoted` | module/framework.js:145-152 | After demotion, no `a[data-article-id]` is left in the tree, and the text of the whole tree is unchanged. |
| `Dom.AnchorsInPlace` | module/framework.js:145-152 | Each anchor not nested in another anchor gives way, where it stood, to the `span` with its classes plus the link classes, its data attributes and its text. Every other node keeps its place and its shell. |
| `FeaturedImage.Secure` | module/framework.js:125-127 | The first `http://` becomes `https://`: a URL starting with `http://` gets `https://` instead. A URL without `http://` is unchanged, and the result is empty iff the URL is. |
| `FeaturedImage.InitialImage` | module/framework.js:123-128 | The image before the body loop is null iff there is neither portrait nor cover. It is falsy iff the record it takes (the portrait if present, else the cover) has an empty URL. An `http://` portrait, or an `http://` cover without a portrait, is given the `https://` scheme. |
| `FeaturedImage.ChooseImage` | module/framework.js:131-139 | The loop's image is the result of `image = image \|\| src` applied over the body images in document order. |
| `FeaturedImage.LaterNeverOverride` | module/framework.js:138 | Once the image after some prefix of the body images is a non-empty URL, the remaining body images leave it unchanged. |
| `FeaturedImage.FirstImageWins` | module/framework.js:131-138 | When no non-empty image was chosen before the loop and the first body image has a non-empty URL, that image is the result. |
| `FeaturedImage.NullOnlyWithoutImages` | module/framework.js:123-138 | The image is null iff none was chosen before the loop and the body has no image. |
| `FeaturedImage.ImagePrecedence` | module/framework.js:122-139 | The secured portrait wins. Without a portrait, the secured cover wins. Without both, or with an empty portrait or cover URL, the first body image wins. The result is null iff there is no portrait, no cover and no body image. |
| `Framework.StylesheetLink` | module/framework.js:192 | The returned `<link>` holds no `%`, so the paragraph-break substitution never touches it. |
| `Framework.ParagraphBreaks` | module/framework.js:156 | HTML without `%p%` passes unchanged. |
| `Framework.NoPlaceholderLeft` | module/framework.js:156 | After the substitution, the HTML contains no `%p%`. None is left, and none is formed across a substituted break. |
| `Framework.ParagraphBreaksIdempotent` | module/framework.js:156 | Substituting the breaks a second time changes nothing. |
| `Framework.StylesheetFirst` | module/framework.js:155-156 | The stylesheet link stays at the head of the HTML, untouched by the substitution. |
| `Framework.FeaturedFromTree` | module/framework.js:122-139 | Each candidate of the image loop is the resolved `src` of the live image that replaces the corresponding `img`, in document order. Without a truthy portrait or cover, the first image of the tree wins when its URL is non-empty. The result is null iff the article has neither portrait nor cover and no position of the tree holds an `img`. |
| `Framework.BuildFragment` | module/framework.js:48-112 | The string handed to the container is the composed fragment of the article's sections and relations, with every `src=` deferred. |
| `Framework.RenderFragment` | module/framework.js:114-162 | For any fragment, the HTML is the break-substituted concatenation of the stylesheet link and the serialised rewritten tree, with the rewrites in source order: spacers, images, spans, anchors. It starts with the stylesheet link and contains no `%p%`. The image is the portrait, cover and body-image precedence applied over the images of the spacer-free tree. |
| `Framework.GetArticleContent` | module/framework.js:47-163 | The whole transformation: the tree stage applied to the deferred fragment of the article, with the same four guarantees. |
| `Framework.TownBody` | module/framework.js:64-79 | Concrete example: the article "Town", with a single section "History", has the body `<h2>History</h2>\n<p>Old.</p><hr/>`. |
| `Framework.TownImage` | module/framework.js:122-139 | Concrete example: the portrait `http://img/p.png` makes the image `https://img/p.png`, whatever the body holds. |

## Left out

- `importArticle` (module/framework.js:7-35) is not modelled. It creates or updates the Foundry `JournalEntry`, looks up the folder and shows notifications: host-application storage and UI.
- The three CSS rewrites in `_processCSS` (module/framework.js:177-181) are not modelled. They depend on JavaScript regular-expression backtracking semantics. Only the constant `<link>` it returns is modelled (`Framework.StylesheetLink`).
- The stylesheet upload (module/framework.js:182-190) is not modelled. It is fire-and-forget network I/O whose result is ignored.
- HTML parsing and serialisation (`innerHTML`) are the `parse` and `serialize` fields of `Host`, left uninterpreted. So is the URL serialisation of an image's `src` getter (`resolveUrl`). A property that depends on them is not stated. That one spacer gives one `</p>\n<p>` at its position is proved only in two halves: each spacer becomes a `%p%` node where it stood (`Dom.SpacersInPlace`), and each `%p%` in the final text becomes a break (`Framework.NoPlaceholderLeft`).
- `String.prototype.titleCase` and `game.i18n.localize` are uninterpreted `Host` functions.
- `Strings.Lower` lower-cases ASCII letters only. `toLowerCase` also maps non-ASCII letters, a few of which lower-case to ASCII (the Kelvin sign to `k`).
- The maps `sections` and `relations` are given as the sequence of their entries, in the order `Object.entries` yields them. JavaScript puts integer-like keys first; that ordering is the caller's.
- In-place DOM mutation (`replaceChild`, `replaceWith`, `classList.add`) is modelled as rebuilding an immutable tree value. Node identity and aliasing are not captured. A static `querySelectorAll` list can hold a match nested in an earlier, already-replaced match. Replacing that nested match changes only the detached subtree, so each of the three replacing rewrites (spacers, images, anchors) replaces the outermost matches only. Tagging cross-reference spans replaces nothing and reaches nested spans too.
- A relation group without `items` makes the source throw on `i.type`. The `Items` datatype has no missing case, so this error is not modelled.
- Missing fields other than a section's or group's `title` and an item's `type` are taken as present: the article's `title`, `url` and `content_parsed`, a section's `content_parsed`, an item's `id` and `title`, and the `url` of a present `portrait` or `cover`. For the first six the source would render `undefined`. A `portrait` or `cover` without `url` makes the source throw (module/framework.js:125 and 127): `ImageRef` always holds a URL, so this error is not modelled.
- `Dom.AddClass` does not model the token-list update that also removes duplicates already present in a `class` attribute.
- `Dom.DataAttrs` copies `data-*` attributes under their own names. It does not model the camel-case round trip through `dataset`, which is the identity for the lower-case names an HTML parser produces.
- `async`/`await` are not modelled: the stages run in sequence.
- `gulpfile.js` is not modelled. It is the LESS/YAML build script.
