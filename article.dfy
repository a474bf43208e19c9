/**
 * The World Anvil article record that `_getArticleContent` reads, and the
 * record it returns. Maps of the source (`article.sections`,
 * `article.relations`) are the sequences of their entries, in the order
 * `Object.entries` yields them; a field that may be missing is an `Option`.
 */
module ArticleData {
  import opened Wrappers

  /** One entry of `article.sections`: an optional title and its rendered HTML. */
  datatype Section = Section(title: Option<string>, contentParsed: string)

  /** A cross-reference; `itemType` is the item's `type`, which may be missing. */
  datatype RelationItem = RelationItem(id: string, itemType: Option<string>, title: string)

  /** `items` of a relation group: World Anvil sends either one item or a list. */
  datatype Items = One(item: RelationItem) | Many(list: seq<RelationItem>)

  datatype RelationGroup = RelationGroup(title: Option<string>, items: Items)

  /** `article.portrait` and `article.cover`. */
  datatype ImageRef = ImageRef(url: string)

  datatype Article = Article(
    title: string,
    url: string,
    contentParsed: string,
    sections: Option<seq<(string, Section)>>,
    relations: Option<seq<(string, RelationGroup)>>,
    portrait: Option<ImageRef>,
    cover: Option<ImageRef>)

  /** What `_getArticleContent` returns: `{html, img}`, with `img` possibly null. */
  datatype TransformResult = TransformResult(html: string, img: Option<string>)

  /** JavaScript truthiness of a possibly missing string: missing and "" are falsy. */
  predicate Truthy(s: Option<string>) {
    s.Some? && s.value != ""
  }

  /** The display title of a section or a relation group: its own title when truthy, else its title-cased key. */
  function DisplayTitle(title: Option<string>, id: string, titleCase: string -> string): string {
    if Truthy(title) then title.value else titleCase(id)
  }
}
