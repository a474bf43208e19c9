/**
 * The section assembler of `_getArticleContent`: it walks the article's
 * sections, diverting three reserved titles into the side panel and
 * appending every other section to the body, and then walks the relation
 * groups, listing each group's cross-references in the aside.
 */
module Assembler {
  import opened Wrappers
  import opened Strings
  import opened ArticleData

  /** Where a section goes: one of the three side-panel zones or the article body. */
  datatype Zone = Top | Main | Bottom | Body

  /** The zone chosen by the lower-cased display title: only the three reserved titles leave the body. */
  function Placement(title: string): (z: Zone)
    ensures z == Main <==> Lower(title) == "sidepanelcontent"
    ensures z == Bottom <==> Lower(title) == "sidebarcontentbottom"
    ensures z == Top <==> Lower(title) == "sidebarcontenttop"
  {
    var t := Lower(title);
    if t == "sidepanelcontent" then Main
    else if t == "sidebarcontentbottom" then Bottom
    else if t == "sidebarcontenttop" then Top
    else Body
  }

  /** Lower-casing is idempotent on every character. */
  lemma LowerIdempotent(s: string)
    ensures Lower(Lower(s)) == Lower(s)
  {
    var t := Lower(s);
    forall i | 0 <= i < |s| ensures Lower(t)[i] == t[i] {
      assert t[i] == LowerChar(s[i]);
    }
  }

  /** The zone ignores the case of the title: a title and its lower-cased form land together. */
  lemma PlacementIgnoresCase(title: string)
    ensures Placement(Lower(title)) == Placement(title)
  {
    LowerIdempotent(title);
  }

  /** The wrapper a section gets in its zone. */
  function Chunk(z: Zone, title: string, content: string): string {
    match z
    case Main => "<div class=\"sidebar-content\">" + content + "</div><hr/>"
    case Bottom => "<div class=\"sidebar-bottom\">" + content + "</div><hr/>"
    case Top => "<div class=\"sidebar-top\">" + content + "</div><hr/>"
    case Body => "<h2>" + title + "</h2>\n<p>" + content + "</p><hr/>"
  }

  function SectionTitle(e: (string, Section), titleCase: string -> string): string {
    DisplayTitle(e.1.title, e.0, titleCase)
  }

  /** What section `e` adds to zone `z`: its wrapped content if it is placed there, else nothing. */
  function SectionPiece(e: (string, Section), titleCase: string -> string, z: Zone): string {
    var t := SectionTitle(e, titleCase);
    if Placement(t) == z then Chunk(z, t, e.1.contentParsed) else ""
  }

  function SectionPieces(entries: seq<(string, Section)>, titleCase: string -> string, z: Zone): seq<string> {
    seq(|entries|, k requires 0 <= k < |entries| => SectionPiece(entries[k], titleCase, z))
  }

  /** The text zone `z` accumulates over `entries`, in entry order. */
  function ZoneText(entries: seq<(string, Section)>, titleCase: string -> string, z: Zone): string {
    ConcatAll(SectionPieces(entries, titleCase, z))
  }

  /** The entries of a possibly missing map: a missing map has none. */
  function Entries<T>(m: Option<seq<T>>): seq<T> {
    match m
    case None => []
    case Some(es) => es
  }

  lemma ZoneTextSnoc(entries: seq<(string, Section)>, titleCase: string -> string, z: Zone, i: nat)
    requires i < |entries|
    ensures ZoneText(entries[..i + 1], titleCase, z)
         == ZoneText(entries[..i], titleCase, z) + SectionPiece(entries[i], titleCase, z)
  {
    var ps := SectionPieces(entries[..i + 1], titleCase, z);
    assert ps[..|ps| - 1] == SectionPieces(entries[..i], titleCase, z);
  }

  /** The pieces before and after position `k` are the pieces of the sections before and after it. */
  lemma SectionPiecesAround(entries: seq<(string, Section)>, titleCase: string -> string, z: Zone, k: nat)
    requires k < |entries|
    ensures SectionPieces(entries, titleCase, z)[..k] == SectionPieces(entries[..k], titleCase, z)
    ensures SectionPieces(entries, titleCase, z)[k + 1..] == SectionPieces(entries[k + 1..], titleCase, z)
  {
  }

  /**
   * A section lands in exactly one place: the zone its title selects, at the
   * position of the section among the others; every other zone is as if the
   * section were absent. In particular a reserved title never reaches the body.
   */
  lemma SectionPlacement(entries: seq<(string, Section)>, titleCase: string -> string, k: nat, z: Zone)
    requires k < |entries|
    ensures var t := SectionTitle(entries[k], titleCase);
      ZoneText(entries, titleCase, z)
        == ZoneText(entries[..k], titleCase, z)
         + (if Placement(t) == z then Chunk(z, t, entries[k].1.contentParsed) else "")
         + ZoneText(entries[k + 1..], titleCase, z)
  {
    var ps := SectionPieces(entries, titleCase, z);
    ConcatAllSplit(ps, k);
    SectionPiecesAround(entries, titleCase, z, k);
  }

  /** Position `j` of the sections, and the sections around it, seen from the suffix after `i`. */
  lemma SuffixAround<T>(xs: seq<T>, i: nat, j: nat)
    requires i < j < |xs|
    ensures xs[i + 1..][j - i - 1] == xs[j]
    ensures xs[i + 1..][..j - i - 1] == xs[i + 1..j]
    ensures xs[i + 1..][j - i..] == xs[j + 1..]
  {
  }

  /** Two sections of the same zone keep their input order in that zone's text. */
  lemma SectionOrder(entries: seq<(string, Section)>, titleCase: string -> string, z: Zone, i: nat, j: nat)
    requires i < j < |entries|
    requires Placement(SectionTitle(entries[i], titleCase)) == z
    requires Placement(SectionTitle(entries[j], titleCase)) == z
    ensures ZoneText(entries, titleCase, z)
         == ZoneText(entries[..i], titleCase, z)
          + Chunk(z, SectionTitle(entries[i], titleCase), entries[i].1.contentParsed)
          + ZoneText(entries[i + 1..j], titleCase, z)
          + Chunk(z, SectionTitle(entries[j], titleCase), entries[j].1.contentParsed)
          + ZoneText(entries[j + 1..], titleCase, z)
  {
    var rest := entries[i + 1..];
    var before := ZoneText(entries[..i], titleCase, z);
    var first := Chunk(z, SectionTitle(entries[i], titleCase), entries[i].1.contentParsed);
    var between := ZoneText(entries[i + 1..j], titleCase, z);
    var second := Chunk(z, SectionTitle(entries[j], titleCase), entries[j].1.contentParsed);
    var after := ZoneText(entries[j + 1..], titleCase, z);
    SectionPlacement(entries, titleCase, i, z);
    assert ZoneText(entries, titleCase, z) == before + first + ZoneText(rest, titleCase, z);
    SectionPlacement(rest, titleCase, j - i - 1, z);
    SuffixAround(entries, i, j);
    assert ZoneText(rest, titleCase, z) == between + second + after;
    Regroup(before + first, between, second, after);
  }

  /** The object literal `sidePanel` whose three accumulators the section loop appends to. */
  class SidePanel {
    var top: string
    var main: string
    var bottom: string

    constructor ()
      ensures top == "" && main == "" && bottom == ""
    {
      top, main, bottom := "", "", "";
    }
  }

  /** The section loop: the body text, and a fresh side panel holding the three zones. */
  method AssembleSections(sections: Option<seq<(string, Section)>>, titleCase: string -> string)
    returns (body: string, panel: SidePanel)
    ensures fresh(panel)
    ensures body == ZoneText(Entries(sections), titleCase, Body)
    ensures panel.top == ZoneText(Entries(sections), titleCase, Top)
    ensures panel.main == ZoneText(Entries(sections), titleCase, Main)
    ensures panel.bottom == ZoneText(Entries(sections), titleCase, Bottom)
    ensures sections.None? ==> body == "" && panel.top == "" && panel.main == "" && panel.bottom == ""
  {
    body := "";
    panel := new SidePanel();
    if sections.Some? {
      var entries := sections.value;
      for i := 0 to |entries|
        invariant body == ZoneText(entries[..i], titleCase, Body)
        invariant panel.top == ZoneText(entries[..i], titleCase, Top)
        invariant panel.main == ZoneText(entries[..i], titleCase, Main)
        invariant panel.bottom == ZoneText(entries[..i], titleCase, Bottom)
      {
        var (id, section) := entries[i];
        var title := DisplayTitle(section.title, id, titleCase);
        var key := Lower(title);
        if key == "sidepanelcontent" {
          var wrapped := "<div class=\"sidebar-content\">" + section.contentParsed + "</div><hr/>";
          panel.main := panel.main + wrapped;
        } else if key == "sidebarcontentbottom" {
          var wrapped := "<div class=\"sidebar-bottom\">" + section.contentParsed + "</div><hr/>";
          panel.bottom := panel.bottom + wrapped;
        } else if key == "sidebarcontenttop" {
          var wrapped := "<div class=\"sidebar-top\">" + section.contentParsed + "</div><hr/>";
          panel.top := panel.top + wrapped;
        } else {
          var heading := "<h2>" + title + "</h2>\n<p>" + section.contentParsed + "</p><hr/>";
          body := body + heading;
        }
        ZoneTextSnoc(entries, titleCase, Body, i);
        ZoneTextSnoc(entries, titleCase, Top, i);
        ZoneTextSnoc(entries, titleCase, Main, i);
        ZoneTextSnoc(entries, titleCase, Bottom, i);
      }
      assert entries[..|entries|] == entries;
    }
  }

  /** Relation items of these two types are not cross-references. */
  predicate Excluded(i: RelationItem) {
    i.itemType == Some("customarticletemplate") || i.itemType == Some("image")
  }

  /** The items of a group as a list: a single item counts as a one-element list. */
  function ItemList(items: Items): seq<RelationItem> {
    match items
    case One(i) => [i]
    case Many(l) => l
  }

  /** The `filter` on the item type: the items that are shown, in their order. */
  function Survivors(items: seq<RelationItem>): (r: seq<RelationItem>)
    ensures |r| <= |items|
    ensures forall x :: x in r <==> x in items && !Excluded(x)
    decreases |items|
  {
    if items == [] then []
    else (if Excluded(items[0]) then [] else [items[0]]) + Survivors(items[1..])
  }

  /** The inline marker of one item, with the literal `< span` the source writes. */
  function Marker(i: RelationItem): string {
    "< span data-article-id=\"" + i.id + "\" data-template=\"" + Interpolate(i.itemType) + "\">" + i.title + " </span>"
  }

  function Markers(items: seq<RelationItem>): seq<string> {
    seq(|items|, k requires 0 <= k < |items| => Marker(items[k]))
  }

  /** What one relation group adds to the aside. */
  function GroupEntry(id: string, g: RelationGroup, titleCase: string -> string): string {
    var shown := Survivors(ItemList(g.items));
    if |shown| > 0 then
      "<dt>" + DisplayTitle(g.title, id, titleCase) + ":</dt><dd>" + Join(Markers(shown), ", ") + "</dd>"
    else ""
  }

  function GroupPieces(groups: seq<(string, RelationGroup)>, titleCase: string -> string): seq<string> {
    seq(|groups|, k requires 0 <= k < |groups| => GroupEntry(groups[k].0, groups[k].1, titleCase))
  }

  /** The aside text accumulated over the relation groups, in group order. */
  function AsideText(groups: seq<(string, RelationGroup)>, titleCase: string -> string): string {
    ConcatAll(GroupPieces(groups, titleCase))
  }

  /** The markers shown are exactly those of the items whose type is not excluded. */
  lemma {:induction false} MarkedItems(items: seq<RelationItem>)
    ensures forall x :: x in items && !Excluded(x) ==> Marker(x) in Markers(Survivors(items))
    ensures forall m :: m in Markers(Survivors(items)) ==>
      exists x :: x in items && !Excluded(x) && m == Marker(x)
  {
    var shown := Survivors(items);
    forall x | x in items && !Excluded(x) ensures Marker(x) in Markers(shown) {
      var k :| 0 <= k < |shown| && shown[k] == x;
      assert Markers(shown)[k] == Marker(x);
    }
    forall m | m in Markers(shown) ensures exists x :: x in items && !Excluded(x) && m == Marker(x) {
      var k :| 0 <= k < |shown| && Markers(shown)[k] == m;
      assert shown[k] in shown;
    }
  }

  /** A relation group adds its entry at its own position among the groups. */
  lemma RelationGroupPlacement(groups: seq<(string, RelationGroup)>, titleCase: string -> string, k: nat)
    requires k < |groups|
    ensures AsideText(groups, titleCase)
         == AsideText(groups[..k], titleCase) + GroupEntry(groups[k].0, groups[k].1, titleCase)
          + AsideText(groups[k + 1..], titleCase)
  {
    var ps := GroupPieces(groups, titleCase);
    ConcatAllSplit(ps, k);
    GroupPiecesAround(groups, titleCase, k);
  }

  /** The entries before and after position `k` are the entries of the groups before and after it. */
  lemma GroupPiecesAround(groups: seq<(string, RelationGroup)>, titleCase: string -> string, k: nat)
    requires k < |groups|
    ensures GroupPieces(groups, titleCase)[..k] == GroupPieces(groups[..k], titleCase)
    ensures GroupPieces(groups, titleCase)[k + 1..] == GroupPieces(groups[k + 1..], titleCase)
  {
    var ps := GroupPieces(groups, titleCase);
    forall i | 0 <= i < k ensures ps[..k][i] == GroupPieces(groups[..k], titleCase)[i] {
      assert groups[..k][i] == groups[i];
    }
    var after, tail := groups[k + 1..], ps[k + 1..];
    forall i | 0 <= i < |after| ensures tail[i] == GroupPieces(after, titleCase)[i] {
      assert after[i] == groups[k + 1 + i];
    }
  }

  /** A group's entry is empty exactly when every one of its items is excluded. */
  lemma EmptyGroupEntry(id: string, g: RelationGroup, titleCase: string -> string)
    ensures GroupEntry(id, g, titleCase) == "" <==> forall x :: x in ItemList(g.items) ==> Excluded(x)
  {
    var shown := Survivors(ItemList(g.items));
    if |shown| > 0 {
      assert shown[0] in shown;
    }
  }

  lemma {:induction false} SurvivorsIdempotent(items: seq<RelationItem>)
    ensures Survivors(Survivors(items)) == Survivors(items)
    decreases |items|
  {
    if items != [] {
      SurvivorsIdempotent(items[1..]);
      var head := if Excluded(items[0]) then [] else [items[0]];
      SurvivorsAppend(head, Survivors(items[1..]));
    }
  }

  lemma {:induction false} SurvivorsAppend(a: seq<RelationItem>, b: seq<RelationItem>)
    ensures Survivors(a + b) == Survivors(a) + Survivors(b)
    decreases |a|
  {
    if a == [] {
      assert a + b == b;
    } else {
      assert (a + b)[0] == a[0];
      assert (a + b)[1..] == a[1..] + b;
      SurvivorsAppend(a[1..], b);
    }
  }

  /** Each group with its items already filtered and given as a list. */
  function Prefiltered(groups: seq<(string, RelationGroup)>): seq<(string, RelationGroup)> {
    seq(|groups|, k requires 0 <= k < |groups| =>
      (groups[k].0, RelationGroup(groups[k].1.title, Many(Survivors(ItemList(groups[k].1.items))))))
  }

  /** Removing the excluded items beforehand does not change the aside: filtering is idempotent. */
  lemma PrefilteredAside(groups: seq<(string, RelationGroup)>, titleCase: string -> string)
    ensures AsideText(Prefiltered(groups), titleCase) == AsideText(groups, titleCase)
  {
    var pre := Prefiltered(groups);
    forall k | 0 <= k < |groups|
      ensures GroupPieces(pre, titleCase)[k] == GroupPieces(groups, titleCase)[k]
    {
      SurvivorsIdempotent(ItemList(groups[k].1.items));
    }
    assert GroupPieces(pre, titleCase) == GroupPieces(groups, titleCase);
  }

  /** A single item stands for the one-element list holding it. */
  lemma ScalarItemsAsList(id: string, title: Option<string>, x: RelationItem, titleCase: string -> string)
    ensures GroupEntry(id, RelationGroup(title, One(x)), titleCase)
         == GroupEntry(id, RelationGroup(title, Many([x])), titleCase)
  {
  }

  lemma GroupPiecesSnoc(groups: seq<(string, RelationGroup)>, titleCase: string -> string, i: nat)
    requires i < |groups|
    ensures AsideText(groups[..i + 1], titleCase)
         == AsideText(groups[..i], titleCase) + GroupEntry(groups[i].0, groups[i].1, titleCase)
  {
    var ps := GroupPieces(groups[..i + 1], titleCase);
    assert ps[..|ps| - 1] == GroupPieces(groups[..i], titleCase);
  }

  /** The relation loop: one `<dt>/<dd>` entry per group that has an item to show. */
  method AssembleRelations(relations: Option<seq<(string, RelationGroup)>>, titleCase: string -> string)
    returns (aside: string)
    ensures aside == AsideText(Entries(relations), titleCase)
    ensures relations.None? ==> aside == ""
  {
    aside := "";
    if relations.Some? {
      var groups := relations.value;
      for i := 0 to |groups|
        invariant aside == AsideText(groups[..i], titleCase)
      {
        var (id, group) := groups[i];
        var title := DisplayTitle(group.title, id, titleCase);
        var items := match group.items case One(x) => [x] case Many(l) => l;
        var markers := Markers(Survivors(items));
        if |markers| > 0 {
          var entry := "<dt>" + title + ":</dt><dd>" + Join(markers, ", ") + "</dd>";
          aside := aside + entry;
        }
        GroupPiecesSnoc(groups, titleCase, i);
      }
      assert groups[..|groups|] == groups;
    }
  }
}
