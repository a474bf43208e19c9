/**
 * The compositor of `_getArticleContent`: it concatenates the heading, the
 * link back to World Anvil, the article container, the side panel and the
 * aside into one HTML fragment, and then defers every image by rewriting
 * each `src=` into `data-src=`.
 */
module Compositor {
  import opened Strings
  import opened ArticleData
  import opened Assembler

  /** The heading, `<h1>` with the article's title. */
  function Heading(a: Article): string {
    "<h1>" + a.title + "</h1>\n"
  }

  /** The link paragraph back to World Anvil, then the opened container holding the article's own content. */
  function LinkLine(a: Article, localize: string -> string): string {
    "<p><a href=\"" + a.url + "\" title=\"" + a.title + " " + localize("WA.OnWA") + "\" target=\"_blank\">"
    + a.url + "</a></p>\n<div class=\"article-container page\"><div class=\"article-content\">" + a.contentParsed
  }

  function Header(a: Article, localize: string -> string): string {
    Heading(a) + LinkLine(a, localize)
  }

  const PanelOpen := "<div class=\"panel panel-default\">"

  /** The side panel block: absent when all three zones are empty, else top, main and bottom in that order. */
  function PanelBlock(top: string, main: string, bottom: string): string {
    if top == "" && main == "" && bottom == "" then ""
    else PanelOpen + (top + main + bottom) + "</div>"
  }

  /** The aside block: absent when there is no relation entry. */
  function AsideBlock(aside: string): string {
    if aside == "" then "" else "<aside><dl>" + aside + "</dl></aside>"
  }

  /**
   * The fragment's layout: header, body and the closing of the article content,
   * side panel block, aside block, closing tag.
   */
  function Composed(a: Article, localize: string -> string, body: string,
                    top: string, main: string, bottom: string, aside: string): string {
    Header(a, localize) + (body + "</div><hr/>") + PanelBlock(top, main, bottom) + AsideBlock(aside) + "</div>"
  }

  /** The fragment composed from everything the assembler gathers from the article. */
  function ComposedFragment(a: Article, localize: string -> string, titleCase: string -> string): string {
    var es := Entries(a.sections);
    Composed(a, localize, ZoneText(es, titleCase, Body), ZoneText(es, titleCase, Top),
             ZoneText(es, titleCase, Main), ZoneText(es, titleCase, Bottom),
             AsideText(Entries(a.relations), titleCase))
  }

  /** Appending the panel's pieces one by one gives the panel block. */
  lemma PanelAppended(prefix: string, top: string, main: string, bottom: string)
    requires top != "" || main != "" || bottom != ""
    ensures prefix + PanelOpen + top + main + bottom + "</div>" == prefix + PanelBlock(top, main, bottom)
  {
  }

  /** The first two statements of the composition: the heading, then the link paragraph and container. */
  method OpenArticle(a: Article, localize: string -> string) returns (content: string)
    ensures content == Header(a, localize)
  {
    content := Heading(a);
    content := content + LinkLine(a, localize);
  }

  /** The side panel statements: the panel's pieces appended one by one, only when one of them is non-empty. */
  method AppendPanel(prefix: string, top: string, main: string, bottom: string) returns (content: string)
    ensures content == prefix + PanelBlock(top, main, bottom)
  {
    content := prefix;
    if top != "" || main != "" || bottom != "" {
      content := content + PanelOpen;
      if top != "" { content := content + top; }
      assert content == prefix + PanelOpen + top;
      if main != "" { content := content + main; }
      assert content == prefix + PanelOpen + top + main;
      if bottom != "" { content := content + bottom; }
      assert content == prefix + PanelOpen + top + main + bottom;
      content := content + "</div>";
      PanelAppended(prefix, top, main, bottom);
    }
  }

  /** The body, if there is one, then the closing of the article content, which is appended either way. */
  method AppendBody(prefix: string, body: string) returns (content: string)
    ensures content == prefix + (body + "</div><hr/>")
  {
    content := prefix;
    if body != "" {
      content := content + (body + "</div><hr/>");
    } else {
      content := content + "</div><hr/>";
    }
  }

  /** The aside block, appended only when some relation group produced an entry. */
  method AppendAside(prefix: string, aside: string) returns (content: string)
    ensures content == prefix + AsideBlock(aside)
  {
    content := prefix;
    if aside != "" {
      content := content + ("<aside><dl>" + aside + "</dl></aside>");
    }
  }

  /**
   * Builds the fragment step by step, as the source's `content +=` statements
   * do; `top`, `main` and `bottom` are the three fields of the side panel.
   */
  method Compose(a: Article, localize: string -> string, body: string,
                 top: string, main: string, bottom: string, aside: string)
    returns (content: string)
    ensures content == Composed(a, localize, body, top, main, bottom, aside)
  {
    content := OpenArticle(a, localize);
    content := AppendBody(content, body);
    content := AppendPanel(content, top, main, bottom);
    content := AppendAside(content, aside);
    content := content + "</div>";
  }

  /** An article without sections or relations composes to its header and the closing markup alone. */
  lemma EmptyArticleLayout(a: Article, localize: string -> string, titleCase: string -> string)
    requires Entries(a.sections) == [] && Entries(a.relations) == []
    ensures ComposedFragment(a, localize, titleCase) == Header(a, localize) + "</div><hr/>" + "</div>"
  {
    var es := Entries(a.sections);
    assert ZoneText(es, titleCase, Body) == "" && ZoneText(es, titleCase, Top) == "";
    assert ZoneText(es, titleCase, Main) == "" && ZoneText(es, titleCase, Bottom) == "";
    assert AsideText(Entries(a.relations), titleCase) == "";
    assert ComposedFragment(a, localize, titleCase) == Composed(a, localize, "", "", "", "", "");
    EmptyPiecesDropped(Header(a, localize), "</div><hr/>", "</div>");
  }

  /** Proof hint: empty pieces drop out of a concatenation. */
  lemma EmptyPiecesDropped(h: string, close: string, end: string)
    ensures h + ("" + close) + "" + "" + end == h + close + end
  {
  }

  /** Every `src=` of the fragment turned into `data-src=`; a fragment without `src=` is kept as it is. */
  function DeferSources(s: string): (r: string)
    ensures !Contains(s, "src=") ==> r == s
  {
    ReplaceAllWithoutMatch(s, "src=", "data-src=");
    ReplaceAll(s, "src=", "data-src=")
  }

  /** The inverse rewrite, `data-src=` back to `src=`. */
  function RestoreSources(s: string): string {
    ReplaceAll(s, "data-src=", "src=")
  }

  /** A deferred string starts with `w` only if its input does, for `w` free of `s` and `d`. */
  lemma {:induction false} DeferredStartsWith(x: string, w: string)
    requires forall k :: 0 <= k < |w| ==> w[k] != 's' && w[k] != 'd'
    ensures StartsWith(DeferSources(x), w) ==> StartsWith(x, w)
    decreases |w|
  {
    if w != [] && StartsWith(DeferSources(x), w) {
      var u := DeferSources(x);
      assert x != [];
      ReplaceAllHead(x, "src=", "data-src=");
      assert u[0] == w[0];
      assert x[0] == w[0];
      ReplaceAllKeepsPrefix([x[0]], x[1..], "src=", "data-src=");
      assert [x[0]] + x[1..] == x;
      assert u == [x[0]] + DeferSources(x[1..]);
      assert StartsWith(DeferSources(x[1..]), w[1..]) by {
        assert DeferSources(x[1..])[..|w| - 1] == u[1..|w|];
      }
      DeferredStartsWith(x[1..], w[1..]);
    }
  }

  /** Every `src=` of `t` is immediately preceded by `data-`. */
  ghost predicate SourcesPreceded(t: string) {
    forall i: nat :: OccursAt(t, "src=", i) ==> 5 <= i && t[i - 5..i] == "data-"
  }

  /** An occurrence past a prefix `c` is one of the rest, and so is preceded as the rest's are. */
  lemma PrecededPastPrefix(c: string, rest: string, i: nat)
    requires SourcesPreceded(rest)
    requires |c| <= i && OccursAt(c + rest, "src=", i)
    ensures 5 <= i && (c + rest)[i - 5..i] == "data-"
  {
    OccursAtShift(c, rest, "src=", i - |c|);
    SliceShift(c, rest, i - |c| - 5, i - |c|);
  }

  /** The `src=` inside an inserted `data-src=` is preceded by `data-`. */
  lemma PrecededInInserted(rest: string, i: nat)
    requires i < 9 && OccursAt("data-src=" + rest, "src=", i)
    ensures 5 <= i && ("data-src=" + rest)[i - 5..i] == "data-"
  {
    var t := "data-src=" + rest;
    assert t[..9] == "data-src=";
    assert t[i] == 's';
    assert i == 5;
    assert t[0..5] == "data-";
  }

  /** A character other than the start of `src=` cannot be followed by `rc=` in the deferred rest. */
  lemma NoSourceAtHead(s: string)
    requires |s| >= 4 && s[..4] != "src="
    ensures !OccursAt([s[0]] + DeferSources(s[1..]), "src=", 0)
  {
    var rest := DeferSources(s[1..]);
    var t := [s[0]] + rest;
    if |t| >= 4 {
      if s[0] == 's' {
        assert s[..4] == [s[0]] + s[1..][..3];
        assert !StartsWith(s[1..], "rc=");
        DeferredStartsWith(s[1..], "rc=");
        assert t[1..4] == rest[..3] != "rc=";
        assert t[0..4][1..] == t[1..4];
      } else {
        assert t[0..4][0] != 's';
      }
    }
  }

  /** After the rewrite every `src=` is immediately preceded by `data-`. */
  lemma {:induction false} DeferredSourcesPreceded(s: string)
    ensures SourcesPreceded(DeferSources(s))
    decreases |s|
  {
    var t := DeferSources(s);
    if |s| < 4 {
      assert t == s;
    } else if s[..4] == "src=" {
      var rest := DeferSources(s[4..]);
      DeferredSourcesPreceded(s[4..]);
      assert t == "data-src=" + rest;
      forall i: nat | OccursAt(t, "src=", i) ensures 5 <= i && t[i - 5..i] == "data-" {
        if i < 9 {
          PrecededInInserted(rest, i);
        } else {
          PrecededPastPrefix("data-src=", rest, i);
        }
      }
    } else {
      var rest := DeferSources(s[1..]);
      DeferredSourcesPreceded(s[1..]);
      assert t == [s[0]] + rest;
      NoSourceAtHead(s);
      forall i: nat | OccursAt(t, "src=", i) ensures 5 <= i && t[i - 5..i] == "data-" {
        PrecededPastPrefix([s[0]], rest, i);
      }
    }
  }

  /**
   * Turning every `data-src=` back into `src=` restores the original exactly: the
   * rewrite changes nothing but the inserted `data-` prefixes.
   */
  lemma {:induction false} RestoreUndoesDefer(s: string)
    ensures RestoreSources(DeferSources(s)) == s
    decreases |s|
  {
    var t := DeferSources(s);
    if |s| < 4 {
      assert t == s;
    } else if s[..4] == "src=" {
      var rest := DeferSources(s[4..]);
      RestoreUndoesDefer(s[4..]);
      assert t == "data-src=" + rest;
      assert t[..9] == "data-src=" && t[9..] == rest;
      assert "src=" + s[4..] == s;
    } else {
      var rest := DeferSources(s[1..]);
      RestoreUndoesDefer(s[1..]);
      assert t == [s[0]] + rest;
      if |t| < 9 {
        assert RestoreSources(rest) == rest;
      } else {
        if t[..9] == "data-src=" {
          assert rest[4..8] == t[5..9];
          DeferredSourcesPreceded(s[1..]);
          assert OccursAt(rest, "src=", 4);
          assert false;
        }
        assert t[1..] == rest;
      }
      assert [s[0]] + s[1..] == s;
    }
  }
}
