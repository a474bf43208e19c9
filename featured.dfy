/**
 * The featured image of `_getArticleContent`: the portrait, else the cover,
 * each forced to `https://`, else the first image of the body.
 */
module FeaturedImage {
  import opened Wrappers
  import opened Strings
  import opened ArticleData

  /**
   * The first `http://` of the URL made `https://`: an `http://` URL gets the secure scheme,
   * a URL without `http://` is kept, and "" stays "".
   */
  function Secure(url: string): (r: string)
    ensures StartsWith(url, "http://") ==> r == "https://" + url[7..]
    ensures !Contains(url, "http://") ==> r == url
    ensures r == "" <==> url == ""
  {
    ReplaceFirstSpec(url, "http://", "https://");
    ReplaceFirst(url, "http://", "https://")
  }

  /**
   * The image chosen before the body is searched: the portrait, else the cover, else null.
   * It is falsy exactly when no such record is present or the chosen record's URL is empty.
   */
  function InitialImage(a: Article): (r: Option<string>)
    ensures r.None? <==> a.portrait.None? && a.cover.None?
    ensures Truthy(r) <==> if a.portrait.Some? then a.portrait.value.url != "" else a.cover.Some? && a.cover.value.url != ""
    ensures a.portrait.Some? && StartsWith(a.portrait.value.url, "http://") ==>
      r == Some("https://" + a.portrait.value.url[7..])
    ensures a.portrait.None? && a.cover.Some? && StartsWith(a.cover.value.url, "http://") ==>
      r == Some("https://" + a.cover.value.url[7..])
  {
    if a.portrait.Some? then Some(Secure(a.portrait.value.url))
    else if a.cover.Some? then Some(Secure(a.cover.value.url))
    else None
  }

  /** The image once the body loop has run over `sources` in document order, each source taking over a falsy image. */
  function Featured(initial: Option<string>, sources: seq<string>): Option<string>
    decreases |sources|
  {
    if sources == [] then initial
    else
      var before := Featured(initial, sources[..|sources| - 1]);
      if Truthy(before) then before else Some(sources[|sources| - 1])
  }

  /** The body-image loop, keeping the image already chosen unless it is falsy. */
  method ChooseImage(initial: Option<string>, sources: seq<string>) returns (image: Option<string>)
    ensures image == Featured(initial, sources)
  {
    image := initial;
    for i := 0 to |sources|
      invariant image == Featured(initial, sources[..i])
    {
      if !Truthy(image) {
        image := Some(sources[i]);
      }
      assert sources[..i + 1][..i] == sources[..i];
    }
    assert sources[..|sources|] == sources;
  }

  /** Once an image is set, no later image overrides it. */
  lemma {:induction false} LaterNeverOverride(initial: Option<string>, sources: seq<string>, k: nat)
    requires k <= |sources|
    requires Truthy(Featured(initial, sources[..k]))
    ensures Featured(initial, sources) == Featured(initial, sources[..k])
    decreases |sources|
  {
    if k < |sources| {
      var front := sources[..|sources| - 1];
      assert front[..k] == sources[..k];
      LaterNeverOverride(initial, front, k);
    } else {
      assert sources[..k] == sources;
    }
  }

  /** The first body image is taken when nothing truthy was chosen before it. */
  lemma FirstImageWins(initial: Option<string>, sources: seq<string>)
    requires !Truthy(initial) && |sources| > 0 && sources[0] != ""
    ensures Featured(initial, sources) == Some(sources[0])
  {
    assert sources[..1][..0] == [];
    LaterNeverOverride(initial, sources, 1);
  }

  /** The image is null only when no image was chosen before and the body has none. */
  lemma NullOnlyWithoutImages(initial: Option<string>, sources: seq<string>)
    ensures Featured(initial, sources).None? <==> initial.None? && sources == []
  {
  }

  /**
   * Portrait before cover before the first body image; an empty portrait or
   * cover URL is falsy and gives way to the first body image.
   */
  lemma ImagePrecedence(a: Article, sources: seq<string>)
    ensures a.portrait.Some? && a.portrait.value.url != "" ==>
      Featured(InitialImage(a), sources) == Some(Secure(a.portrait.value.url))
    ensures a.portrait.None? && a.cover.Some? && a.cover.value.url != "" ==>
      Featured(InitialImage(a), sources) == Some(Secure(a.cover.value.url))
    ensures !Truthy(InitialImage(a)) && |sources| > 0 && sources[0] != "" ==>
      Featured(InitialImage(a), sources) == Some(sources[0])
    ensures a.portrait.Some? && a.portrait.value.url == "" ==> !Truthy(InitialImage(a))
    ensures Featured(InitialImage(a), sources).None? <==> a.portrait.None? && a.cover.None? && sources == []
  {
    if Truthy(InitialImage(a)) {
      LaterNeverOverride(InitialImage(a), sources, 0);
      assert sources[..0] == [];
    } else if |sources| > 0 && sources[0] != "" {
      FirstImageWins(InitialImage(a), sources);
    }
    NullOnlyWithoutImages(InitialImage(a), sources);
  }
}
