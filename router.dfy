/** The hash router: `route` turns the URL fragment into the page to show, and
    `navigate` decides between assigning the fragment and routing at once. */
module Router {
  import opened Optional

  /** The two pages: the post list, and one post named by its slug. */
  datatype Route = ListPage | PostPage(slug: string)

  /** The fragment of the list page, and what an absent fragment defaults to. */
  const ListHash: string := "#/"

  /** What precedes the slug in the fragment of a post page. */
  const PostPrefix: string := "#/post/"

  /** The slug alphabet `[a-z0-9-]`. */
  predicate IsSlugChar(c: char) {
    'a' <= c <= 'z' || '0' <= c <= '9' || c == '-'
  }

  /** `[a-z0-9-]+`: one or more slug characters. */
  predicate IsSlug(s: string) {
    |s| > 0 && forall i :: 0 <= i < |s| ==> IsSlugChar(s[i])
  }

  /** The fragment a card links to for a post (`#/post/${slug}`). */
  function PostHash(slug: string): string {
    PostPrefix + slug
  }

  /** Matches `h` against the anchored pattern `^#\/(?:post\/([a-z0-9-]+))?$`:
      `None` when it does not match, otherwise the optional capture group. */
  function MatchHash(h: string): (m: Option<Option<string>>)
    ensures m == Some(None) <==> h == ListHash
    ensures m.Some? && m.value.Some? <==> PostPrefix <= h && IsSlug(h[|PostPrefix|..])
    ensures m.Some? && m.value.Some? ==> h == PostPrefix + m.value.value
  {
    if |h| < 2 || h[0] != '#' || h[1] != '/' then None
    else
      var rest := h[2..];
      SplitAfterListHash(h);
      if rest == "" then Some(None)
      else if |rest| > 5 && rest[..5] == "post/" && IsSlug(rest[5..]) then Some(Some(rest[5..]))
      else None
  }

  /** How a fragment that starts with `#/` divides into the post prefix and the
      rest. */
  lemma SplitAfterListHash(h: string)
    requires |h| >= 2 && h[0] == '#' && h[1] == '/'
    ensures h == ListHash + h[2..]
    ensures PostPrefix <= h <==> |h| >= 7 && h[2..][..5] == "post/"
    ensures |h| >= 7 ==> h[|PostPrefix|..] == h[2..][5..]
    ensures PostPrefix <= h ==> h == PostPrefix + h[|PostPrefix|..]
  {
    assert h[..2] == ListHash;
    if |h| >= 7 {
      assert h[2..][..5] == h[2..7];
      assert h[..7] == h[..2] + h[2..7];
      assert PostPrefix <= h <==> h[..7] == PostPrefix;
      assert h[7..] == h[2..][5..];
    }
  }

  /** `route`: an empty fragment counts as `#/`; a fragment that does not match,
      or matches without a slug, shows the list; otherwise the post. */
  function ParseRoute(hash: string): (r: Route)
    ensures hash == "" ==> r == ListPage
    ensures r.PostPage? <==> PostPrefix <= hash && IsSlug(hash[|PostPrefix|..])
    ensures r.PostPage? ==> hash == PostHash(r.slug) && IsSlug(r.slug)
  {
    var h := if hash == "" then ListHash else hash;
    match MatchHash(h)
    case None => ListPage
    case Some(None) => ListPage
    case Some(Some(slug)) => if slug == "" then ListPage else PostPage(slug)
  }

  /** The fragment of a page: the link the page is reached by. */
  function HashOf(r: Route): string {
    match r
    case ListPage => ListHash
    case PostPage(slug) => PostHash(slug)
  }

  /** A card's link leads to its post exactly when the slug is in the slug
      alphabet; any other slug leads back to the list. */
  lemma {:induction false} PostLinkRoutes(slug: string)
    ensures ParseRoute(PostHash(slug)) == if IsSlug(slug) then PostPage(slug) else ListPage
  {
    assert PostHash(slug)[|PostPrefix|..] == slug;
  }

  /** Routing the fragment of a page gives that page back, for every page whose
      slug is in the slug alphabet; and every fragment that routes to a post is
      that post's fragment. */
  lemma RouteRoundTrip(r: Route, hash: string)
    ensures r.ListPage? || IsSlug(r.slug) ==> ParseRoute(HashOf(r)) == r
    ensures ParseRoute(hash).PostPage? ==> HashOf(ParseRoute(hash)) == hash
  {
    if r.PostPage? {
      PostLinkRoutes(r.slug);
    }
  }

  /** The fragments that show the list: `#/`, the empty fragment, `#/post/` with
      no slug, and `#/post/` followed by anything with a character outside the
      slug alphabet (an upper-case letter, a further `/`). */
  lemma ListFallbacks(rest: string)
    ensures ParseRoute("") == ListPage && ParseRoute(ListHash) == ListPage
    ensures ParseRoute(PostPrefix) == ListPage
    ensures (exists i :: 0 <= i < |rest| && !IsSlugChar(rest[i])) ==> ParseRoute(PostPrefix + rest) == ListPage
  {
    assert (PostPrefix + rest)[|PostPrefix|..] == rest;
  }
}
