/** The page: the application state (`posts`, `filtered`, `loaded`), the
    fragment in the address bar and the search box's text, with the start-up
    load, the search and clear handlers, and the choice of what to render. */
module App {
  import opened Optional
  import opened Posts
  import opened Router

  /** What the page shows: the empty-state message, one card per post, the
      not-found message, or one post's article. */
  datatype Screen = EmptyList | Cards(cards: seq<Post>) | NotFound | Article(post: Post)

  /** The outcome of reading the post data (inline JSON or `posts/posts.json`):
      the parsed array, or a failure of the read, of the parse or of the sort. */
  datatype LoadResult = Loaded(data: seq<Post>) | LoadFailed

  /** `renderList` on the filtered posts, or `renderPost` looking the slug up in
      all posts. */
  function Render(route: Route, posts: seq<Post>, filtered: seq<Post>): (s: Screen)
    ensures s == EmptyList <==> route.ListPage? && filtered == []
    ensures s.Cards? <==> route.ListPage? && filtered != []
    ensures s.Cards? ==> s.cards == filtered
    ensures s == NotFound <==> route.PostPage? && forall i :: 0 <= i < |posts| ==> posts[i].slug != route.slug
    ensures s.Article? ==> route.PostPage? && s.post in posts && s.post.slug == route.slug
  {
    match route
    case ListPage => if |filtered| == 0 then EmptyList else Cards(filtered)
    case PostPage(slug) =>
      match FindBySlug(posts, slug)
      case None => NotFound
      case Some(p) => Article(p)
  }

  /** A post's link shows its article whatever the search has filtered, as long
      as its slug is in the slug alphabet and no other post shares it. */
  lemma PostLinkShowsArticle(posts: seq<Post>, filtered: seq<Post>, p: Post)
    requires UniqueSlugs(posts) && p in posts && IsSlug(p.slug)
    ensures Render(ParseRoute(PostHash(p.slug)), posts, filtered) == Article(p)
  {
    PostLinkRoutes(p.slug);
    FindListedPost(posts, p);
  }

  /** Two posts loaded oldest first come out newest first, and the older one's
      link shows its article while the list is filtered down to the newer one. */
  lemma SampleLoadAndLink()
    ensures var a := Post("a", "Winter Blend", 20240101, "", ["seasonal"], None, "");
            var b := Post("b", "Spring Mix", 20240301, "", ["seasonal", "new"], None, "");
            && SortByDateDesc([a, b]) == [b, a]
            && Render(ParseRoute("#/post/a"), [b, a], [b]) == Article(a)
  {
    var a := Post("a", "Winter Blend", 20240101, "", ["seasonal"], None, "");
    var b := Post("b", "Spring Mix", 20240301, "", ["seasonal", "new"], None, "");
    assert [a, b][1..] == [b];
    assert [b, a][1..] == [a];
    assert SortByDateDesc([b]) == [b];
    assert InsertByDate(a, [b]) == [b] + InsertByDate(a, []);
    assert FindBySlug([b, a], "a") == FindBySlug([a], "a");
    assert ParseRoute("#/post/a") == PostPage("a") by {
      PostLinkRoutes("a");
      assert PostHash("a") == "#/post/a";
    }
  }

  class Blog {
    /** All posts, newest first once loaded. */
    var posts: seq<Post>
    /** The posts the list shows. */
    var filtered: seq<Post>
    /** Set once a load has succeeded; later loads do nothing. */
    var loaded: bool
    /** `location.hash`. */
    var hash: string
    /** The text of the search box. */
    var query: string

    /** The list shown is everything or the current query's matches, always in
        the order of `posts`; the posts are newest first; and before a
        successful load there are none. */
    ghost predicate Valid()
      reads this
    {
      && SortedByDateDesc(posts)
      && (filtered == posts || filtered == FilterPosts(posts, Some(query)))
      && IsSubsequence(filtered, posts)
      && (!loaded ==> posts == [])
    }

    constructor(hash: string)
      ensures Valid()
      ensures posts == [] && filtered == [] && !loaded
      ensures this.hash == hash && query == ""
    {
      posts, filtered, loaded := [], [], false;
      this.hash, query := hash, "";
    }

    /** `loadPosts`: once loaded, nothing happens; a successful read stores the
        posts newest first and shows them all; a failed one leaves both lists
        empty and the flag down, so the next call tries again. */
    method LoadPosts(source: LoadResult)
      requires Valid()
      modifies this`posts, this`filtered, this`loaded
      ensures Valid()
      ensures old(loaded) ==> posts == old(posts) && filtered == old(filtered) && loaded
      ensures !old(loaded) && source.Loaded? ==>
        loaded && posts == SortByDateDesc(source.data) && filtered == posts
      ensures !old(loaded) && source.LoadFailed? ==> !loaded && posts == [] && filtered == []
    {
      if loaded {
        return;
      }
      match source
      case Loaded(data) =>
        posts := SortByDateDesc(data);
        SortByDateDescSpec(data);
        loaded := true;
        filtered := posts;
        SubsequenceRefl(posts);
      case LoadFailed =>
        posts := [];
        filtered := [];
    }

    /** `route`: what the current fragment shows. */
    method Route() returns (s: Screen)
      requires Valid()
      ensures s == Render(ParseRoute(hash), posts, filtered)
    {
      var r := ParseRoute(hash);
      match r
      case ListPage =>
        s := if |filtered| == 0 then EmptyList else Cards(filtered);
      case PostPage(slug) =>
        var found := FindBySlug(posts, slug);
        s := if found.Some? then Article(found.value) else NotFound;
    }

    /** The search box's `input` handler: the list becomes the posts matching
        the new text, and is shown. */
    method OnInput(value: string) returns (s: Screen)
      requires Valid()
      modifies this`filtered, this`query
      ensures Valid()
      ensures query == value && filtered == FilterPosts(posts, Some(value))
      ensures s == Render(ListPage, posts, filtered)
    {
      var matching := FilterPosts(posts, Some(value));
      query := value;
      filtered := matching;
      s := if |filtered| == 0 then EmptyList else Cards(filtered);
    }

    /** The clear button's `click` handler: the search box is emptied and the list
        shows every post again. */
    method OnClear() returns (s: Screen)
      requires Valid()
      modifies this`filtered, this`query
      ensures Valid()
      ensures query == "" && filtered == posts
      ensures s == Render(ListPage, posts, posts)
    {
      query := "";
      filtered := posts;
      SubsequenceRefl(posts);
      s := if |filtered| == 0 then EmptyList else Cards(filtered);
    }

    /** `navigate`: a different target is assigned to the fragment (a
        `hashchange` then routes it); the current one is routed at once. Either
        way the fragment is the target afterwards. */
    method Navigate(target: string) returns (s: Option<Screen>)
      requires Valid()
      modifies this`hash
      ensures hash == target
      ensures s.Some? <==> old(hash) == target
      ensures s.Some? ==> s.value == Render(ParseRoute(target), posts, filtered)
    {
      if hash != target {
        hash := target;
        s := None;
      } else {
        var shown := Route();
        s := Some(shown);
      }
    }

    /** The `hashchange` handler: the browser has changed the fragment. */
    method OnHashChange(newHash: string) returns (s: Screen)
      requires Valid()
      modifies this`hash
      ensures hash == newHash
      ensures s == Render(ParseRoute(newHash), posts, filtered)
    {
      hash := newHash;
      s := Route();
    }

    /** `init`: load, then route whatever the load gave. A failed load shows the
        empty list, or not-found for a post's fragment. */
    method Init(source: LoadResult) returns (s: Screen)
      requires Valid() && !loaded
      modifies this`posts, this`filtered, this`loaded
      ensures Valid()
      ensures s == Render(ParseRoute(hash), posts, filtered)
      ensures source.LoadFailed? ==>
        s == if ParseRoute(hash).ListPage? then EmptyList else NotFound
      ensures source.Loaded? ==> posts == SortByDateDesc(source.data) && filtered == posts
    {
      LoadPosts(source);
      s := Route();
    }
  }
}
