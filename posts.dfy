/** The post records and the pure operations on the post list: the search
    filter (`filterPosts`), the newest-first ordering applied on load, and the
    lookup of a post by its slug (`renderPost`). */
module Posts {
  import opened Optional
  import opened Text

  /** A blog post. `date` is the sort key of the post's date, newest largest. A
      missing `title` or `excerpt` is the empty string and missing `tags` are no
      tags: that is how the search treats them. */
  datatype Post = Post(
    slug: string,
    title: string,
    date: int,
    excerpt: string,
    tags: seq<string>,
    heroImage: Option<string>,
    content: string)

  /** The texts a post is searched by, in the order they are joined. */
  function SearchFields(p: Post): seq<string> {
    [p.title, p.excerpt] + p.tags
  }

  /** The lower-cased, space-joined title, excerpt and tags. */
  function Haystack(p: Post): string {
    Lower(Join(" ", SearchFields(p)))
  }

  /** The query as the filter uses it: a missing query is empty, then it is
      trimmed and lower-cased. */
  function NormalizeQuery(q: Option<string>): string {
    Lower(Trim(q.GetOr("")))
  }

  /** A query is blank, and gives the whole list back, exactly when it is
      missing or all whitespace. */
  lemma BlankQuery(q: Option<string>)
    ensures NormalizeQuery(q) == "" <==> q.None? || AllWhitespace(q.value)
  {
    TrimSpec(q.GetOr(""));
  }

  /** The post is found by a (normalized, non-empty) query. */
  predicate Matches(p: Post, query: string) {
    Includes(Haystack(p), query)
  }

  /** `posts` with `sub` taken out in order: `sub` keeps the relative order of
      the elements it takes from `posts`. */
  predicate IsSubsequence(sub: seq<Post>, posts: seq<Post>) {
    if sub == [] then true
    else if posts == [] then false
    else if sub[0] == posts[0] then IsSubsequence(sub[1..], posts[1..])
    else IsSubsequence(sub, posts[1..])
  }

  /** `Array.prototype.filter` with `Matches`. */
  function KeepMatching(posts: seq<Post>, query: string): (r: seq<Post>)
    ensures IsSubsequence(r, posts)
    ensures forall p :: p in r <==> p in posts && Matches(p, query)
  {
    if posts == [] then []
    else if Matches(posts[0], query) then [posts[0]] + KeepMatching(posts[1..], query)
    else KeepMatching(posts[1..], query)
  }

  /** `filterPosts`: a blank query gives the whole list back; any other query the
      posts it matches, in their original order. */
  function FilterPosts(posts: seq<Post>, q: Option<string>): (r: seq<Post>)
    ensures NormalizeQuery(q) == "" ==> r == posts
    ensures NormalizeQuery(q) != "" ==>
      forall p :: p in r <==> p in posts && Matches(p, NormalizeQuery(q))
    ensures IsSubsequence(r, posts)
  {
    var query := NormalizeQuery(q);
    SubsequenceRefl(posts);
    if query == "" then posts else KeepMatching(posts, query)
  }

  lemma {:induction false} SubsequenceRefl(posts: seq<Post>)
    ensures IsSubsequence(posts, posts)
    decreases |posts|
  {
    if posts != [] {
      SubsequenceRefl(posts[1..]);
    }
  }

  /** A post matches exactly when the query is a substring of its haystack. */
  lemma MatchesIffSubstring(p: Post, query: string)
    ensures Matches(p, query) <==> IsSubstring(query, Haystack(p))
  {
    IncludesIffSubstring(Haystack(p), query);
  }

  /** A query found, case-insensitively, in the title, the excerpt or one tag of a
      listed post keeps that post in the result. */
  lemma FieldHitIsKept(posts: seq<Post>, q: Option<string>, p: Post, k: nat)
    requires p in posts && k < |SearchFields(p)|
    requires NormalizeQuery(q) != ""
    requires IsSubstring(NormalizeQuery(q), Lower(SearchFields(p)[k]))
    ensures p in FilterPosts(posts, q)
  {
    var fields := SearchFields(p);
    JoinContainsParts(" ", fields, k);
    SubstringLower(fields[k], Join(" ", fields));
    SubstringTransitive(NormalizeQuery(q), Lower(fields[k]), Haystack(p));
    MatchesIffSubstring(p, NormalizeQuery(q));
  }

  /** The search ignores case: queries that lower-case alike select the same
      posts. */
  lemma CaseInsensitive(posts: seq<Post>, q1: string, q2: string)
    requires Lower(q1) == Lower(q2)
    ensures FilterPosts(posts, Some(q1)) == FilterPosts(posts, Some(q2))
  {
    TrimLowerCommute(q1);
    TrimLowerCommute(q2);
  }

  /** Filtering works element by element: filtering a concatenation is
      concatenating the filtered parts. */
  lemma {:induction false} KeepMatchingAppend(a: seq<Post>, b: seq<Post>, query: string)
    ensures KeepMatching(a + b, query) == KeepMatching(a, query) + KeepMatching(b, query)
    decreases |a|
  {
    if a != [] {
      assert (a + b)[0] == a[0];
      assert (a + b)[1..] == a[1..] + b;
      KeepMatchingAppend(a[1..], b, query);
    } else {
      assert a + b == b;
    }
  }

  /** `filterPosts` distributes over concatenation and keeps or drops each post
      on its own; together these pin down the whole result, order and repeated
      posts included. */
  lemma FilterAppend(a: seq<Post>, b: seq<Post>, q: Option<string>, p: Post)
    ensures FilterPosts(a + b, q) == FilterPosts(a, q) + FilterPosts(b, q)
    ensures FilterPosts([p], q) ==
      if NormalizeQuery(q) == "" || Matches(p, NormalizeQuery(q)) then [p] else []
  {
    if NormalizeQuery(q) != "" {
      KeepMatchingAppend(a, b, NormalizeQuery(q));
    }
  }

  /** Filtering the result again with the same query changes nothing. */
  lemma {:induction false} FilterIdempotent(posts: seq<Post>, q: Option<string>)
    ensures FilterPosts(FilterPosts(posts, q), q) == FilterPosts(posts, q)
  {
    if NormalizeQuery(q) != "" {
      KeepMatchingIdempotent(posts, NormalizeQuery(q));
    }
  }

  lemma {:induction false} KeepMatchingIdempotent(posts: seq<Post>, query: string)
    ensures KeepMatching(KeepMatching(posts, query), query) == KeepMatching(posts, query)
    decreases |posts|
  {
    if posts != [] {
      KeepMatchingIdempotent(posts[1..], query);
      var rest := KeepMatching(posts[1..], query);
      if Matches(posts[0], query) {
        assert ([posts[0]] + rest)[1..] == rest;
      }
    }
  }

  /** Newest first: no post is followed by a newer one. */
  predicate SortedByDateDesc(posts: seq<Post>) {
    forall i, j :: 0 <= i < j < |posts| ==> posts[i].date >= posts[j].date
  }

  /** The posts dated `d`, in their order in `posts`. A sort is stable when it
      leaves this sequence unchanged for every date. */
  function WithDate(posts: seq<Post>, d: int): seq<Post> {
    if posts == [] then []
    else (if posts[0].date == d then [posts[0]] else []) + WithDate(posts[1..], d)
  }

  /** Puts `x` in front of the first post that is not newer than it. */
  function InsertByDate(x: Post, posts: seq<Post>): seq<Post> {
    if posts == [] || posts[0].date <= x.date then [x] + posts
    else [posts[0]] + InsertByDate(x, posts[1..])
  }

  /** `posts.sort((a, b) => date(b) - date(a))`: newest first, posts with the
      same date in their original order (`Array.prototype.sort` is stable). */
  function SortByDateDesc(posts: seq<Post>): seq<Post> {
    if posts == [] then [] else InsertByDate(posts[0], SortByDateDesc(posts[1..]))
  }

  lemma {:induction false} InsertPermutes(x: Post, posts: seq<Post>)
    ensures multiset(InsertByDate(x, posts)) == multiset(posts) + multiset{x}
    decreases |posts|
  {
    if posts != [] && posts[0].date > x.date {
      InsertPermutes(x, posts[1..]);
      assert posts == [posts[0]] + posts[1..];
    }
  }

  lemma {:induction false} InsertSorted(x: Post, posts: seq<Post>)
    requires SortedByDateDesc(posts)
    ensures SortedByDateDesc(InsertByDate(x, posts))
    decreases |posts|
  {
    if posts != [] && posts[0].date > x.date {
      var rest := InsertByDate(x, posts[1..]);
      InsertSorted(x, posts[1..]);
      InsertPermutes(x, posts[1..]);
      forall k | 0 <= k < |rest| ensures posts[0].date >= rest[k].date {
        assert rest[k] in multiset(rest);
        assert rest[k] == x || rest[k] in multiset(posts[1..]);
      }
    }
  }

  lemma WithDateCons(x: Post, posts: seq<Post>, d: int)
    ensures WithDate([x] + posts, d) == (if x.date == d then [x] else []) + WithDate(posts, d)
  {
    assert ([x] + posts)[1..] == posts;
  }

  /** Inserting moves `x` only past newer posts, so among the posts of any one
      date `x` keeps its place at the front. */
  lemma {:induction false} InsertStable(x: Post, posts: seq<Post>, d: int)
    ensures WithDate(InsertByDate(x, posts), d) == WithDate([x] + posts, d)
    decreases |posts|
  {
    if posts != [] && posts[0].date > x.date {
      InsertStable(x, posts[1..], d);
      WithDateCons(posts[0], InsertByDate(x, posts[1..]), d);
      WithDateCons(x, posts[1..], d);
      WithDateCons(x, posts, d);
    }
  }

  /** The load order is newest first, holds exactly the loaded posts, and keeps
      posts of equal date in the order they were loaded. */
  lemma {:induction false} SortByDateDescSpec(posts: seq<Post>)
    ensures SortedByDateDesc(SortByDateDesc(posts))
    ensures multiset(SortByDateDesc(posts)) == multiset(posts)
    ensures forall d :: WithDate(SortByDateDesc(posts), d) == WithDate(posts, d)
    decreases |posts|
  {
    if posts != [] {
      var rest := SortByDateDesc(posts[1..]);
      SortByDateDescSpec(posts[1..]);
      InsertSorted(posts[0], rest);
      InsertPermutes(posts[0], rest);
      assert posts == [posts[0]] + posts[1..];
      forall d ensures WithDate(SortByDateDesc(posts), d) == WithDate(posts, d) {
        InsertStable(posts[0], rest, d);
        WithDateCons(posts[0], rest, d);
        WithDateCons(posts[0], posts[1..], d);
      }
    }
  }

  /** In a newest-first list holding a post dated `d`, the first post is at
      least as new as `d`. */
  lemma {:induction false} WithDateBound(posts: seq<Post>, d: int)
    requires SortedByDateDesc(posts) && WithDate(posts, d) != []
    ensures posts != [] && posts[0].date >= d
    decreases |posts|
  {
    if posts[0].date != d {
      WithDateBound(posts[1..], d);
    }
  }

  /** Two newest-first lists with the same posts of every date, in the same
      order, are the same list. */
  lemma {:induction false} SortedUnique(u: seq<Post>, v: seq<Post>)
    requires SortedByDateDesc(u) && SortedByDateDesc(v)
    requires forall d :: WithDate(u, d) == WithDate(v, d)
    ensures u == v
    decreases |u|
  {
    if u == [] || v == [] {
      var w := if u == [] then v else u;
      if w != [] {
        assert w == [w[0]] + w[1..];
        WithDateCons(w[0], w[1..], w[0].date);
        assert false;
      }
    } else {
      var du, dv := u[0].date, v[0].date;
      assert u == [u[0]] + u[1..];
      assert v == [v[0]] + v[1..];
      WithDateCons(u[0], u[1..], du);
      WithDateCons(v[0], v[1..], dv);
      WithDateBound(v, du);
      WithDateBound(u, dv);
      assert du == dv;
      assert WithDate(u, du) == WithDate(v, du);
      assert u[0] == WithDate(u, du)[0] == WithDate(v, du)[0] == v[0];
      forall d ensures WithDate(u[1..], d) == WithDate(v[1..], d) {
        WithDateCons(u[0], u[1..], d);
        WithDateCons(v[0], v[1..], d);
        assert WithDate(u, d) == WithDate(v, d);
        var h := if u[0].date == d then [u[0]] else [];
        assert h + WithDate(u[1..], d) == h + WithDate(v[1..], d);
        assert (h + WithDate(u[1..], d))[|h|..] == WithDate(u[1..], d);
        assert (h + WithDate(v[1..], d))[|h|..] == WithDate(v[1..], d);
      }
      SortedUnique(u[1..], v[1..]);
    }
  }

  /** Newest first and stable determine the load order completely: any list
      that is newest first and keeps the original order within each date is
      the sorted list. */
  lemma SortByDateDescUnique(posts: seq<Post>, r: seq<Post>)
    requires SortedByDateDesc(r)
    requires forall d :: WithDate(r, d) == WithDate(posts, d)
    ensures r == SortByDateDesc(posts)
  {
    SortByDateDescSpec(posts);
    SortedUnique(r, SortByDateDesc(posts));
  }

  /** `posts.find(x => x.slug === slug)`: the first post with that slug, if any. */
  function FindBySlug(posts: seq<Post>, slug: string): (r: Option<Post>)
    ensures r.None? <==> forall i :: 0 <= i < |posts| ==> posts[i].slug != slug
    ensures r.Some? ==> (exists i :: 0 <= i < |posts| && posts[i] == r.value
                                     && r.value.slug == slug
                                     && forall j :: 0 <= j < i ==> posts[j].slug != slug)
  {
    if posts == [] then None
    else if posts[0].slug == slug then Some(posts[0])
    else
      var r := FindBySlug(posts[1..], slug);
      assert r.Some? ==> (exists i :: 0 <= i < |posts[1..]| && posts[1..][i] == r.value
                                      && forall j :: 0 <= j < i ==> posts[1..][j].slug != slug);
      r
  }

  /** No two posts share a slug. */
  predicate UniqueSlugs(posts: seq<Post>) {
    forall i, j :: 0 <= i < j < |posts| ==> posts[i].slug != posts[j].slug
  }

  /** With unique slugs, every listed post is the one found by its slug. */
  lemma FindListedPost(posts: seq<Post>, p: Post)
    requires UniqueSlugs(posts) && p in posts
    ensures FindBySlug(posts, p.slug) == Some(p)
  {
    var k :| 0 <= k < |posts| && posts[k] == p;
    var r := FindBySlug(posts, p.slug);
    var i :| 0 <= i < |posts| && posts[i] == r.value && r.value.slug == p.slug
      && forall j :: 0 <= j < i ==> posts[j].slug != p.slug;
    assert i == k;
  }
}
