# Blog client core, in Dafny

A model of the decision logic of a single-page blog client (`script.js`). The
page keeps one state object with the loaded posts (`posts`), the posts the list
currently shows (`filtered`) and a flag saying the load has happened (`loaded`).
Around it sit four pieces of logic, and this project models each of them:

- the **hash router** (`route`). It maps the URL fragment to the list page or
  one post's page with the anchored pattern `^#\/(?:post\/([a-z0-9-]+))?$`. An
  empty fragment counts as `#/`, and anything that does not match shows the list;
- the **search filter** (`filterPosts`). It trims and lower-cases the query. A
  blank query gives the whole list back. Any other query keeps, in order, the
  posts whose space-joined, lower-cased title, excerpt and tags contain it;
- the **load step** (`loadPosts`). A successful load sorts newest first, shows
  everything and sets the flag. A failed load empties both lists. Once the flag
  is set, later loads do nothing;
- the **handlers and renderers**. The search box and the clear button reassign
  `filtered`. The list view shows an empty-state message or one card per post.
  A post's page looks its slug up in all posts, not just the filtered ones.

Files, one module each:

- `optional.dfy` (`Optional`): the `Option` type.
- `text.dfy` (`Text`): JavaScript's `trim`, `toLowerCase`, `includes` and
  `join`, each with its properties proved.
- `router.dfy` (`Router`): the pattern match, `route`, and the fragment each
  page is linked by.
- `posts.dfy` (`Posts`): the post record, the filter, the newest-first stable
  sort, and lookup by slug.
- `app.dfy` (`App`): what the page renders (`Screen`) and the class `Blog`. The
  class holds the state object's three fields, plus `location.hash` and the
  search box's text. Its methods are the load, the handlers, `route` and
  `navigate`.

Each post's date is an integer sort key, larger meaning newer. The outcome of
reading and parsing the JSON is a parameter of the load: the parsed posts, or a
failure. `Blog.Valid()` is the invariant every handler keeps:

- the posts are newest first;
- `filtered` keeps the order of `posts`, and is either all posts or the matches
  of the text in the search box;
- before a successful load there are no posts.

The invariant does not claim that `filtered` always equals the matches of the
search box's text. If someone types while the data is still being fetched, the
finished load shows every post although the box still holds a query.

Slugs are meant to be unique, but the code never checks it. The model follows
the code: lookup returns the first post with the slug. Uniqueness is only assumed by the lemmas that say a listed post's link
shows that post.

## Model

| member | source | states |
|---|---|---|
| `Text.TrimStartSpec` | script.js:78 | leading trim leaves a suffix that does not start with whitespace; everything it drops is whitespace |
| `Text.TrimEndSpec` | script.js:78 | trailing trim leaves a prefix that does not end with whitespace; everything it drops is whitespace |
| `Text.TrimSpec` | script.js:78 | `trim` gives the empty string exactly when the input is all whitespace (the full ECMAScript WhiteSpace and LineTerminator set); otherwise it gives a substring of the input with no whitespace at either end |
| `Text.LowerChar` | script.js:78 | a character changes exactly when it is an ASCII capital; the result is never a capital; whitespace stays whitespace |
| `Text.Lower` | script.js:81-82 | lower-casing keeps the length and lower-cases each character in place |
| `Text.TrimLowerCommute` | script.js:78 | trimming then lower-casing equals lower-casing then trimming |
| `Text.IncludesIffSubstring` | script.js:82 | the left-to-right scan of `includes` succeeds exactly when the needle occurs somewhere in the haystack (both directions) |
| `Text.JoinContainsParts` | script.js:81 | every part of a `join` occurs in the joined string |
| `Router.MatchHash` | script.js:70 | the pattern matches without a capture exactly on `#/`, and with a capture exactly on `#/post/` followed by one or more of `[a-z0-9-]` and nothing else; the capture is that slug |
| `Router.ParseRoute` | script.js:68-75 | an empty fragment shows the list; the result is a post exactly when the fragment is `#/post/` followed by a valid slug, and then the slug is the rest of the fragment |
| `Router.ListFallbacks` | script.js:69-73 | `""`, `#/` and `#/post/` show the list, and so does `#/post/` followed by text holding any character outside `[a-z0-9-]` (a capital, a further `/`) |
| `Router.PostLinkRoutes` | script.js:94-98 | a card's link `#/post/<slug>` routes to that post exactly when the slug is in `[a-z0-9-]+`; otherwise it routes to the list |
| `Router.RouteRoundTrip` | script.js:68-75 | routing a page's own fragment gives the page back; any fragment that routes to a post is exactly that post's fragment |
| `Posts.BlankQuery` | script.js:78-79 | the normalized query is empty exactly when the query is missing or all whitespace |
| `Posts.KeepMatching` | script.js:80-83 | the filtered list keeps the order of the input, and holds a post exactly when the input holds it and it matches |
| `Posts.FilterPosts` | script.js:77-84 | a blank query returns the list unchanged; any other query returns an order-keeping subsequence that holds exactly the posts that match |
| `Posts.MatchesIffSubstring` | script.js:81-82 | a post matches exactly when the query is a substring of its lower-cased title, excerpt and tags joined by spaces |
| `Posts.FieldHitIsKept` | script.js:81-82 | a query found, ignoring case, inside a listed post's title, excerpt or any single tag keeps that post |
| `Posts.CaseInsensitive` | script.js:78-82 | two queries that lower-case to the same string select the same posts |
| `Posts.FilterAppend` | script.js:80-83 | filtering a concatenation concatenates the filtered parts, and a single post is kept exactly when the query is blank or it matches; together these fix the result, repeated posts included |
| `Posts.FilterIdempotent` | script.js:77-84 | filtering the result again with the same query changes nothing |
| `Posts.SortByDateDescSpec` | script.js:46 | the load order is newest first, is a permutation of the loaded posts, and keeps posts of equal date in their loaded order (a stable sort) |
| `Posts.SortByDateDescUnique` | script.js:46 | any list that is newest first and keeps the loaded order within each date is exactly the sorted list |
| `Posts.FindBySlug` | script.js:109 | no result exactly when no post has the slug; otherwise the post at the first index whose slug equals it |
| `Posts.FindListedPost` | script.js:109 | when slugs are unique, looking up a listed post's slug finds that post |
| `App.Render` | script.js:86-113 | the list page shows the empty state exactly when `filtered` is empty, and otherwise cards for exactly `filtered`; a post page shows not-found exactly when no post in `posts` has the slug, and otherwise an article for a post in `posts` with that slug |
| `App.PostLinkShowsArticle` | script.js:108-113 | with unique slugs, a post's link shows its article whatever `filtered` holds |
| `App.SampleLoadAndLink` | script.js:46-48 | two posts loaded oldest first come out newest first, and the older post's link shows its article while the list is filtered down to the newer one |
| `App.Blog.constructor` | script.js:2-6 | the state starts with no posts, nothing shown and the flag down |
| `App.Blog.LoadPosts` | script.js:33-54 | once loaded, nothing changes; a successful load stores the stable newest-first order, shows all of it and sets the flag; a failed load empties both lists and leaves the flag down; the invariant holds afterwards |
| `App.Blog.Route` | script.js:68-75 | renders what the current fragment routes to, reading the state without changing it |
| `App.Blog.OnInput` | script.js:132-135 | `filtered` becomes the matches of the new text in all posts, the list view of it is rendered, and the invariant holds |
| `App.Blog.OnClear` | script.js:136-141 | the search text is cleared, `filtered` becomes all posts and is rendered, and the invariant holds |
| `App.Blog.Navigate` | script.js:63-66 | it routes at once exactly when the target is already the fragment; otherwise it assigns the fragment. Either way the fragment is the target afterwards |
| `App.Blog.OnHashChange` | script.js:142 | after a fragment change, the page renders what the new fragment routes to |
| `App.Blog.Init` | script.js:145-149 | load, then route; after a failed load a list fragment shows the empty state and a post fragment shows not-found |

## Left out

- HTML templating and the `innerHTML` assignments are left out. They are presentation only, and content is inserted unescaped, so a page is modelled by the `Screen` it shows.
- The placeholder image (a constant data URI) and the hero-image fallback are left out. They are presentation only.
- `formatDate` is left out. It wraps `Intl.DateTimeFormat` and the `Date` string parser, which are locale and library code.
- Reading the inline `<script>` element, `fetch` and `JSON.parse` are left out as I/O and foreign parsing. The load receives their outcome as a `LoadResult`. Every failure on that path is one `LoadFailed`: a network error, a parse error, or a sort of a non-array.
- Dates are integer keys, so `new Date(...)` is not modelled. A date string that parses to NaN makes the comparator inconsistent, and the engine's order is then unspecified. That case is not modelled.
- Posts.SortByDateDesc models the contract of `Array.prototype.sort`, not the engine's sorting algorithm. The contract is: stable, ordered by the comparator. The in-place sort of `state.posts` is modelled as reassigning `posts` with the sorted sequence. Array identity (`filtered` being the same array object as `posts`) is value equality in the model.
- Text.Lower: only ASCII capitals are lower-cased. JavaScript's `toLowerCase` applies full Unicode case mapping, and that mapping can change a string's length. Non-ASCII capitals in posts or queries are therefore compared as written.
- Strings are sequences of Unicode scalar values. JavaScript strings are UTF-16 code units, so lone surrogates cannot be represented.
- Post fields are strings, and tags are a sequence of strings. A missing title or excerpt is `""`, and missing tags are no tags, which is exactly how `join` and `|| []` treat them. Non-string fields and a `tags` value that is a string (which the spread would split into characters) are not modelled. Neither are `null` array elements.
- The `async` load, the `DOMContentLoaded` bootstrap, `addEventListener` wiring, `focus()` and `history.back()` are left out as browser plumbing. Two overlapping calls of the asynchronous load are not modelled either: the load runs once at start-up.
- The search box and the clear button are assumed to exist. When one is missing, the source simply never installs its handler.
- App.Blog.Navigate: assigning `location.hash` is modelled as storing the target unchanged. The browser's normalisation of the assigned fragment (an added `#`, percent-encoding) is not modelled. The later `hashchange` is a separate call, `OnHashChange`.
