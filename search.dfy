/** The blog's slug search box: a query string, and the posts whose slug contains it. */
module PostSearch {
  import opened Types
  import opened Sequences
  import opened JsString

  /** The needle the component looks for: the query lowercased, then trimmed. */
  function QueryKey(query: string): (key: string)
    ensures IsPaddedBy(Lower(query), key)
    ensures forall i :: 0 <= i < |key| ==> !('A' <= key[i] <= 'Z')
    ensures key != [] ==> !IsWhitespace(key[0]) && !IsWhitespace(key[|key| - 1])
  {
    Trim(Lower(query))
  }

  /** The independent reading of a match: `key` occurs somewhere in the lowercased slug. */
  ghost predicate SlugContains(slug: string, key: string)
  {
    exists i: nat :: OccursAt(Lower(slug), key, i)
  }

  /** The filter callback: `post.slug.toLowerCase().includes(key)`. */
  function SlugMatches(key: string): Post -> bool
  {
    (p: Post) => Includes(Lower(p.slug), key)
  }

  /** The results for a query: none for a blank query, otherwise every post whose slug
      contains the key, each as often as in `posts`, in the order of `posts`. */
  function SearchPosts(posts: seq<Post>, query: string): (r: seq<Post>)
    ensures IsBlank(query) ==> r == []
    ensures forall p :: p in r <==> p in posts && !IsBlank(query) && SlugContains(p.slug, QueryKey(query))
    ensures forall p :: multiset(r)[p] ==
                        if !IsBlank(query) && SlugContains(p.slug, QueryKey(query)) then multiset(posts)[p] else 0
    ensures IsSubsequence(r, posts)
  {
    if Trim(query) == [] then []
    else
      FilterCounts(posts, SlugMatches(QueryKey(query)));
      Filter(posts, SlugMatches(QueryKey(query)))
  }

  /** For a non-blank query, the results and the posts whose slug does not match together
      make up `posts` exactly. */
  lemma SearchPartitionsPosts(posts: seq<Post>, query: string)
    requires !IsBlank(query)
    ensures multiset(SearchPosts(posts, query)) + multiset(Filter(posts, Not(SlugMatches(QueryKey(query))))) ==
            multiset(posts)
  {
    FilterPartition(posts, SlugMatches(QueryKey(query)));
  }

  /** Whether a query counts as blank is decided by its key alone. */
  lemma BlankIffEmptyKey(query: string)
    ensures IsBlank(query) <==> QueryKey(query) == []
  {
    LowerKeepsBlank(query);
  }

  /** Two queries with the same key give the same results. */
  lemma SearchDependsOnKeyOnly(posts: seq<Post>, q1: string, q2: string)
    requires QueryKey(q1) == QueryKey(q2)
    ensures SearchPosts(posts, q1) == SearchPosts(posts, q2)
  {
    BlankIffEmptyKey(q1);
    BlankIffEmptyKey(q2);
  }

  /** Queries that differ only in letter case give the same results. */
  lemma SearchIgnoresCase(posts: seq<Post>, q1: string, q2: string)
    requires Lower(q1) == Lower(q2)
    ensures SearchPosts(posts, q1) == SearchPosts(posts, q2)
  {
    SearchDependsOnKeyOnly(posts, q1, q2);
  }

  /** Leading and trailing whitespace around a query do not change the results. */
  lemma SearchIgnoresPadding(posts: seq<Post>, lead: string, query: string, trail: string)
    requires IsBlank(lead) && IsBlank(trail)
    ensures SearchPosts(posts, lead + query + trail) == SearchPosts(posts, query)
  {
    assert Lower(lead + query + trail) == Lower(lead) + Lower(query) + Lower(trail);
    LowerKeepsBlank(lead);
    LowerKeepsBlank(trail);
    TrimIgnoresPadding(Lower(lead), Lower(query), Lower(trail));
    SearchDependsOnKeyOnly(posts, lead + query + trail, query);
  }

  function SlugsOf(posts: seq<Post>): seq<string>
  {
    seq(|posts|, i requires 0 <= i < |posts| => posts[i].slug)
  }

  lemma {:induction false} FilterSeesOnlySlugs(posts1: seq<Post>, posts2: seq<Post>, key: string)
    requires SlugsOf(posts1) == SlugsOf(posts2)
    ensures SlugsOf(Filter(posts1, SlugMatches(key))) == SlugsOf(Filter(posts2, SlugMatches(key)))
  {
    if posts1 != [] {
      var x1, x2 := posts1[0], posts2[0];
      assert x1.slug == SlugsOf(posts1)[0] == x2.slug;
      assert SlugsOf(posts1[1..]) == SlugsOf(posts1)[1..];
      assert SlugsOf(posts2[1..]) == SlugsOf(posts2)[1..];
      FilterSeesOnlySlugs(posts1[1..], posts2[1..], key);
      var rest1, rest2 := Filter(posts1[1..], SlugMatches(key)), Filter(posts2[1..], SlugMatches(key));
      if SlugMatches(key)(x1) {
        SlugsOfCons(x1, rest1);
        SlugsOfCons(x2, rest2);
      }
    }
  }

  lemma SlugsOfCons(x: Post, rest: seq<Post>)
    ensures SlugsOf([x] + rest) == [x.slug] + SlugsOf(rest)
  {
  }

  /** Only slugs are consulted: posts that agree on their slugs, whatever their metadata,
      give results that agree on their slugs. */
  lemma SearchReadsOnlySlugs(posts1: seq<Post>, posts2: seq<Post>, query: string)
    requires SlugsOf(posts1) == SlugsOf(posts2)
    ensures SlugsOf(SearchPosts(posts1, query)) == SlugsOf(SearchPosts(posts2, query))
  {
    if Trim(query) != [] {
      FilterSeesOnlySlugs(posts1, posts2, QueryKey(query));
    }
  }

  /** The search component's state: the posts it was given, the text typed so far, and
      the results it shows. */
  class SearchBox {
    var posts: seq<Post>
    var searchPost: string
    var results: seq<Post>

    /** Once the effect has run, the results are the search of `posts` by `searchPost`. */
    ghost predicate Valid()
      reads this
    {
      results == SearchPosts(posts, searchPost)
    }

    /** Mounting: an empty query and no results, which already agree with each other. */
    constructor (posts: seq<Post>)
      ensures this.posts == posts && searchPost == "" && results == []
      ensures Valid()
    {
      this.posts := posts;
      searchPost := "";
      results := [];
    }

    /** The input changes, and the effect recomputes the results. */
    method SetSearchPost(query: string)
      modifies this
      ensures posts == old(posts) && searchPost == query
      ensures results == SearchPosts(posts, query)
      ensures Valid()
    {
      var found := SearchPosts(posts, query);
      searchPost, results := query, found;
    }

    /** New `posts` arrive, and the effect, which also depends on them, recomputes the results. */
    method SetPosts(posts: seq<Post>)
      modifies this
      ensures this.posts == posts && searchPost == old(searchPost)
      ensures results == SearchPosts(posts, searchPost)
      ensures Valid()
    {
      var query := searchPost;
      var found := SearchPosts(posts, query);
      this.posts, results := posts, found;
    }
  }
}
