/** The blog's category filter: a menu of categories and the posts shown for the one picked. */
module CategoryFilter {
  import opened Types
  import opened Sequences

  /** The sentinel menu entry that shows every post. */
  const All: Option<string> := Some("all")

  /** `posts.map((post) => post.metadata.category)`; `None` where a post has no category. */
  function CategoriesOf(posts: seq<Post>): (r: seq<Option<string>>)
    ensures |r| == |posts|
    ensures forall i :: 0 <= i < |posts| ==> r[i] == posts[i].metadata.category
    ensures forall c :: c in r <==> exists p :: p in posts && p.metadata.category == c
  {
    seq(|posts|, i requires 0 <= i < |posts| => posts[i].metadata.category)
  }

  /** The menu: the sentinel first, then each category once, in order of first appearance. */
  function CategoryMenu(posts: seq<Post>): (r: seq<Option<string>>)
    ensures |r| >= 1 && r[0] == All
    ensures forall c :: c in r[1..] <==> exists p :: p in posts && p.metadata.category == c
    ensures NoDuplicates(r[1..])
    ensures forall c :: c in r[1..] <==> c in CategoriesOf(posts)
    ensures forall i, j :: 0 <= i < j < |r| - 1 ==>
                             FirstIndex(CategoriesOf(posts), r[1..][i]) < FirstIndex(CategoriesOf(posts), r[1..][j])
  {
    var r := [All] + Distinct(CategoriesOf(posts));
    assert r[1..] == Distinct(CategoriesOf(posts));
    r
  }

  /** The sentinel is not kept apart from real categories: a post whose category is "all"
      puts a second "all" in the menu. */
  lemma MenuRepeatsAll(posts: seq<Post>)
    ensures multiset(CategoryMenu(posts))[All] ==
            if exists p :: p in posts && p.metadata.category == All then 2 else 1
  {
    var menu := CategoryMenu(posts);
    assert menu == [All] + menu[1..];
    NoDuplicatesCount(menu[1..], All);
  }

  function HasCategory(category: Option<string>): Post -> bool
  {
    (p: Post) => p.metadata.category == category
  }

  /** The posts shown once `category` is picked: all of `posts` for the sentinel, otherwise
      exactly those whose category equals it, as often as in `posts` and in their order. */
  function ShownPosts(posts: seq<Post>, category: Option<string>): (r: seq<Post>)
    ensures category == All ==> r == posts
    ensures category != All ==>
              forall p :: multiset(r)[p] == if p.metadata.category == category then multiset(posts)[p] else 0
    ensures IsSubsequence(r, posts)
  {
    if category == All then
      SubsequenceOfItself(posts);
      posts
    else
      FilterCounts(posts, HasCategory(category));
      Filter(posts, HasCategory(category))
  }

  /** The filter component's state: the posts it was given and the ones it shows. */
  class FilterView {
    const posts: seq<Post>
    var filteredPosts: seq<Post>
    /** The category picked last; the sentinel before any click. */
    ghost var selected: Option<string>

    ghost predicate Valid()
      reads this
    {
      filteredPosts == ShownPosts(posts, selected)
    }

    constructor (posts: seq<Post>)
      ensures this.posts == posts && filteredPosts == posts
      ensures selected == All && Valid()
    {
      this.posts := posts;
      filteredPosts := posts;
      selected := All;
    }

    /** The click handler. It filters the original `posts`, never the current view, so the
        new state depends on `category` alone. */
    method FilterPosts(category: Option<string>)
      modifies this
      ensures filteredPosts == ShownPosts(posts, category)
      ensures selected == category && Valid()
    {
      if category == All {
        filteredPosts := posts;
      } else {
        filteredPosts := Filter(posts, HasCategory(category));
      }
      selected := category;
    }
  }
}
