/** Worked examples: what the model gives on small inputs. */
module Scenarios {
  import opened Types
  import opened Sequences
  import opened JsString
  import opened BlogIndex
  import opened PostSearch
  import opened CategoryFilter

  function PostIn(slug: string, category: string): Post
  {
    Post(slug, Metadata(slug, "2024-01-01", Some(category)))
  }

  lemma ListingOfTwoFiles(f: string, g: string, load: string -> Option<Metadata>)
    requires IsContentFile(f) && IsContentFile(g)
    ensures IndexEntries([f, g], load) == [PostFor(f, load), PostFor(g, load)]
  {
    assert ContentFiles([f, g]) == [f, g] by {
      assert [f, g] == [f] + [g];
      FilterAppend([f], [g], IsContentFile);
      assert [f][1..] == [] && [g][1..] == [];
    }
  }

  lemma SortOfTwo(older: Post, newer: Post, dateValue: string -> int)
    requires DateOf(older, dateValue) < DateOf(newer, dateValue)
    ensures SortedByDate([older, newer], dateValue) == [newer, older]
  {
    assert [older, newer][..1] == [older];
    assert [older][..0] == [];
  }

  /** A stem that does not start with "." and holds no ".mdx", plus ".mdx", such as
      "hello-world.mdx", is a content file whose slug is the stem. */
  lemma PlainContentFile(f: string, stem: string)
    requires f == stem + ".mdx" && stem != [] && stem[0] != '.'
    requires forall j :: 0 <= j < |stem| ==> !OccursAt(stem, ".mdx", j)
    ensures IsContentFile(f) && Slug(f) == stem
  {
    assert IsContentFile(f) by {
      assert f[..1] == stem[..1];
      assert f[|f| - 4..] == ".mdx";
    }
    forall j | 0 <= j < |stem|
      ensures !OccursAt(f, ".mdx", j)
    {
      if j + 4 <= |stem| {
        assert f[j..j + 4] == stem[j..j + 4];
        assert !OccursAt(stem, ".mdx", j);
        assert !OccursAt(f, ".mdx", j);
      } else {
        var k := |stem| - j;
        assert 1 <= k <= 3 && f[j..j + 4][k] == f[|stem|] == '.';
        assert ".mdx"[k] != '.';
        assert !OccursAt(f, ".mdx", j);
      }
    }
    assert f == stem + ".mdx" + "";
    SlugAtFirstMdx(f, stem, "");
  }

  /** Of two content files, the one with the later date is listed first, whatever the
      listing order; "a.mdx" dated January and "b.mdx" dated June give slugs b, a. */
  lemma NewerFileListedFirst(f: string, g: string, load: string -> Option<Metadata>, dateValue: string -> int)
    requires IsContentFile(f) && IsContentFile(g)
    requires DateOf(PostFor(f, load), dateValue) < DateOf(PostFor(g, load), dateValue)
    ensures SortedByDate(IndexEntries([f, g], load), dateValue) == [PostFor(g, load), PostFor(f, load)]
  {
    ListingOfTwoFiles(f, g, load);
    SortOfTwo(PostFor(f, load), PostFor(g, load), dateValue);
  }

  lemma SearchOfOne(p: Post, query: string)
    requires !IsBlank(query) && Includes(Lower(p.slug), QueryKey(query))
    ensures SearchPosts([p], query) == [p]
  {
    assert [p][1..] == [];
  }

  lemma WorldKey(query: string)
    requires query == "World"
    ensures QueryKey(query) == "world"
  {
    var lower := Lower(query);
    assert lower == "world";
    assert TrimStart(lower) == lower by { assert !IsWhitespace(lower[0]); }
    assert TrimEnd(lower) == lower by { assert !IsWhitespace(lower[4]); }
  }

  lemma HelloWorldHasWorld(slug: string)
    requires slug == "hello-world"
    ensures Includes(Lower(slug), "world")
  {
    assert Lower(slug) == "hello-world";
    assert OccursAt(Lower(slug), "world", 6);
  }

  /** The search is case-insensitive: "World" finds the post "hello-world". */
  lemma MixedCaseQueryFindsPost(p: Post, query: string)
    requires p.slug == "hello-world" && query == "World"
    ensures SearchPosts([p], query) == [p]
  {
    assert !IsBlank(query) by {
      assert query[0] == 'W';
    }
    WorldKey(query);
    HelloWorldHasWorld(p.slug);
    SearchOfOne(p, query);
  }

  /** An empty query finds nothing, not everything. */
  lemma EmptyQueryFindsNothing()
    ensures SearchPosts([PostIn("hello-world", "js")], "") == []
  {
  }

  lemma DistinctOfThree(x: Option<string>, y: Option<string>)
    requires x != y
    ensures Distinct([x, y, x]) == [x, y]
  {
    var one, two, three := [x], [x, y], [x, y, x];
    assert Distinct(one) == [x] by {
      assert one[..0] == [] && one[0] == x;
    }
    assert Distinct(two) == [x, y] by {
      assert two[..1] == one && two[1] == y && y !in [x];
    }
    assert three[..2] == two && three[2] == x && x in [x, y];
  }

  /** Posts of categories x, y, x, such as aws, js, aws, give the menu all, x, y. */
  lemma MenuInFirstSeenOrder(a: Post, b: Post, c: Post, x: Option<string>, y: Option<string>)
    requires x != y
    requires a.metadata.category == x && b.metadata.category == y && c.metadata.category == x
    ensures CategoryMenu([a, b, c]) == [All, x, y]
  {
    assert CategoriesOf([a, b, c]) == [x, y, x];
    DistinctOfThree(x, y);
  }
}
