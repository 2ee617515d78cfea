/** The blog's post index: the content directory's `.mdx` files turned into posts,
    newest first. */
module BlogIndex {
  import opened Types
  import opened Sequences
  import opened JsString

  /** The metadata a post gets when its module throws on loading or exports nothing. */
  const Fallback := Metadata("Untitled", "1970-01-01", None)

  /** The directory filter: a content file ends with ".mdx" and is not hidden. */
  predicate IsContentFile(filename: string)
  {
    EndsWith(filename, ".mdx") && !StartsWith(filename, ".")
  }

  /** The directory listing narrowed to content files, in listing order. */
  function ContentFiles(files: seq<string>): (r: seq<string>)
    ensures forall f :: f in r <==> f in files && EndsWith(f, ".mdx") && !StartsWith(f, ".")
    ensures forall f :: multiset(r)[f] == if IsContentFile(f) then multiset(files)[f] else 0
    ensures IsSubsequence(r, files)
  {
    FilterCounts(files, IsContentFile);
    Filter(files, IsContentFile)
  }

  /** The slug: the file name with its first ".mdx" removed, wherever that is. */
  function Slug(filename: string): (r: string)
    ensures (forall j: nat :: !OccursAt(filename, ".mdx", j)) ==> r == filename
    ensures forall i: nat :: FirstOccursAt(filename, ".mdx", i) ==>
              r == filename[..i] + filename[i + 4..]
  {
    ReplaceFirst(filename, ".mdx", "")
  }

  /** A content file's slug is four characters shorter than its name, and is the name
      without its extension whenever ".mdx" occurs only as that extension. */
  lemma SlugOfContentFile(filename: string)
    requires EndsWith(filename, ".mdx")
    ensures |Slug(filename)| == |filename| - 4
    ensures (forall j :: 0 <= j < |filename| - 4 ==> !OccursAt(filename, ".mdx", j)) ==>
              Slug(filename) == filename[..|filename| - 4]
  {
    assert OccursAt(filename, ".mdx", |filename| - 4);
    var i := IndexOf(filename, ".mdx").value;
    assert i <= |filename| - 4 && FirstOccursAt(filename, ".mdx", i);
    var slug := filename[..i] + filename[i + 4..];
    assert Slug(filename) == slug;
    assert |slug| == |filename| - 4;
  }

  /** Removing the first ".mdx" from `stem + ".mdx" + rest`, when `stem` holds no part of an
      earlier occurrence, leaves `stem + rest`. */
  lemma SlugAtFirstMdx(f: string, stem: string, rest: string)
    requires f == stem + ".mdx" + rest
    requires forall j :: 0 <= j < |stem| ==> !OccursAt(f, ".mdx", j)
    ensures Slug(f) == stem + rest
  {
    assert OccursAt(f, ".mdx", |stem|) by {
      assert f[|stem|..|stem| + 4] == ".mdx";
    }
    assert FirstOccursAt(f, ".mdx", |stem|);
    assert f[..|stem|] + f[|stem| + 4..] == stem + rest;
  }

  /** ".mdx" cannot start inside a stem that holds no '.'. */
  lemma NoMdxInPlainStem(stem: string, rest: string)
    requires forall k :: 0 <= k < |stem| ==> stem[k] != '.'
    ensures forall j :: 0 <= j < |stem| ==> !OccursAt(stem + rest, ".mdx", j)
  {
    forall j | 0 <= j < |stem|
      ensures !OccursAt(stem + rest, ".mdx", j)
    {
      if j + 4 <= |stem + rest| {
        assert (stem + rest)[j..j + 4][0] == stem[j];
      }
    }
  }

  /** A name made of a stem without '.', then ".mdx", then a rest ending in ".mdx", is a
      content file whose slug is the stem followed by the rest. */
  lemma SlugAfterPlainStem(stem: string, rest: string)
    requires stem != [] && forall k :: 0 <= k < |stem| ==> stem[k] != '.'
    requires EndsWith(rest, ".mdx")
    ensures IsContentFile(stem + ".mdx" + rest) && Slug(stem + ".mdx" + rest) == stem + rest
  {
    var f := stem + ".mdx" + rest;
    assert IsContentFile(f) by {
      assert f[..1][0] == stem[0];
      assert f[|f| - 4..] == rest[|rest| - 4..];
    }
    assert f == stem + (".mdx" + rest);
    NoMdxInPlainStem(stem, ".mdx" + rest);
    SlugAtFirstMdx(f, stem, rest);
  }

  /** The file whose first ".mdx" sits between two stems loses that one. */
  lemma DotInsideName(x: string, y: string)
    requires x != [] && forall k :: 0 <= k < |x| ==> x[k] != '.'
    requires forall k :: 0 <= k < |y| ==> y[k] != '.'
    ensures IsContentFile(x + ".mdx" + (y + ".mdx"))
    ensures Slug(x + ".mdx" + (y + ".mdx")) == x + y + ".mdx"
  {
    assert EndsWith(y + ".mdx", ".mdx") by {
      assert (y + ".mdx")[|y|..] == ".mdx";
    }
    SlugAfterPlainStem(x, y + ".mdx");
    assert x + (y + ".mdx") == x + y + ".mdx";
  }

  /** The file with a doubled extension loses the first of the two. */
  lemma DoubleExtension(x: string, y: string)
    requires x != [] && forall k :: 0 <= k < |x| ==> x[k] != '.'
    requires forall k :: 0 <= k < |y| ==> y[k] != '.'
    ensures IsContentFile((x + y) + ".mdx" + ".mdx")
    ensures Slug((x + y) + ".mdx" + ".mdx") == x + y + ".mdx"
  {
    var xy := x + y;
    assert forall k :: 0 <= k < |xy| ==> xy[k] != '.' by {
      forall k | 0 <= k < |xy| ensures xy[k] != '.' {
        if k < |x| { assert xy[k] == x[k]; } else { assert xy[k] == y[k - |x|]; }
      }
    }
    assert EndsWith(".mdx", ".mdx");
    SlugAfterPlainStem(xy, ".mdx");
  }

  /** Two different content files can get the same slug, because only the first ".mdx" is
      removed: for stems without dots, such as "a" and "b", the files "a.mdxb.mdx" and
      "ab.mdx.mdx" both get the slug "ab.mdx". */
  lemma SlugsCanCollide(x: string, y: string)
    requires x != [] && y != []
    requires forall k :: 0 <= k < |x| ==> x[k] != '.'
    requires forall k :: 0 <= k < |y| ==> y[k] != '.'
    ensures IsContentFile(x + ".mdx" + (y + ".mdx")) && IsContentFile((x + y) + ".mdx" + ".mdx")
    ensures x + ".mdx" + (y + ".mdx") != (x + y) + ".mdx" + ".mdx"
    ensures Slug(x + ".mdx" + (y + ".mdx")) == Slug((x + y) + ".mdx" + ".mdx") == x + y + ".mdx"
  {
    assert (x + ".mdx" + (y + ".mdx"))[|x|] == '.';
    assert ((x + y) + ".mdx" + ".mdx")[|x|] == y[0];
    DotInsideName(x, y);
    DoubleExtension(x, y);
  }

  /** What `metadata || fallback` and the catch branch together give for a load. */
  function MetadataOrFallback(loaded: Option<Metadata>): (m: Metadata)
    ensures loaded.Some? ==> m == loaded.value
    ensures loaded.None? ==> m == Fallback && m.category.None?
  {
    match loaded
    case Some(m) => m
    case None => Fallback
  }

  /** The post for one content file; `load` returns `None` when loading throws or yields a
      falsy value. */
  function PostFor(filename: string, load: string -> Option<Metadata>): (p: Post)
    ensures p.slug == Slug(filename)
    ensures load(filename).Some? ==> p.metadata == load(filename).value
    ensures load(filename).None? ==> p.metadata == Fallback
  {
    Post(Slug(filename), MetadataOrFallback(load(filename)))
  }

  /** The posts before sorting: exactly one per content file, in listing order, a failed
      load giving that post the fallback metadata and nothing else. */
  function IndexEntries(files: seq<string>, load: string -> Option<Metadata>): (r: seq<Post>)
    ensures |r| == |ContentFiles(files)|
    ensures forall i :: 0 <= i < |r| ==> r[i].slug == Slug(ContentFiles(files)[i])
    ensures forall i :: 0 <= i < |r| ==>
              r[i].metadata == if load(ContentFiles(files)[i]).None? then Fallback
                               else load(ContentFiles(files)[i]).value
  {
    var kept := ContentFiles(files);
    seq(|kept|, i requires 0 <= i < |kept| => PostFor(kept[i], load))
  }

  /** The timestamp `new Date(publishDate).getTime()` gives a post. */
  function DateOf(p: Post, dateValue: string -> int): int
  {
    dateValue(p.metadata.publishDate)
  }

  /** Each post is at least as recent as the next one. */
  predicate NewestFirst(s: seq<Post>, dateValue: string -> int)
  {
    forall i :: 0 <= i < |s| - 1 ==> DateOf(s[i], dateValue) >= DateOf(s[i + 1], dateValue)
  }

  function DatedAt(dateValue: string -> int, d: int): Post -> bool
  {
    (p: Post) => DateOf(p, dateValue) == d
  }

  /** The posts dated `d`, in their order in `s`. */
  function WithDate(s: seq<Post>, dateValue: string -> int, d: int): seq<Post>
  {
    Filter(s, DatedAt(dateValue, d))
  }

  /** Inserts `x` after the last post at least as recent as it. */
  function Insert(sorted: seq<Post>, x: Post, dateValue: string -> int): (r: seq<Post>)
    ensures |r| == |sorted| + 1
    ensures r[|r| - 1] == x || (sorted != [] && r[|r| - 1] == sorted[|sorted| - 1])
  {
    if sorted == [] then [x]
    else
      var init, last := sorted[..|sorted| - 1], sorted[|sorted| - 1];
      assert sorted == init + [last];
      if DateOf(last, dateValue) >= DateOf(x, dateValue) then sorted + [x]
      else Insert(init, x, dateValue) + [last]
  }

  /** The order a stable newest-first sort gives `s`: insertion sort, left to right. */
  function SortedByDate(s: seq<Post>, dateValue: string -> int): (r: seq<Post>)
    ensures |r| == |s|
  {
    if s == [] then []
    else Insert(SortedByDate(s[..|s| - 1], dateValue), s[|s| - 1], dateValue)
  }

  /** The specified order is a permutation of `s`. */
  lemma {:induction false} SortedByDatePermutes(s: seq<Post>, dateValue: string -> int)
    ensures multiset(SortedByDate(s, dateValue)) == multiset(s)
  {
    if s != [] {
      assert s == s[..|s| - 1] + [s[|s| - 1]];
      SortedByDatePermutes(s[..|s| - 1], dateValue);
      InsertPermutes(SortedByDate(s[..|s| - 1], dateValue), s[|s| - 1], dateValue);
    }
  }

  /** Inserting adds `x` and loses nothing. */
  lemma {:induction false} InsertPermutes(sorted: seq<Post>, x: Post, dateValue: string -> int)
    ensures multiset(Insert(sorted, x, dateValue)) == multiset(sorted) + multiset{x}
  {
    if sorted != [] {
      var init, last := sorted[..|sorted| - 1], sorted[|sorted| - 1];
      assert sorted == init + [last];
      if DateOf(last, dateValue) < DateOf(x, dateValue) {
        InsertPermutes(init, x, dateValue);
      }
    }
  }

  lemma {:induction false} InsertKeepsNewestFirst(sorted: seq<Post>, x: Post, dateValue: string -> int)
    requires NewestFirst(sorted, dateValue)
    ensures NewestFirst(Insert(sorted, x, dateValue), dateValue)
  {
    if sorted != [] {
      var init, last := sorted[..|sorted| - 1], sorted[|sorted| - 1];
      if DateOf(last, dateValue) < DateOf(x, dateValue) {
        InsertKeepsNewestFirst(init, x, dateValue);
        var r' := Insert(init, x, dateValue);
        assert init != [] ==> DateOf(init[|init| - 1], dateValue) >= DateOf(last, dateValue);
        assert DateOf(r'[|r'| - 1], dateValue) >= DateOf(last, dateValue);
      }
    }
  }

  lemma {:induction false} InsertIsStable(sorted: seq<Post>, x: Post, dateValue: string -> int, d: int)
    ensures WithDate(Insert(sorted, x, dateValue), dateValue, d) == WithDate(sorted + [x], dateValue, d)
  {
    if sorted != [] {
      var init, last := sorted[..|sorted| - 1], sorted[|sorted| - 1];
      if DateOf(last, dateValue) < DateOf(x, dateValue) {
        var keep := DatedAt(dateValue, d);
        assert sorted == init + [last];
        // `x` and `last` have different dates, so at most one of them is kept.
        assert Filter([x], keep) == [] || Filter([last], keep) == [];
        calc {
          WithDate(Insert(sorted, x, dateValue), dateValue, d);
          Filter(Insert(init, x, dateValue) + [last], keep);
          { FilterAppend(Insert(init, x, dateValue), [last], keep); }
          Filter(Insert(init, x, dateValue), keep) + Filter([last], keep);
          { InsertIsStable(init, x, dateValue, d); }
          Filter(init + [x], keep) + Filter([last], keep);
          { FilterAppend(init, [x], keep); }
          Filter(init, keep) + Filter([x], keep) + Filter([last], keep);
          Filter(init, keep) + Filter([last], keep) + Filter([x], keep);
          { FilterAppend(init, [last], keep); }
          Filter(sorted, keep) + Filter([x], keep);
          { FilterAppend(sorted, [x], keep); }
          WithDate(sorted + [x], dateValue, d);
        }
      }
    }
  }

  /** The specified order is newest first. */
  lemma {:induction false} SortedByDateIsNewestFirst(s: seq<Post>, dateValue: string -> int)
    ensures NewestFirst(SortedByDate(s, dateValue), dateValue)
  {
    if s != [] {
      SortedByDateIsNewestFirst(s[..|s| - 1], dateValue);
      InsertKeepsNewestFirst(SortedByDate(s[..|s| - 1], dateValue), s[|s| - 1], dateValue);
    }
  }

  /** The specified order is stable: the posts of any one date keep their order in `s`. */
  lemma {:induction false} SortedByDateIsStable(s: seq<Post>, dateValue: string -> int, d: int)
    ensures WithDate(SortedByDate(s, dateValue), dateValue, d) == WithDate(s, dateValue, d)
  {
    if s != [] {
      var init, y := s[..|s| - 1], s[|s| - 1];
      var sortedInit := SortedByDate(init, dateValue);
      SortedByDateIsStable(init, dateValue, d);
      InsertIsStable(sortedInit, y, dateValue, d);
      FilterAppend(sortedInit, [y], DatedAt(dateValue, d));
      assert s == init + [y];
      FilterAppend(init, [y], DatedAt(dateValue, d));
    }
  }

  /** Newest first between neighbours means newest first between any two posts. */
  lemma {:induction false} NewestFirstPairwise(s: seq<Post>, dateValue: string -> int, i: nat, j: nat)
    requires NewestFirst(s, dateValue)
    requires i <= j < |s|
    ensures DateOf(s[i], dateValue) >= DateOf(s[j], dateValue)
    decreases j - i
  {
    if i < j {
      NewestFirstPairwise(s, dateValue, i + 1, j);
    }
  }

  /** In a newest-first index a post with the fallback metadata comes after every post dated
      later than the fallback date. */
  lemma FallbackComesAfterLaterPosts(s: seq<Post>, dateValue: string -> int, i: nat, j: nat)
    requires NewestFirst(s, dateValue)
    requires i < |s| && j < |s|
    requires s[j].metadata == Fallback
    requires DateOf(s[i], dateValue) > dateValue(Fallback.publishDate)
    ensures i < j
  {
    if j <= i {
      NewestFirstPairwise(s, dateValue, j, i);
    }
  }

  /** Where the insertion loop puts `x`: after the posts at least as recent, before the
      strictly older ones. */
  lemma {:induction false} InsertAt(sorted: seq<Post>, x: Post, dateValue: string -> int, j: nat)
    requires j <= |sorted|
    requires j == 0 || DateOf(sorted[j - 1], dateValue) >= DateOf(x, dateValue)
    requires forall k :: j <= k < |sorted| ==> DateOf(sorted[k], dateValue) < DateOf(x, dateValue)
    ensures Insert(sorted, x, dateValue) == sorted[..j] + [x] + sorted[j..]
  {
    if j < |sorted| {
      var init, last := sorted[..|sorted| - 1], sorted[|sorted| - 1];
      assert DateOf(last, dateValue) < DateOf(x, dateValue);
      assert Insert(sorted, x, dateValue) == Insert(init, x, dateValue) + [last];
      InsertAt(init, x, dateValue, j);
      assert sorted[..j] == init[..j];
      assert sorted[j..] == init[j..] + [last];
    } else if sorted != [] {
      assert DateOf(sorted[|sorted| - 1], dateValue) >= DateOf(x, dateValue);
      assert sorted[..j] == sorted && sorted[j..] == [];
    }
  }

  /** One round of the insertion loop: placing the next input post at `j` extends the
      sorted prefix. */
  lemma SortedByDateStep(input: seq<Post>, i: nat, j: nat, dateValue: string -> int)
    requires i < |input| && j <= i
    requires j == 0 || DateOf(SortedByDate(input[..i], dateValue)[j - 1], dateValue) >= DateOf(input[i], dateValue)
    requires forall k :: j <= k < i ==> DateOf(SortedByDate(input[..i], dateValue)[k], dateValue) < DateOf(input[i], dateValue)
    ensures SortedByDate(input[..i + 1], dateValue) ==
            SortedByDate(input[..i], dateValue)[..j] + [input[i]] + SortedByDate(input[..i], dateValue)[j..]
  {
    assert input[..i + 1][..i] == input[..i];
    InsertAt(SortedByDate(input[..i], dateValue), input[i], dateValue, j);
  }

  /** The inner loop of the sort: moves `a[i]` left past the strictly older posts before it
      and reports where it landed. */
  method InsertIntoPrefix(a: array<Post>, i: nat, dateValue: string -> int) returns (j: nat)
    requires i < a.Length
    modifies a
    ensures j <= i
    ensures a[..i + 1] == old(a[..i])[..j] + [old(a[i])] + old(a[..i])[j..]
    ensures forall k :: i < k < a.Length ==> a[k] == old(a[k])
    ensures j == 0 || DateOf(old(a[j - 1]), dateValue) >= DateOf(old(a[i]), dateValue)
    ensures forall k :: j <= k < i ==> DateOf(old(a[k]), dateValue) < DateOf(old(a[i]), dateValue)
  {
    var key := a[i];
    j := i;
    while j > 0 && DateOf(a[j - 1], dateValue) < DateOf(key, dateValue)
      invariant j <= i
      invariant forall k :: 0 <= k < j ==> a[k] == old(a[k])
      invariant forall k :: j < k <= i ==> a[k] == old(a[k - 1])
      invariant forall k :: j <= k < i ==> DateOf(old(a[k]), dateValue) < DateOf(key, dateValue)
      invariant forall k :: i < k < a.Length ==> a[k] == old(a[k])
    {
      a[j] := a[j - 1];
      j := j - 1;
    }
    a[j] := key;
    assert a[..i + 1] == old(a[..i])[..j] + [key] + old(a[..i])[j..];
  }

  /** `posts.sort((a, b) => date(b) - date(a))`: a stable sort, newest first, in place. */
  method SortNewestFirst(a: array<Post>, dateValue: string -> int)
    modifies a
    ensures a[..] == SortedByDate(old(a[..]), dateValue)
  {
    ghost var input := a[..];
    var i := 0;
    while i < a.Length
      invariant 0 <= i <= a.Length
      invariant a[..i] == SortedByDate(input[..i], dateValue)
      invariant forall k :: i <= k < a.Length ==> a[k] == input[k]
    {
      var j := InsertIntoPrefix(a, i, dateValue);
      SortedByDateStep(input, i, j, dateValue);
      i := i + 1;
    }
    assert input[..a.Length] == input;
  }

  /** `getAllPosts`: one post per content file, newest first, posts of equal date in listing
      order. */
  method GetAllPosts(files: seq<string>, load: string -> Option<Metadata>, dateValue: string -> int)
    returns (posts: seq<Post>)
    ensures posts == SortedByDate(IndexEntries(files, load), dateValue)
    ensures |posts| == |ContentFiles(files)|
    ensures multiset(posts) == multiset(IndexEntries(files, load))
    ensures NewestFirst(posts, dateValue)
    ensures forall d :: WithDate(posts, dateValue, d) == WithDate(IndexEntries(files, load), dateValue, d)
  {
    var entries := IndexEntries(files, load);
    var a := new Post[|entries|](i requires 0 <= i < |entries| => entries[i]);
    assert a[..] == entries;
    SortNewestFirst(a, dateValue);
    posts := a[..];
    SortedByDatePermutes(entries, dateValue);
    SortedByDateIsNewestFirst(entries, dateValue);
    forall d
      ensures WithDate(posts, dateValue, d) == WithDate(entries, dateValue, d)
    {
      SortedByDateIsStable(entries, dateValue, d);
    }
  }
}
