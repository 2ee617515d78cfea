# Blog post index, slug search and category filter — a Dafny model

The blog lists its posts from a content directory of `.mdx` files. Three pieces of logic sit
under the rendering, and this project models them and proves what they do:

- **the post index** (`getAllPosts`): keeps the directory entries that end in `.mdx` and are
  not hidden, turns each into a post (slug plus metadata, with a fallback record when the
  metadata cannot be loaded), and sorts the posts in place, newest `publishDate` first;
- **the slug search** (`Search`): for a non-blank query, the posts whose lowercased slug
  contains the lowercased, trimmed query, in index order; nothing for a blank query;
- **the category filter** (`Filter`): a menu of `"all"` followed by the distinct post
  categories in first-seen order, and a click handler that shows every post for `"all"` and
  otherwise the posts of exactly that category.

Modules: one per source file, two of shared helpers, and one of worked examples:

- `Types` (`types.dfy`): `Post` and `Metadata`; `category` is an `Option<string>` because the
  fallback record has none.
- `Sequences` (`sequences.dfy`): `Filter` (the order-keeping `Array.prototype.filter`),
  `Distinct` (`Array.from(new Set(...))`), subsequences, first indexes.
- `JsString` (`js_string.dfy`): the JavaScript string built-ins used: `startsWith`,
  `endsWith`, `indexOf`, `includes`, `replace` with a string pattern (first occurrence only),
  `toLowerCase` on ASCII letters and `trim` over the ECMAScript whitespace and line
  terminators.
- `BlogIndex` (`blog_index.dfy`): the index. The directory listing is a `seq<string>`, the
  metadata loader a parameter `load: string -> Option<Metadata>` (`None` for both a throw
  and a falsy result), and date parsing a parameter `dateValue: string -> int` (the
  millisecond timestamp of `new Date(...).getTime()`). The sort is an in-place insertion sort
  on an `array<Post>`, proved equal to the functional specification `SortedByDate`, which is
  proved newest first, a permutation and stable.
- `PostSearch` (`search.dfy`): the pure search function, lemmas on what the result depends
  on, and the component's state (`posts`, `searchPost`, `results`) as a class whose methods
  are the input change and the effect that follows it.
- `CategoryFilter` (`category_filter.dfy`): the menu, the shown posts, and the component's
  state (`filteredPosts`) as a class whose method is the click handler.
- `Scenarios` (`scenarios.dfy`): worked examples, proved like the rest: two dated files, a
  plain file name, a mixed-case query, an empty query, the menu for categories aws, js, aws.

## Behaviour worth knowing

- The slug is the file name with its first `".mdx"` removed, because `replace` with a string
  pattern replaces one occurrence only. For a name where `".mdx"` occurs only at the end this is
  the name without its extension (`SlugOfContentFile`, `PlainContentFile`). Slugs are not
  unique: `a.mdxb.mdx` and `ab.mdx.mdx` both get slug `ab.mdx` (`SlugsCanCollide`).
- The fallback metadata has a title and a date but no category, so the category menu can
  hold an absent category (`None`), and picking it shows the posts without one.
- A category literally named `"all"` puts `"all"` in the menu twice and cannot be selected on
  its own (`MenuRepeatsAll`, `ShownPosts`).
- The comparator subtracts two `getTime()` values. A date string that does not parse gives
  NaN there, and the order the engine then produces is not defined; the model covers dates
  that parse (see "Left out").

## Model

| member | source | states |
|---|---|---|
| `BlogIndex.ContentFiles` | app/blog/page.tsx:21-23 | a listed name is kept iff it ends with ".mdx" and does not start with "."; every copy of a kept name is kept, in listing order |
| `BlogIndex.Slug` | app/blog/page.tsx:28 | with no ".mdx" in the name the slug is the name; otherwise it is the name with the four characters at the first occurrence of ".mdx" cut out, nothing else |
| `BlogIndex.SlugOfContentFile` | app/blog/page.tsx:28 | removing the first ".mdx" shortens a content file name by exactly 4; when ".mdx" occurs only as the suffix the slug is the name without it |
| `BlogIndex.SlugsCanCollide` | app/blog/page.tsx:21-28 | for any two dot-free stems x and y, the different content files x.mdxy.mdx and xy.mdx.mdx (such as a.mdxb.mdx and ab.mdx.mdx) get the same slug xy.mdx |
| `BlogIndex.MetadataOrFallback` | app/blog/page.tsx:29-39 | loaded metadata is kept as it is; a failed or empty load gives the fallback record, which has no category |
| `BlogIndex.PostFor` | app/blog/page.tsx:24-40 | a file's post has the file's slug and the loaded metadata, or the fallback record when loading failed or gave nothing |
| `BlogIndex.IndexEntries` | app/blog/page.tsx:24-41 | one post per kept file, in listing order; its slug is the file's slug; its metadata is the loaded record, or the fallback record exactly when loading failed or gave nothing |
| `BlogIndex.SortedByDate` | app/blog/page.tsx:43-47 | the specified sort order has as many posts as its input |
| `BlogIndex.SortedByDatePermutes` | app/blog/page.tsx:43-47 | the sort is a permutation: same multiset of posts before and after |
| `BlogIndex.SortedByDateIsNewestFirst` | app/blog/page.tsx:43-47 | after the sort each post's date is at least the next post's |
| `BlogIndex.SortedByDateIsStable` | app/blog/page.tsx:43-47 | for every date, the posts of that date appear in the same order as before the sort |
| `BlogIndex.NewestFirstPairwise` | app/blog/page.tsx:43-47 | in a newest-first sequence every earlier post is at least as recent as every later one |
| `BlogIndex.FallbackComesAfterLaterPosts` | app/blog/page.tsx:29-47 | a post with the fallback metadata comes after every post dated later than 1970-01-01 |
| `BlogIndex.InsertIntoPrefix` | app/blog/page.tsx:43-47 | one pass of the in-place sort: the next post moves left past the strictly older ones only, the rest of the array unchanged |
| `BlogIndex.SortNewestFirst` | app/blog/page.tsx:43-47 | the in-place array sort leaves exactly the specified stable newest-first order |
| `BlogIndex.GetAllPosts` | app/blog/page.tsx:16-50 | the returned posts are the specified stable newest-first order of the entries: one per content file, a permutation of the entries, newest first, and equal dates keep listing order |
| `JsString.StartsWithIffPrefix` | app/blog/page.tsx:22 | `startsWith` holds iff the string is the prefix followed by something |
| `JsString.EndsWithIffSuffix` | app/blog/page.tsx:22 | `endsWith` holds iff the string is something followed by the suffix |
| `JsString.ReplaceFirst` | app/blog/page.tsx:28 | with no occurrence of the pattern the string is unchanged; otherwise only the first occurrence is replaced and the rest kept |
| `JsString.IndexOf` | app/blog/page.tsx:28 | the first position where the pattern occurs, or none when it occurs nowhere |
| `JsString.Includes` | components/blog/Search.tsx:18 | true iff the needle occurs at some position |
| `JsString.Lower` | components/blog/Search.tsx:18 | same length; each ASCII upper-case letter becomes the letter 32 code points later, every other character is kept; no upper-case ASCII letter is left |
| `JsString.Trim` | components/blog/Search.tsx:16 | the result is a middle segment of the input with only whitespace cut off on either side; empty iff the input is all whitespace; otherwise neither end is whitespace |
| `JsString.TrimIgnoresPadding` | components/blog/Search.tsx:16-18 | whitespace added around a string does not change its trimmed form |
| `JsString.LowerKeepsBlank` | components/blog/Search.tsx:16-18 | lowercasing neither creates nor removes whitespace |
| `PostSearch.QueryKey` | components/blog/Search.tsx:18 | the key is the lowercased query with only whitespace cut off at its ends; it holds no upper-case ASCII letter and does not begin or end with whitespace |
| `PostSearch.SearchPosts` | components/blog/Search.tsx:16-20 | a blank query gives no results; otherwise a post is in the results iff its lowercased slug contains the lowercased trimmed query, with its multiplicity in `posts`, as a subsequence of `posts` |
| `PostSearch.SearchPartitionsPosts` | components/blog/Search.tsx:17-18 | results and non-matching posts together are exactly `posts` |
| `PostSearch.BlankIffEmptyKey` | components/blog/Search.tsx:16-18 | the blank test on the raw query agrees with the lowercased trimmed key being empty |
| `PostSearch.SearchDependsOnKeyOnly` | components/blog/Search.tsx:16-18 | queries with the same lowercased trimmed key give the same results |
| `PostSearch.SearchIgnoresCase` | components/blog/Search.tsx:18 | queries differing only in letter case give the same results |
| `PostSearch.SearchIgnoresPadding` | components/blog/Search.tsx:16-18 | leading and trailing whitespace on the query does not change the results |
| `PostSearch.SearchReadsOnlySlugs` | components/blog/Search.tsx:18 | post lists that agree on slugs, whatever their metadata, give results that agree on slugs |
| `PostSearch.SearchBox.constructor` | components/blog/Search.tsx:12-13 | the query starts empty and the results start empty, which is already the search of `posts` by the empty query |
| `PostSearch.SearchBox.SetSearchPost` | components/blog/Search.tsx:15-23 | after a query change the results are the search of the unchanged `posts` by the new query |
| `PostSearch.SearchBox.SetPosts` | components/blog/Search.tsx:15-23 | after new posts arrive the results are the search of them by the unchanged query |
| `Sequences.Filter` | app/blog/page.tsx:21-23 | `Array.prototype.filter`, as used on the directory listing and in both components: an element is kept iff it satisfies the test, and the result is a subsequence of the input |
| `Sequences.Distinct` | components/blog/Filter.tsx:8 | each element once, the same elements as the input, ordered by first appearance in the input |
| `CategoryFilter.CategoriesOf` | components/blog/Filter.tsx:8 | entry i is post i's category; a value is listed iff some post has it |
| `CategoryFilter.CategoryMenu` | components/blog/Filter.tsx:8 | "all" first; after it every post category exactly once and nothing else, in order of first appearance |
| `CategoryFilter.MenuRepeatsAll` | components/blog/Filter.tsx:8 | "all" occurs twice in the menu iff some post's category is "all", once otherwise |
| `CategoryFilter.ShownPosts` | components/blog/Filter.tsx:10-18 | for "all" exactly `posts`; otherwise exactly the posts whose category equals the pick, each copy kept, in original order |
| `CategoryFilter.FilterView.constructor` | components/blog/Filter.tsx:7 | the shown list starts as `posts` |
| `CategoryFilter.FilterView.FilterPosts` | components/blog/Filter.tsx:10-18 | after a click the shown list is computed from the original `posts` and the picked category only, not from the previous view |
| `Scenarios.PlainContentFile` | app/blog/page.tsx:21-28 | a stem that does not start with "." and holds no ".mdx", followed by ".mdx", is a content file whose slug is the stem |
| `Scenarios.NewerFileListedFirst` | app/blog/page.tsx:20-47 | of two content files, the later-dated post is listed first |
| `Scenarios.MixedCaseQueryFindsPost` | components/blog/Search.tsx:16-18 | the query "World" finds the post "hello-world" |
| `Scenarios.EmptyQueryFindsNothing` | components/blog/Search.tsx:16-20 | the empty query finds nothing |
| `Scenarios.MenuInFirstSeenOrder` | components/blog/Filter.tsx:8 | posts of two different categories x, y, x (such as aws, js, aws) give the menu all, x, y |

## Left out

- Reading the directory (`fs.readdirSync`, `path.join`, `process.cwd()`): the listing is an input sequence; a missing directory, which makes `readdirSync` throw, is not modelled.
- Loading a post module (`require`) and logging the failure (`console.error`): loading is the `load` parameter; the log line is not modelled.
- Date parsing (`new Date(...).getTime()`): the `dateValue` parameter gives an integer for every string. NaN for an unparseable date, and the engine-defined order it causes, are not modelled.
- Strings are sequences of Unicode scalar values, not of UTF-16 code units: lone surrogates are not represented, and a character outside the Basic Multilingual Plane takes one position where JavaScript counts two. No result differs on well-formed text.
- `toLowerCase` is modelled on ASCII letters only; other letters are left unchanged, and length-changing Unicode case mappings are not modelled.
- Author-defined metadata keys beyond title, publishDate and category, and categories of types other than string.
- The engine's sort algorithm: the model fixes an insertion sort. ECMA-262 requires `Array.prototype.sort` to be stable, and stability is what the lemmas prove about it.
- `CategoryFilter.FilterView`: `posts` is fixed at mount; new props after mount leave the `useState` value stale, which is not modelled.
- React scheduling (`useState`/`useEffect` timing), all JSX rendering, `generateMetadata`, and the layout, navigation, about, contact and home pages, which hold no logic.
