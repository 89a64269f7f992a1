# Blog post data layer: archive, navigation and id index

A Dafny model of the in-memory logic of `model/post.go` in the go-echo-vue-blog
repository, the data-access layer of a small blog. The layer reads posts (articles
and static pages) from a relational table through an ORM. Around those reads it does
four things itself, and these are what the model covers:

- **Monthly archive** (`PostArchive`, `archInOf`). The published articles, newest
  first, are split into one bucket per calendar (year, month). A linear search looks
  for an existing bucket of the same month. The post is appended to it, or else a new
  bucket is opened with the post's creation time as its time. `ArchInOf` and
  `PostArchive` are methods with loops. `PostArchive` is proved to return exactly
  `Grouped(rows)`, a declarative description: one bucket per month, in order of first
  occurrence, holding that month's posts in input order. Lemmas then show what
  `Grouped` guarantees: the buckets partition the input, each bucket holds one month,
  no month gets two buckets, and a newest-first input gives newest-month-first buckets.
- **Navigator links** (`PostPath`). The previous and next neighbours of a post are
  rendered as anchors by string concatenation. `PrevLink`/`NextLink` copy those
  strings. Lemmas show that a reader that takes the href up to the first `"` and the
  text after the first `>` recovers the neighbour's URL and title from them. The neighbour queries are stated as `LatestBefore`/`EarliestAfter`.
- **Id index** (`postIds`). Fetched rows become a map from id to post. When there are
  no rows the result is no map at all (Go `nil`).
- **List queries** (`PostPage`, and the query `PostArchive` groups). These are stated
  as specification functions over an in-memory copy of the table: the listing filter
  `Type = 0 and Is_Public = 1 and Status = 3`, newest-first order, and the
  `Limit(ps, (pi-1)*ps)` window.

Modules: `Posts` (records, time order, filter predicate), `Queries` (list queries),
`Archives` (grouping), `Navigation` (neighbours and links), `PostIndex` (`postIds`),
`Scenarios` (worked examples with three posts), `Wrappers` (Option, Result).

A creation time is `Time(year, month, within)`. `within` is the position inside the
month (day and clock time as one integer). Times are ordered lexicographically, so
calendar-month order always agrees with time order. Database results are inputs to
the operations: `rows` for `PostArchive` and `PostIds`, and the three lookup results
for `PostPath`. A failed archive query is a `Result.Failure`.

## Model

| member | source | states |
|---|---|---|
| Archives.ArchInOf | model/post.go:71-78 | returns -1 exactly when no bucket's time has the year and month of `t`; otherwise a valid index whose bucket matches, with no match at any lower index |
| Archives.PostArchive | model/post.go:51-69 | a database error is passed on unchanged; otherwise the result is exactly `Grouped(rows)`; no rows give no buckets |
| Archives.InMonth | model/post.go:65 | the posts selected for a month all lie in that month and are taken from the input, none more often than it holds them |
| Archives.InMonthComplete | model/post.go:64-66 | every input post of a month is among the posts selected for that month |
| Archives.InMonthEmpty | model/post.go:59-63 | a month in which no input post lies gets no posts |
| Archives.GroupedAppendNew | model/post.go:59-63 | a post whose month matches no bucket adds a new last bucket, with the post's time and the post alone |
| Archives.GroupedAppendExisting | model/post.go:64-66 | a post whose month matches bucket `idx` is appended to that bucket, and every other bucket stays as it was |
| Archives.FirstTimeIsFirstPost | model/post.go:59-63 | each bucket time is the creation time of the first input post of its month |
| Archives.FirstTimesDistinct | model/post.go:59-63 | no two bucket times share a year and month |
| Archives.FirstTimesCover | model/post.go:59-63 | a month occurs in the input exactly when some bucket time lies in it |
| Archives.GroupedBucketsWellFormed | model/post.go:58-67 | every bucket is non-empty, its time equals its first post's creation time, and each of its posts has the bucket's year and month |
| Archives.GroupedMonthsDistinct | model/post.go:59-63 | no two buckets have the same year and month |
| Archives.GroupedPartition | model/post.go:58-67 | the buckets together hold the input posts exactly, as a multiset, and their sizes add up to the number of input posts |
| Archives.GroupedBucketOf | model/post.go:58-67 | every input post is in a bucket, and all buckets that hold it are the same bucket |
| Archives.GroupedNewestFirst | model/post.go:53-67 | for newest-first input, bucket months strictly decrease and each bucket's posts are newest first |
| Archives.ArchiveOfTable | model/post.go:53-68 | grouping the archive query's rows gives buckets that hold exactly the listed articles of the table, newest month first |
| Queries.Listed | model/post.go:53 | only posts with type 0, public and status 3 are kept, every such post of the table is kept, and nothing is added |
| Queries.ListedCounts | model/post.go:53 | each listed article occurs in the filtered rows exactly as often as in the table, and no other row occurs |
| Queries.InsertNewestFirst | model/post.go:36 | inserting into a newest-first sequence keeps it newest first and adds exactly the one post |
| Queries.SortNewestFirst | model/post.go:36 | `Desc("create_time")` gives a newest-first permutation of the rows |
| Queries.PageOffset | model/post.go:36 | the offset `(pi-1)*ps` handed to `Limit`, for `pi >= 1`; that consecutive offsets tile the listing is stated by FirstPagesArePrefix |
| Queries.PostPage | model/post.go:34-38 | the rows `PostPage` fetches: the window of `ps` rows at `PageOffset(pi, ps)` of the newest-first listing; what those rows are is stated by PostPageRows |
| Queries.Window | model/post.go:36 | `Limit(limit, offset)` gives at most `limit` rows, which are the listing's rows from `offset` on in order, and fewer only at the end of the listing |
| Queries.PostPageRows | model/post.go:34-38 | a page has at most `ps` rows, each a listed article of the table, newest first |
| Queries.FirstPagesArePrefix | model/post.go:36 | with offset `(pi-1)*ps`, pages 1..n together are exactly the first `n*ps` rows of the listing: no row is skipped or repeated, for one fixed listing (the table and the order of equal times unchanged between the page queries) |
| Navigation.PrevLink | model/post.go:94 | the source's previous-link concatenation, character for character; what a reader recovers from it is stated by PrevLinkRoundTrip |
| Navigation.NextLink | model/post.go:100 | the source's next-link concatenation, character for character; what a reader recovers from it is stated by NextLinkRoundTrip |
| Navigation.PrevLinkRoundTrip | model/post.go:92-95 | the previous link's href is `/post/<path>.html` and its text is `&laquo; <title>`, for a path without `"` or `>` |
| Navigation.NextLinkRoundTrip | model/post.go:98-101 | the next link's href is `/post/<path>.html` and its text is ` <title> &raquo;`, for a path without `"` or `>` |
| Navigation.PrevLinkInjective | model/post.go:94 | two such neighbours get the same previous link only if they share path and title |
| Navigation.LatestBefore | model/post.go:91 | the previous-neighbour query gives a listed article created strictly before the post and no earlier than any other such article, or nothing when there is none |
| Navigation.EarliestAfter | model/post.go:97 | the next-neighbour query gives a listed article created strictly after the post and no later than any other such article, or nothing when there is none |
| Navigation.PostPath | model/post.go:81-105 | a result exists exactly when the post was found; a link is non-empty exactly when its neighbour was found, and then it is that neighbour's previous or next link |
| Navigation.PostPathNeighbours | model/post.go:88-102 | with the neighbours the queries select, the previous link is present exactly when an older listed article exists, and then it is the previous link of the closest older one, whose URL it leads to when that article's path holds no `"` or `>`; the same holds for the next link and newer articles |
| PostIndex.PostIds | model/post.go:135-146 | no map when no rows came back; otherwise the keys are exactly the row ids, and each id maps to the last row with that id |
| Scenarios.ArchiveExample | model/post.go:57-68 | posts of 2024-01-05, 2024-01-20 and 2024-02-01 group as [February: third], [January: second, first] |
| Scenarios.NeighboursExample | model/post.go:91-97 | the middle post's previous neighbour is the January 5 post and its next is the February post |
| Scenarios.PageExample | model/post.go:36 | page 1 of size 2 over the three posts is [third, second] |

## Left out

- The database and its ORM (`DB.Cols/Where/Desc/Asc/Limit/Find/Get/Count/In`) are not part of this model. Query results are inputs. `Listed`, `SortNewestFirst`, `Window`, `LatestBefore` and `EarliestAfter` only state what those results satisfy.
- `PostCount`, `PostSingle`, `PostPageAll` and `PostGet` are not modelled. Each only forwards one query to the database and has no logic of its own.
- The lookup of the post by path in `PostPath` (model/post.go:82-87) is an input `found`. Its error is discarded in the source, so a failed lookup and a missing post both appear as `None`.
- Column projection (`Cols(...)`) is not modelled. Posts carry all modelled fields. `UserId`, `Summary`, `MarkdownContent`, `Content`, `AllowComment`, `UpdateTime`, `CommentNum`, `Options` and the struct tags are omitted because the modelled logic never reads them.
- `util.FormatDateTime` and the string comparison of timestamps in the neighbour queries are not modelled. The model compares `Time` values directly. Time zones and calendar arithmetic are abstracted into the `year`, `month` and `within` fields.
- The database orders rows with equal `create_time` arbitrarily. `SortNewestFirst` and the neighbour functions fix one such order. Each page of `PostPage` is its own query, so rows inserted between pages, or ties returned in another order, can shift rows between pages; `FirstPagesArePrefix` assumes one fixed listing.
- Pointers are not modelled. `postIds` maps ids to pointers into its result slice, and `PostPath` returns pointers. The model uses values, so aliasing between map entries and the slice is not represented.
- PageOffset: requires `pi >= 1`. The source passes a negative offset for smaller `pi` to the database, and the database's answer is not modelled. `ps` is a `nat` because `make` with a negative capacity panics in Go.
- PageOffset: does not model 64-bit overflow of `(pi-1)*ps`. Integers are unbounded here.
- Queries.Window: reads `Limit(0, offset)` literally as no rows. How the ORM renders a zero limit is not modelled.
- Navigation.PrevLinkRoundTrip: holds only for paths without `"` or `>`. The source does not escape path or title, so another path would end the href or the opening tag early. The same applies to Navigation.NextLinkRoundTrip, Navigation.PrevLinkInjective and the href conjuncts of Navigation.PostPathNeighbours. `Href` and `Label` only cut the string at the first `"` and the first `>`: entity decoding, `?`, `#` and `%` in paths, and markup in titles are not modelled. Because the title is not escaped, a browser reads markup in it as HTML, so the text it shows can differ from the label.
