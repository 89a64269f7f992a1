/** What the list queries of model/post.go return, stated over an in-memory
    copy of the post table: the listing filter, the newest-first order and
    the page window of `PostPage`. */
module Queries {
  import opened Posts

  /** `Where("Type = 0 and Is_Public = 1 and Status = 3")`: the listed
      articles of `table`, in table order. */
  function Listed(table: seq<Post>): (r: seq<Post>)
    ensures forall k :: 0 <= k < |r| ==> IsListed(r[k])
    ensures forall i :: 0 <= i < |table| && IsListed(table[i]) ==> table[i] in r
    ensures multiset(r) <= multiset(table)
  {
    if table == [] then []
    else
      var rest := Listed(table[1..]);
      assert table == [table[0]] + table[1..];
      assert forall i :: 1 <= i < |table| ==> table[i] == table[1..][i - 1];
      if IsListed(table[0]) then [table[0]] + rest else rest
  }

  /** The filter exactly: each listed post occurs in `Listed(table)` as
      often as in the table, and no other post occurs. */
  lemma {:induction false} ListedCounts(table: seq<Post>, p: Post)
    ensures multiset(Listed(table))[p] == if IsListed(p) then multiset(table)[p] else 0
  {
    if table != [] {
      ListedCounts(table[1..], p);
      assert table == [table[0]] + table[1..];
    }
  }

  /** Every element of `s` is no later than `t`. */
  predicate AllNotAfter(s: seq<Post>, t: Time)
  {
    forall k :: 0 <= k < |s| ==> NotAfter(s[k].createTime, t)
  }

  /** Places `p` into rows already sorted newest first. */
  function InsertNewestFirst(p: Post, s: seq<Post>): (r: seq<Post>)
    requires NewestFirst(s)
    ensures NewestFirst(r)
    ensures multiset(r) == multiset(s) + multiset{p}
    ensures |r| == |s| + 1
  {
    if s == [] then [p]
    else if NotAfter(s[0].createTime, p.createTime) then
      [p] + s
    else
      var tail := InsertNewestFirst(p, s[1..]);
      assert s == [s[0]] + s[1..];
      assert AllNotAfter(s[1..] + [p], s[0].createTime);
      assert multiset(tail) == multiset(s[1..] + [p]);
      SameElementsBounded(tail, s[1..] + [p], s[0].createTime);
      [s[0]] + tail
  }

  /** Rows with the same elements as rows no later than `t` are no later
      than `t`. */
  lemma SameElementsBounded(a: seq<Post>, b: seq<Post>, t: Time)
    requires multiset(a) == multiset(b) && AllNotAfter(b, t)
    ensures AllNotAfter(a, t)
  {
    forall k | 0 <= k < |a|
      ensures NotAfter(a[k].createTime, t)
    {
      assert a[k] in multiset(b);
      var j :| 0 <= j < |b| && b[j] == a[k];
    }
  }

  /** `Desc("create_time")`: the rows of `s` sorted newest first. */
  function SortNewestFirst(s: seq<Post>): (r: seq<Post>)
    ensures NewestFirst(r)
    ensures multiset(r) == multiset(s)
    ensures |r| == |s|
  {
    if s == [] then []
    else
      assert s == [s[0]] + s[1..];
      InsertNewestFirst(s[0], SortNewestFirst(s[1..]))
  }

  /** The rows both `PostPage` and `PostArchive` query, before any limit. */
  function Listing(table: seq<Post>): seq<Post>
  {
    SortNewestFirst(Listed(table))
  }

  /** The number of rows skipped before page `pi` (counted from 1) when
      pages hold `ps` rows. */
  function PageOffset(pi: int, ps: nat): nat
    requires pi >= 1
  {
    (pi - 1) * ps
  }

  /** `Limit(limit, offset)`: at most `limit` rows of `listing`, starting
      after the first `offset`. */
  function Window(listing: seq<Post>, offset: nat, limit: nat): (r: seq<Post>)
    ensures |r| <= limit
    ensures forall k :: 0 <= k < |r| ==> offset + k < |listing| && r[k] == listing[offset + k]
    ensures |r| == limit || offset + |r| >= |listing|
  {
    if offset >= |listing| then []
    else if offset + limit <= |listing| then listing[offset..offset + limit]
    else listing[offset..]
  }

  /** `PostPage`, stated as what its query returns for `table`: page `pi` of
      `ps` rows of the listing. */
  function PostPage(table: seq<Post>, pi: int, ps: nat): seq<Post>
    requires pi >= 1
  {
    Window(Listing(table), PageOffset(pi, ps), ps)
  }

  /** Every row of the listing is a listed article of the table. */
  lemma ListingFrom(table: seq<Post>, i: nat)
    requires i < |Listing(table)|
    ensures IsListed(Listing(table)[i]) && Listing(table)[i] in table
  {
    var listed, x := Listed(table), Listing(table)[i];
    assert x in multiset(Listing(table));
    assert x in multiset(listed);
    assert x in multiset(table);
    var j :| 0 <= j < |listed| && listed[j] == x;
  }

  /** A page holds at most `ps` rows, all of them listed articles of the
      table, newest first. */
  lemma PostPageRows(table: seq<Post>, pi: int, ps: nat)
    requires pi >= 1
    ensures |PostPage(table, pi, ps)| <= ps
    ensures NewestFirst(PostPage(table, pi, ps))
    ensures forall k :: 0 <= k < |PostPage(table, pi, ps)| ==> IsListed(PostPage(table, pi, ps)[k]) && PostPage(table, pi, ps)[k] in table
  {
    var listing, offset := Listing(table), PageOffset(pi, ps);
    var r := Window(listing, offset, ps);
    forall k | 0 <= k < |r|
      ensures IsListed(r[k]) && r[k] in table
    {
      ListingFrom(table, offset + k);
    }
    WindowNewestFirst(listing, offset, ps);
  }

  /** A window of a newest-first listing is newest first. */
  lemma WindowNewestFirst(listing: seq<Post>, offset: nat, limit: nat)
    requires NewestFirst(listing)
    ensures NewestFirst(Window(listing, offset, limit))
  {
    var r := Window(listing, offset, limit);
    forall i, j | 0 <= i < j < |r|
      ensures NotAfter(r[j].createTime, r[i].createTime)
    {
      assert r[i] == listing[offset + i] && r[j] == listing[offset + j];
    }
  }

  /** Pages 1 to `n` of the listing, one after another. */
  function FirstPages(listing: seq<Post>, n: nat, ps: nat): seq<Post>
  {
    if n == 0 then [] else FirstPages(listing, n - 1, ps) + Window(listing, PageOffset(n, ps), ps)
  }

  /** Offset paging neither skips nor repeats a row: the first `n` pages
      together are the first `n * ps` rows of the listing. */
  lemma {:induction false} FirstPagesArePrefix(listing: seq<Post>, n: nat, ps: nat)
    ensures FirstPages(listing, n, ps) == listing[..if n * ps <= |listing| then n * ps else |listing|]
  {
    if n > 0 {
      FirstPagesArePrefix(listing, n - 1, ps);
      PageOffsetNext(n, ps);
      PrefixThenWindow(listing, FirstPages(listing, n - 1, ps), PageOffset(n, ps), ps);
    }
  }

  /** The rows before `offset`, followed by the window at `offset`, are the
      rows before `offset + limit`. */
  lemma PrefixThenWindow(listing: seq<Post>, prefix: seq<Post>, offset: nat, limit: nat)
    requires prefix == listing[..if offset <= |listing| then offset else |listing|]
    ensures prefix + Window(listing, offset, limit) == listing[..if offset + limit <= |listing| then offset + limit else |listing|]
  {
    var before := if offset <= |listing| then offset else |listing|;
    var after := if offset + limit <= |listing| then offset + limit else |listing|;
    assert Window(listing, offset, limit) == listing[before..after];
    assert listing[..after] == listing[..before] + listing[before..after];
  }

  /** The offset of page `n` is that of the page before plus one page, and
      page `n + 1` starts after `n` pages. */
  lemma PageOffsetNext(n: nat, ps: nat)
    requires n >= 1
    ensures PageOffset(n, ps) == (n - 1) * ps
    ensures n * ps == PageOffset(n, ps) + ps
  {
  }
}
