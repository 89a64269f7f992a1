/** The worked examples of the blog's behaviour: three published articles,
    two in January 2024 and one in February 2024. */
module Scenarios {
  import opened Wrappers
  import opened Posts
  import opened Queries
  import opened Archives
  import opened Navigation

  const P1 := Post(1, ArticleType, PublishedStatus, "First", "first", true, Time(2024, 1, 5))
  const P2 := Post(2, ArticleType, PublishedStatus, "Second", "second", true, Time(2024, 1, 20))
  const P3 := Post(3, ArticleType, PublishedStatus, "Third", "third", true, Time(2024, 2, 1))

  /** The first two rows, newest first, open one bucket each. */
  lemma ArchiveExampleStart()
    ensures Grouped([P3, P2]) == [Archive(P3.createTime, [P3]), Archive(P2.createTime, [P2])]
  {
    assert Grouped([]) == [];
    GroupedAppendNew([], P3);
    assert [] + [P3] == [P3];
    GroupedAppendNew([P3], P2);
    assert [P3] + [P2] == [P3, P2];
  }

  /** The archive of the three: February with the third post, then January
      with the second and the first. */
  lemma ArchiveExample()
    ensures Grouped([P3, P2, P1]) == [Archive(P3.createTime, [P3]), Archive(P2.createTime, [P2, P1])]
  {
    ArchiveExampleStart();
    var g := Grouped([P3, P2]);
    assert g[1] == Archive(P2.createTime, [P2]);
    GroupedAppendExisting([P3, P2], P1, 1);
    assert [P3, P2] + [P1] == [P3, P2, P1];
    assert [P2] + [P1] == [P2, P1];
  }

  /** The second post's neighbours are the first (previous) and the third
      (next). */
  lemma NeighboursExample()
    ensures LatestBefore([P1, P2, P3], P2.createTime) == Some(P1)
    ensures EarliestAfter([P1, P2, P3], P2.createTime) == Some(P3)
  {
    var t := P2.createTime;
    assert [P1, P2, P3][1..] == [P2, P3] && [P2, P3][1..] == [P3] && [P3][1..] == [];
    assert EarliestAfter([P3], t) == Some(P3);
    assert EarliestAfter([P2, P3], t) == Some(P3);
    assert LatestBefore([P3], t) == None;
    assert LatestBefore([P2, P3], t) == None;
  }

  /** All three pass the listing filter. */
  lemma ListedExample()
    ensures Listed([P1, P2, P3]) == [P1, P2, P3]
  {
    assert [P1, P2, P3][1..] == [P2, P3] && [P2, P3][1..] == [P3] && [P3][1..] == [];
    assert Listed([P3]) == [P3];
    assert Listed([P2, P3]) == [P2, P3];
  }

  /** Sorting them puts the newest first. */
  lemma SortExample()
    ensures SortNewestFirst([P1, P2, P3]) == [P3, P2, P1]
  {
    assert [P1, P2, P3][1..] == [P2, P3] && [P2, P3][1..] == [P3] && [P3][1..] == [];
    assert SortNewestFirst([P3]) == [P3];
    assert InsertNewestFirst(P2, [P3]) == [P3, P2] by {
      assert [P3][1..] == [];
    }
    assert InsertNewestFirst(P1, [P2]) == [P2, P1];
    assert InsertNewestFirst(P1, [P3, P2]) == [P3, P2, P1] by {
      assert [P3, P2][1..] == [P2];
    }
  }

  /** The listing of the three is newest first. */
  lemma ListingExample()
    ensures Listing([P1, P2, P3]) == [P3, P2, P1]
  {
    ListedExample();
    SortExample();
  }

  /** The first page of two rows holds the third and the second post. */
  lemma PageExample()
    ensures PostPage([P1, P2, P3], 1, 2) == [P3, P2]
  {
    ListingExample();
    assert PageOffset(1, 2) == 0;
  }
}
