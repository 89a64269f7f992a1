/** The monthly archive of model/post.go: `archInOf` and the grouping loop
    of `PostArchive`, proved against a declarative description of the
    buckets (`Grouped`), and the properties of that description. */
module Archives {
  import opened Wrappers
  import opened Posts
  import opened Queries

  /** An error reported by the database; its contents are not examined. */
  datatype DbError = DbError(message: string)

  /** Some post of `ps` was created in the calendar month of `t`. */
  predicate HasMonth(ps: seq<Post>, t: Time)
  {
    exists i :: 0 <= i < |ps| && SameMonth(ps[i].createTime, t)
  }

  /** The posts of `ps` created in the month of `t`, in input order. */
  function InMonth(ps: seq<Post>, t: Time): (r: seq<Post>)
    ensures forall k :: 0 <= k < |r| ==> SameMonth(r[k].createTime, t)
    ensures multiset(r) <= multiset(ps)
  {
    if ps == [] then []
    else
      var init, last := ps[..|ps| - 1], ps[|ps| - 1];
      assert ps == init + [last];
      InMonth(init, t) + (if SameMonth(last.createTime, t) then [last] else [])
  }

  /** Every input post of the month is selected for it. */
  lemma {:induction false} InMonthComplete(ps: seq<Post>, t: Time, i: nat)
    requires i < |ps| && SameMonth(ps[i].createTime, t)
    ensures ps[i] in InMonth(ps, t)
  {
    var init, last := ps[..|ps| - 1], ps[|ps| - 1];
    if i < |init| {
      assert init[i] == ps[i];
      InMonthComplete(init, t, i);
    }
  }

  /** A month with no input post gets no posts. */
  lemma {:induction false} InMonthEmpty(ps: seq<Post>, t: Time)
    requires !HasMonth(ps, t)
    ensures InMonth(ps, t) == []
  {
    if ps != [] {
      var init, last := ps[..|ps| - 1], ps[|ps| - 1];
      InMonthEmpty(init, t);
    }
  }

  /** The representative time of each month present in `ps`: the creation
      time of the month's first post, months listed in order of first
      occurrence. */
  function FirstTimes(ps: seq<Post>): (r: seq<Time>)
    ensures |r| <= |ps|
  {
    if ps == [] then []
    else
      var init, last := ps[..|ps| - 1], ps[|ps| - 1];
      if HasMonth(init, last.createTime) then FirstTimes(init)
      else FirstTimes(init) + [last.createTime]
  }

  /** What `PostArchive` is meant to return for the rows `ps`: one bucket per
      month, in order of first occurrence, holding that month's posts in
      input order, with the first post's time as the bucket's time. */
  function Grouped(ps: seq<Post>): seq<Archive>
  {
    var times := FirstTimes(ps);
    seq(|times|, k requires 0 <= k < |times| => Archive(times[k], InMonth(ps, times[k])))
  }

  /** All posts of all buckets, bucket after bucket. */
  function Flatten(ms: seq<Archive>): (r: seq<Post>)
  {
    if ms == [] then [] else Flatten(ms[..|ms| - 1]) + ms[|ms| - 1].posts
  }

  // ---------------------------------------------------------------------
  // The representative times

  /** Every representative time is the time of the first post of its month. */
  lemma {:induction false} FirstTimeIsFirstPost(ps: seq<Post>, k: nat)
    requires k < |FirstTimes(ps)|
    ensures exists j :: 0 <= j < |ps| && ps[j].createTime == FirstTimes(ps)[k] && !HasMonth(ps[..j], ps[j].createTime)
  {
    var init, last := ps[..|ps| - 1], ps[|ps| - 1];
    assert ps == init + [last];
    assert forall j :: 0 <= j <= |init| ==> ps[..j] == init[..j];
    if k < |FirstTimes(init)| {
      FirstTimeIsFirstPost(init, k);
      var j :| 0 <= j < |init| && init[j].createTime == FirstTimes(init)[k] && !HasMonth(init[..j], init[j].createTime);
      assert ps[j] == init[j];
    } else {
      assert ps[..|ps| - 1] == init;
    }
  }

  /** No two representative times share a month. */
  lemma {:induction false} FirstTimesDistinct(ps: seq<Post>)
    ensures forall k, l :: 0 <= k < l < |FirstTimes(ps)| ==> !SameMonth(FirstTimes(ps)[k], FirstTimes(ps)[l])
  {
    if ps != [] {
      var init, last := ps[..|ps| - 1], ps[|ps| - 1];
      FirstTimesDistinct(init);
      if !HasMonth(init, last.createTime) {
        var times := FirstTimes(init);
        forall k | 0 <= k < |times|
          ensures !SameMonth(times[k], last.createTime)
        {
          FirstTimeIsFirstPost(init, k);
          var j :| 0 <= j < |init| && init[j].createTime == times[k] && !HasMonth(init[..j], init[j].createTime);
          assert !SameMonth(init[j].createTime, last.createTime);
        }
      }
    }
  }

  /** Every post's month has a representative time. */
  lemma {:induction false} MonthHasFirstTime(ps: seq<Post>, i: nat)
    requires i < |ps|
    ensures exists k :: 0 <= k < |FirstTimes(ps)| && SameMonth(FirstTimes(ps)[k], ps[i].createTime)
  {
    var init, last := ps[..|ps| - 1], ps[|ps| - 1];
    var times := FirstTimes(init);
    if i < |init| {
      MonthHasFirstTime(init, i);
      var k :| 0 <= k < |times| && SameMonth(times[k], init[i].createTime);
      assert ps[i] == init[i];
      assert FirstTimes(ps)[k] == times[k];
    } else if HasMonth(init, last.createTime) {
      var j :| 0 <= j < |init| && SameMonth(init[j].createTime, last.createTime);
      MonthHasFirstTime(init, j);
      var k :| 0 <= k < |times| && SameMonth(times[k], init[j].createTime);
      assert FirstTimes(ps)[k] == times[k];
    } else {
      assert FirstTimes(ps)[|times|] == last.createTime;
    }
  }

  /** A month occurs in `ps` exactly when one of the representative times
      falls in it. */
  lemma FirstTimesCover(ps: seq<Post>, t: Time)
    ensures HasMonth(ps, t) <==> exists k :: 0 <= k < |FirstTimes(ps)| && SameMonth(FirstTimes(ps)[k], t)
  {
    var times := FirstTimes(ps);
    if HasMonth(ps, t) {
      var i :| 0 <= i < |ps| && SameMonth(ps[i].createTime, t);
      MonthHasFirstTime(ps, i);
    }
    if exists k :: 0 <= k < |times| && SameMonth(times[k], t) {
      var k :| 0 <= k < |times| && SameMonth(times[k], t);
      FirstTimeIsFirstPost(ps, k);
    }
  }

  // ---------------------------------------------------------------------
  // One step of the grouping loop

  /** Appending a post extends its month's list and leaves the others. */
  lemma InMonthSnoc(ps: seq<Post>, p: Post, t: Time)
    ensures InMonth(ps + [p], t) == InMonth(ps, t) + (if SameMonth(p.createTime, t) then [p] else [])
  {
    assert (ps + [p])[..|ps|] == ps;
  }

  /** Appending a post adds its time as a representative time exactly when
      its month is new. */
  lemma FirstTimesSnoc(ps: seq<Post>, p: Post)
    ensures FirstTimes(ps + [p]) == if HasMonth(ps, p.createTime) then FirstTimes(ps) else FirstTimes(ps) + [p.createTime]
  {
    assert (ps + [p])[..|ps|] == ps;
  }

  /** A month with no representative time does not occur. */
  lemma NoFirstTimeNoMonth(ps: seq<Post>, t: Time)
    requires forall k :: 0 <= k < |FirstTimes(ps)| ==> !SameMonth(t, FirstTimes(ps)[k])
    ensures !HasMonth(ps, t)
  {
    if HasMonth(ps, t) {
      var i :| 0 <= i < |ps| && SameMonth(ps[i].createTime, t);
      MonthHasFirstTime(ps, i);
    }
  }

  /** A post of a month with no bucket yet opens a new last bucket. */
  lemma GroupedAppendNew(ps: seq<Post>, p: Post)
    requires forall k :: 0 <= k < |Grouped(ps)| ==> !SameMonth(p.createTime, Grouped(ps)[k].time)
    ensures Grouped(ps + [p]) == Grouped(ps) + [Archive(p.createTime, [p])]
  {
    var times := FirstTimes(ps);
    var qs := ps + [p];
    var before := Grouped(ps);
    forall k | 0 <= k < |times|
      ensures !SameMonth(p.createTime, times[k])
    {
      assert before[k].time == times[k];
    }
    NoFirstTimeNoMonth(ps, p.createTime);
    FirstTimesSnoc(ps, p);
    var times' := times + [p.createTime];
    assert FirstTimes(qs) == times';
    var after := Grouped(qs);
    var expected := before + [Archive(p.createTime, [p])];
    assert |after| == |expected|;
    forall k | 0 <= k < |after|
      ensures after[k] == expected[k]
    {
      assert after[k] == Archive(times'[k], InMonth(qs, times'[k]));
      InMonthSnoc(ps, p, times'[k]);
      if k == |times| {
        InMonthEmpty(ps, p.createTime);
      }
      if k < |times| {
        assert expected[k] == before[k];
      }
    }
  }

  /** A post of a month that already has bucket `idx` is appended to it. */
  lemma GroupedAppendExisting(ps: seq<Post>, p: Post, idx: nat)
    requires idx < |Grouped(ps)| && SameMonth(p.createTime, Grouped(ps)[idx].time)
    ensures Grouped(ps + [p]) == Grouped(ps)[idx := Archive(Grouped(ps)[idx].time, Grouped(ps)[idx].posts + [p])]
  {
    var times := FirstTimes(ps);
    var qs := ps + [p];
    assert HasMonth(ps, p.createTime) by {
      FirstTimeIsFirstPost(ps, idx);
      var j :| 0 <= j < |ps| && ps[j].createTime == times[idx] && !HasMonth(ps[..j], ps[j].createTime);
      assert SameMonth(ps[j].createTime, p.createTime);
    }
    FirstTimesSnoc(ps, p);
    FirstTimesDistinct(ps);
    var before, after := Grouped(ps), Grouped(qs);
    assert |after| == |before|;
    forall k | 0 <= k < |after|
      ensures after[k] == before[idx := Archive(before[idx].time, before[idx].posts + [p])][k]
    {
      assert before[k].time == times[k];
      assert SameMonth(p.createTime, times[k]) <==> k == idx;
      InMonthSnoc(ps, p, times[k]);
    }
  }

  // ---------------------------------------------------------------------
  // What the grouping guarantees

  /** The first post of a month heads that month's list. */
  lemma {:induction false} InMonthHead(ps: seq<Post>, t: Time, j: nat)
    requires j < |ps| && SameMonth(ps[j].createTime, t) && !HasMonth(ps[..j], t)
    ensures InMonth(ps, t) != [] && InMonth(ps, t)[0] == ps[j]
  {
    var init, last := ps[..|ps| - 1], ps[|ps| - 1];
    assert ps == init + [last];
    InMonthSnoc(init, last, t);
    if j < |init| {
      assert init[..j] == ps[..j];
      assert init[j] == ps[j];
      InMonthHead(init, t, j);
    } else {
      assert init == ps[..j];
      InMonthEmpty(init, t);
    }
  }

  /** Every bucket is non-empty, its time is the creation time of its first
      post, and every post in it has the bucket's year and month. */
  lemma GroupedBucketsWellFormed(ps: seq<Post>)
    ensures forall k :: 0 <= k < |Grouped(ps)| ==>
      Grouped(ps)[k].posts != [] && Grouped(ps)[k].posts[0].createTime == Grouped(ps)[k].time
    ensures forall k, i :: 0 <= k < |Grouped(ps)| && 0 <= i < |Grouped(ps)[k].posts| ==>
      SameMonth(Grouped(ps)[k].posts[i].createTime, Grouped(ps)[k].time)
  {
    var times, g := FirstTimes(ps), Grouped(ps);
    forall k | 0 <= k < |g|
      ensures g[k].posts != [] && g[k].posts[0].createTime == g[k].time
    {
      FirstTimeIsFirstPost(ps, k);
      var j :| 0 <= j < |ps| && ps[j].createTime == times[k] && !HasMonth(ps[..j], ps[j].createTime);
      InMonthHead(ps, times[k], j);
    }
  }

  /** No two buckets have the same year and month. */
  lemma GroupedMonthsDistinct(ps: seq<Post>)
    ensures forall k, l :: 0 <= k < l < |Grouped(ps)| ==> !SameMonth(Grouped(ps)[k].time, Grouped(ps)[l].time)
  {
    FirstTimesDistinct(ps);
  }

  /** Flattening after opening a new last bucket. */
  lemma FlattenSnoc(ms: seq<Archive>, a: Archive)
    ensures Flatten(ms + [a]) == Flatten(ms) + a.posts
  {
    assert (ms + [a])[..|ms|] == ms;
  }

  /** Flattening after appending one post to bucket `idx`. */
  lemma {:induction false} FlattenAppendAt(ms: seq<Archive>, idx: nat, p: Post)
    requires idx < |ms|
    ensures multiset(Flatten(ms[idx := Archive(ms[idx].time, ms[idx].posts + [p])])) == multiset(Flatten(ms)) + multiset{p}
  {
    var ms' := ms[idx := Archive(ms[idx].time, ms[idx].posts + [p])];
    var init := ms[..|ms| - 1];
    if idx == |ms| - 1 {
      assert ms'[..|ms'| - 1] == init;
    } else {
      assert ms'[..|ms'| - 1] == init[idx := Archive(init[idx].time, init[idx].posts + [p])];
      FlattenAppendAt(init, idx, p);
    }
  }

  /** The buckets partition the input: together they hold every input post
      exactly as often as the input does, so their sizes add up to the
      number of input posts. */
  lemma {:induction false} GroupedPartition(ps: seq<Post>)
    ensures multiset(Flatten(Grouped(ps))) == multiset(ps)
    ensures |Flatten(Grouped(ps))| == |ps|
  {
    if ps != [] {
      var init, last := ps[..|ps| - 1], ps[|ps| - 1];
      assert ps == init + [last];
      GroupedPartition(init);
      var g := Grouped(init);
      if k :| 0 <= k < |g| && SameMonth(last.createTime, g[k].time) {
        GroupedAppendExisting(init, last, k);
        FlattenAppendAt(g, k, last);
      } else {
        GroupedAppendNew(init, last);
        FlattenSnoc(g, Archive(last.createTime, [last]));
      }
    }
    assert |multiset(Flatten(Grouped(ps)))| == |Flatten(Grouped(ps))|;
  }

  /** Each input post lies in a bucket, and every bucket that holds it is
      the same bucket. */
  lemma GroupedBucketOf(ps: seq<Post>, i: nat)
    requires i < |ps|
    ensures exists k :: 0 <= k < |Grouped(ps)| && ps[i] in Grouped(ps)[k].posts
    ensures forall k, l ::
      0 <= k < |Grouped(ps)| && 0 <= l < |Grouped(ps)| && ps[i] in Grouped(ps)[k].posts && ps[i] in Grouped(ps)[l].posts
      ==> k == l
  {
    var times := FirstTimes(ps);
    MonthHasFirstTime(ps, i);
    var k :| 0 <= k < |times| && SameMonth(times[k], ps[i].createTime);
    InMonthComplete(ps, times[k], i);
    assert ps[i] in Grouped(ps)[k].posts;
    FirstTimesDistinct(ps);
  }

  /** Over rows sorted newest first, the bucket months strictly decrease. */
  lemma {:induction false} FirstTimesDescending(ps: seq<Post>)
    requires NewestFirst(ps)
    ensures forall k, l :: 0 <= k < l < |FirstTimes(ps)| ==> MonthBefore(FirstTimes(ps)[l], FirstTimes(ps)[k])
  {
    if ps != [] {
      var init, last := ps[..|ps| - 1], ps[|ps| - 1];
      assert ps == init + [last];
      FirstTimesDescending(init);
      if !HasMonth(init, last.createTime) {
        var times := FirstTimes(init);
        forall k | 0 <= k < |times|
          ensures MonthBefore(last.createTime, times[k])
        {
          FirstTimeIsFirstPost(init, k);
          var j :| 0 <= j < |init| && init[j].createTime == times[k] && !HasMonth(init[..j], init[j].createTime);
          assert ps[j] == init[j];
          assert !SameMonth(init[j].createTime, last.createTime);
        }
      }
    }
  }

  /** The posts of one month keep the newest-first order of the input. */
  lemma {:induction false} InMonthNewestFirst(ps: seq<Post>, t: Time)
    requires NewestFirst(ps)
    ensures NewestFirst(InMonth(ps, t))
  {
    if ps != [] {
      var init, last := ps[..|ps| - 1], ps[|ps| - 1];
      forall i, j | 0 <= i < j < |init|
        ensures NotAfter(init[j].createTime, init[i].createTime)
      {
        assert init[i] == ps[i] && init[j] == ps[j];
      }
      InMonthNewestFirst(init, t);
      forall j | 0 <= j < |init|
        ensures NotAfter(last.createTime, init[j].createTime)
      {
        assert init[j] == ps[j];
      }
      InMonthNoEarlier(init, t, last.createTime);
      if SameMonth(last.createTime, t) {
        SnocNewestFirst(InMonth(init, t), last);
      }
    }
  }

  /** Selecting a month's posts keeps a lower bound on their times. */
  lemma InMonthNoEarlier(ps: seq<Post>, t: Time, low: Time)
    requires forall j :: 0 <= j < |ps| ==> NotAfter(low, ps[j].createTime)
    ensures forall k :: 0 <= k < |InMonth(ps, t)| ==> NotAfter(low, InMonth(ps, t)[k].createTime)
  {
    forall k | 0 <= k < |InMonth(ps, t)|
      ensures NotAfter(low, InMonth(ps, t)[k].createTime)
    {
      InMonthFrom(ps, t, k);
    }
  }

  /** A post no later than every post of a newest-first sequence can follow
      them. */
  lemma SnocNewestFirst(s: seq<Post>, p: Post)
    requires NewestFirst(s)
    requires forall k :: 0 <= k < |s| ==> NotAfter(p.createTime, s[k].createTime)
    ensures NewestFirst(s + [p])
  {
    var r := s + [p];
    forall i, j | 0 <= i < j < |r|
      ensures NotAfter(r[j].createTime, r[i].createTime)
    {
      assert r[i] == s[i];
      if j < |s| {
        assert r[j] == s[j];
      }
    }
  }

  /** Each post listed for a month comes from the input. */
  lemma InMonthFrom(ps: seq<Post>, t: Time, k: nat)
    requires k < |InMonth(ps, t)|
    ensures exists j :: 0 <= j < |ps| && ps[j] == InMonth(ps, t)[k]
  {
    var r := InMonth(ps, t);
    assert r[k] in multiset(r);
    assert r[k] in multiset(ps);
  }

  /** Over rows sorted newest first (as the archive query returns them) the
      buckets come newest month first, each newest post first. */
  lemma GroupedNewestFirst(ps: seq<Post>)
    requires NewestFirst(ps)
    ensures forall k, l :: 0 <= k < l < |Grouped(ps)| ==> MonthBefore(Grouped(ps)[l].time, Grouped(ps)[k].time)
    ensures forall k :: 0 <= k < |Grouped(ps)| ==> NewestFirst(Grouped(ps)[k].posts)
  {
    FirstTimesDescending(ps);
    var times := FirstTimes(ps);
    forall k | 0 <= k < |times|
      ensures NewestFirst(Grouped(ps)[k].posts)
    {
      InMonthNewestFirst(ps, times[k]);
    }
  }

  /** Grouping what the archive query returns for `table`: the buckets
      hold exactly the listed articles of the table, newest month first. */
  lemma ArchiveOfTable(table: seq<Post>)
    ensures var g := Grouped(Listing(table));
      && multiset(Flatten(g)) == multiset(Listed(table))
      && (forall k, l :: 0 <= k < l < |g| ==> MonthBefore(g[l].time, g[k].time))
      && (forall k, i :: 0 <= k < |g| && 0 <= i < |g[k].posts| ==> IsListed(g[k].posts[i]) && g[k].posts[i] in table)
  {
    var ps := Listing(table);
    var g := Grouped(ps);
    GroupedNewestFirst(ps);
    GroupedPartition(ps);
    forall k, i | 0 <= k < |g| && 0 <= i < |g[k].posts|
      ensures IsListed(g[k].posts[i]) && g[k].posts[i] in table
    {
      InMonthFrom(ps, g[k].time, i);
      var j :| 0 <= j < |ps| && ps[j] == g[k].posts[i];
      ListingFrom(table, j);
    }
  }

  // ---------------------------------------------------------------------
  // The source's operations

  /** `archInOf`: the index of the first bucket whose time has the year and
      month of `t`, or -1 when there is none. */
  method ArchInOf(t: Time, mods: seq<Archive>) returns (idx: int)
    ensures idx == -1 <==> forall k :: 0 <= k < |mods| ==> !SameMonth(t, mods[k].time)
    ensures idx != -1 ==> 0 <= idx < |mods| && SameMonth(t, mods[idx].time)
    ensures idx != -1 ==> forall k :: 0 <= k < idx ==> !SameMonth(t, mods[k].time)
  {
    for i := 0 to |mods|
      invariant forall k :: 0 <= k < i ==> !SameMonth(t, mods[k].time)
    {
      if t.year == mods[i].time.year && t.month == mods[i].time.month {
        return i;
      }
    }
    return -1;
  }

  /** `PostArchive`, given what the archive query returned: a database
      error is passed on, otherwise the rows are grouped by month. */
  method PostArchive(rows: Result<seq<Post>, DbError>) returns (r: Result<seq<Archive>, DbError>)
    ensures rows.Failure? ==> r == Failure(rows.error)
    ensures rows.Success? ==> r == Success(Grouped(rows.value))
    ensures rows == Success([]) ==> r == Success([])
  {
    if rows.Failure? {
      return Failure(rows.error);
    }
    var posts := rows.value;
    var mods: seq<Archive> := [];
    for i := 0 to |posts|
      invariant mods == Grouped(posts[..i])
    {
      var v := posts[i];
      assert posts[..i + 1] == posts[..i] + [v];
      var idx := ArchInOf(v.createTime, mods);
      if idx == -1 {
        GroupedAppendNew(posts[..i], v);
        mods := mods + [Archive(v.createTime, [v])];
      } else {
        GroupedAppendExisting(posts[..i], v, idx);
        mods := mods[idx := mods[idx].(posts := mods[idx].posts + [v])];
      }
    }
    assert posts[..|posts|] == posts;
    return Success(mods);
  }
}
