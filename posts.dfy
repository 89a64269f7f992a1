/** The records of model/post.go: `Post`, `Archive` and the calendar time
    they carry, with the orderings and filters the queries rely on. */
module Posts {

  /** A post's creation time. Only its calendar year and month are read by
      the archive; `within` places the instant inside that month (day and
      clock time folded into one integer), so that times are totally
      ordered by (year, month, within). */
  datatype Time = Time(year: int, month: int, within: int)

  /** `a` is not later than `b`. */
  predicate NotAfter(a: Time, b: Time)
  {
    || a.year < b.year
    || (a.year == b.year && a.month < b.month)
    || (a.year == b.year && a.month == b.month && a.within <= b.within)
  }

  /** `a` is strictly earlier than `b`. */
  predicate Before(a: Time, b: Time)
  {
    !NotAfter(b, a)
  }

  /** The comparison `archInOf` makes: same `Year()` and same `Month()`. */
  predicate SameMonth(a: Time, b: Time)
  {
    a.year == b.year && a.month == b.month
  }

  /** The calendar month of `a` is strictly earlier than that of `b`. */
  predicate MonthBefore(a: Time, b: Time)
  {
    a.year < b.year || (a.year == b.year && a.month < b.month)
  }

  /** The `Type` value of an article (pages have another value). */
  const ArticleType := 0

  /** The `Status` value of a published post. */
  const PublishedStatus := 3

  /** The columns of a post row that the core reads. */
  datatype Post = Post(
    id: int,
    kind: int,
    status: int,
    title: string,
    path: string,
    isPublic: bool,
    createTime: Time)

  /** One month of the archive: its representative time and its posts. */
  datatype Archive = Archive(time: Time, posts: seq<Post>)

  /** The filter `Type = 0 and Is_Public = 1 and Status = 3`. */
  predicate IsListed(p: Post)
  {
    p.kind == ArticleType && p.isPublic && p.status == PublishedStatus
  }

  /** Rows in the order `Desc("create_time")` returns them. */
  predicate NewestFirst(ps: seq<Post>)
  {
    forall i, j :: 0 <= i < j < |ps| ==> NotAfter(ps[j].createTime, ps[i].createTime)
  }
}
