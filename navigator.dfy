/** The detail view of model/post.go (`PostPath`): the previous and next
    neighbours of a post and the two anchor strings built from them. */
module Navigation {
  import opened Wrappers
  import opened Posts

  /** `Naver`: the rendered previous and next links; the empty string (Go's
      zero value) when there is no such neighbour. */
  datatype Navigator = Navigator(prev: string, next: string)

  /** What `PostPath` hands back when the post was found. */
  datatype PathView = PathView(post: Post, nav: Navigator)

  /** The start of both anchors, up to the opening quote of the href. */
  const AnchorOpen := "<a href=\""

  /** The anchor for the post that precedes the current one. */
  function PrevLink(p: Post): string
  {
    "<a href=\"/post/" + p.path + ".html\" class=\"prev\">&laquo; " + p.title + "</a>"
  }

  /** The anchor for the post that follows the current one. */
  function NextLink(p: Post): string
  {
    "<a href=\"/post/" + p.path + ".html\" class=\"next\"> " + p.title + " &raquo;</a>"
  }

  /** The URL a post is served at. */
  function PostUrl(p: Post): string
  {
    "/post/" + p.path + ".html"
  }

  // ---------------------------------------------------------------------
  // Reading an anchor back by cutting it: the href is the text up to the
  // first `"` after `<a href="`, the label the text after the first `>`.
  // No entity decoding, URL parsing or markup in the label is modelled.

  /** The text of `s` before its first double quote, if it has one. */
  function UpToQuote(s: string): (r: Option<string>)
    ensures r.Some? ==> |r.value| < |s| && s[..|r.value|] == r.value && s[|r.value|] == '"' && '"' !in r.value
  {
    if s == [] then None
    else if s[0] == '"' then Some([])
    else match UpToQuote(s[1..]) {
      case None => None
      case Some(rest) => Some([s[0]] + rest)
    }
  }

  /** The text of `s` after its first `>`, if it has one. */
  function AfterTagEnd(s: string): (r: Option<string>)
    ensures r.Some? ==> |r.value| < |s| && s[|s| - |r.value|..] == r.value && s[|s| - |r.value| - 1] == '>'
    ensures r.Some? ==> '>' !in s[..|s| - |r.value| - 1]
  {
    if s == [] then None
    else if s[0] == '>' then Some(s[1..])
    else match AfterTagEnd(s[1..]) {
      case None => None
      case Some(rest) =>
        assert s[1..][..|s| - 1 - |rest| - 1] == s[1..|s| - |rest| - 1];
        Some(rest)
    }
  }

  /** The value of the anchor's `href` attribute. */
  function Href(link: string): Option<string>
  {
    if |link| >= |AnchorOpen| && link[..|AnchorOpen|] == AnchorOpen then UpToQuote(link[|AnchorOpen|..])
    else None
  }

  /** The anchor's text, between the end of the opening tag and `</a>`. */
  function Label(link: string): Option<string>
  {
    if |link| >= 4 && link[|link| - 4..] == "</a>" then AfterTagEnd(link[..|link| - 4])
    else None
  }

  lemma {:induction false} UpToQuoteOf(a: string, b: string)
    requires '"' !in a && b != [] && b[0] == '"'
    ensures UpToQuote(a + b) == Some(a)
  {
    if a != [] {
      assert (a + b)[1..] == a[1..] + b;
      UpToQuoteOf(a[1..], b);
    }
  }

  lemma {:induction false} AfterTagEndOf(a: string, b: string)
    requires '>' !in a
    ensures AfterTagEnd(a + ">" + b) == Some(b)
  {
    if a != [] {
      assert (a + ">" + b)[1..] == a[1..] + ">" + b;
      AfterTagEndOf(a[1..], b);
    }
  }

  /** The href of an anchor whose attribute value holds no quote. */
  lemma HrefOf(a: string, b: string)
    requires '"' !in a && b != [] && b[0] == '"'
    ensures Href(AnchorOpen + a + b) == Some(a)
  {
    var link := AnchorOpen + a + b;
    assert link[..|AnchorOpen|] == AnchorOpen;
    assert link[|AnchorOpen|..] == a + b;
    UpToQuoteOf(a, b);
  }

  /** The label of an anchor whose opening tag holds no other `>`. */
  lemma LabelOf(head: string, text: string)
    requires '>' !in head
    ensures Label(head + ">" + text + "</a>") == Some(text)
  {
    var link := head + ">" + text + "</a>";
    assert link[|link| - 4..] == "</a>";
    assert link[..|link| - 4] == head + ">" + text;
    AfterTagEndOf(head, text);
  }

  // The lemmas from here to `HeadsOpen` only regroup literals and
  // concatenations. Dafny proves each unaided; they exist so that the
  // round-trip proofs below take these steps one at a time, which keeps
  // those proofs small for the solver.

  /** The source's literals, cut where a reader of the links cuts them. */
  lemma LiteralCuts()
    ensures "<a href=\"/post/" == AnchorOpen + "/post/"
    ensures ".html\" class=\"prev\">&laquo; " == ".html" + "\" class=\"prev\">&laquo; "
    ensures ".html\" class=\"prev\">&laquo; " == ".html\" class=\"prev\"" + ">" + "&laquo; "
    ensures ".html\" class=\"next\"> " == ".html" + "\" class=\"next\"> "
    ensures ".html\" class=\"next\"> " == ".html\" class=\"next\"" + ">" + " "
    ensures " &raquo;</a>" == " &raquo;" + "</a>"
  {
  }

  /** Regrouping `a + b + c + d + e` around the href value `b + c + d1`. */
  lemma RegroupAtHref(a: string, b: string, c: string, d1: string, d2: string, e: string, f: string)
    ensures (a + b) + c + (d1 + d2) + e + f == a + (b + c + d1) + (d2 + e + f)
  {
  }

  /** Regrouping `a + b + c + d + e` around the opening tag `a + b + c1`. */
  lemma RegroupAtTag(a: string, b: string, c1: string, c2: string, c3: string, d: string, e: string)
    ensures a + b + (c1 + c2 + c3) + d + e == (a + b + c1) + c2 + (c3 + d) + e
  {
  }

  /** The previous link, cut at the end of the href value. */
  lemma PrevLinkAtHref(p: Post)
    ensures PrevLink(p) == AnchorOpen + PostUrl(p) + ("\" class=\"prev\">&laquo; " + p.title + "</a>")
  {
    LiteralCuts();
    RegroupAtHref(AnchorOpen, "/post/", p.path, ".html", "\" class=\"prev\">&laquo; ", p.title, "</a>");
  }

  /** The previous link, cut at the end of the opening tag. */
  lemma PrevLinkAtTag(p: Post)
    ensures PrevLink(p) == PrevHead(p) + ">" + ("&laquo; " + p.title) + "</a>"
  {
    LiteralCuts();
    RegroupAtTag("<a href=\"/post/", p.path, ".html\" class=\"prev\"", ">", "&laquo; ", p.title, "</a>");
  }

  /** The next link, cut at the end of the href value. */
  lemma NextLinkAtHref(p: Post)
    ensures NextLink(p) == AnchorOpen + PostUrl(p) + ("\" class=\"next\"> " + p.title + " &raquo;</a>")
  {
    LiteralCuts();
    RegroupAtHref(AnchorOpen, "/post/", p.path, ".html", "\" class=\"next\"> ", p.title, " &raquo;</a>");
  }

  /** The next link, cut at the end of the opening tag. */
  lemma NextLinkAtTag(p: Post)
    ensures NextLink(p) == NextHead(p) + ">" + (" " + p.title + " &raquo;") + "</a>"
  {
    LiteralCuts();
    RegroupAtTag("<a href=\"/post/", p.path, ".html\" class=\"next\"", ">", " ", p.title, " &raquo;</a>");
    assert " " + p.title + " &raquo;</a>" == (" " + p.title + " &raquo;") + "</a>";
  }

  /** A character in neither part is not in their concatenation. */
  lemma NotInConcat(c: char, a: string, b: string)
    requires c !in a && c !in b
    ensures c !in a + b
  {
  }

  /** A path without `"` gives a URL without `"`. */
  lemma UrlUnquoted(p: Post)
    requires '"' !in p.path
    ensures '"' !in PostUrl(p)
  {
    NotInConcat('"', "/post/", p.path);
    NotInConcat('"', "/post/" + p.path, ".html");
  }

  /** A path without `>` gives opening tags without `>`. */
  lemma HeadsOpen(p: Post)
    requires '>' !in p.path
    ensures '>' !in PrevHead(p) && '>' !in NextHead(p)
  {
    var start := "<a href=\"/post/";
    NotInConcat('>', start, p.path);
    NotInConcat('>', start + p.path, ".html\" class=\"prev\"");
    NotInConcat('>', start + p.path, ".html\" class=\"next\"");
  }

  /** The opening tags of the two links, without their closing `>`. */
  function PrevHead(p: Post): string
  {
    "<a href=\"/post/" + p.path + ".html\" class=\"prev\""
  }

  function NextHead(p: Post): string
  {
    "<a href=\"/post/" + p.path + ".html\" class=\"next\""
  }

  /** For a path with no `"` or `>`, cutting the previous link at its first
      `"` gives the neighbour's URL as href, and cutting at its first `>`
      gives `&laquo; ` and the title as label. */
  lemma PrevLinkRoundTrip(p: Post)
    requires '"' !in p.path && '>' !in p.path
    ensures Href(PrevLink(p)) == Some(PostUrl(p))
    ensures Label(PrevLink(p)) == Some("&laquo; " + p.title)
  {
    PrevLinkAtHref(p);
    PrevLinkAtTag(p);
    UrlUnquoted(p);
    HeadsOpen(p);
    HrefOf(PostUrl(p), "\" class=\"prev\">&laquo; " + p.title + "</a>");
    LabelOf(PrevHead(p), "&laquo; " + p.title);
  }

  /** The same for the next link, whose title is followed by `»`. */
  lemma NextLinkRoundTrip(p: Post)
    requires '"' !in p.path && '>' !in p.path
    ensures Href(NextLink(p)) == Some(PostUrl(p))
    ensures Label(NextLink(p)) == Some(" " + p.title + " &raquo;")
  {
    NextLinkAtHref(p);
    NextLinkAtTag(p);
    UrlUnquoted(p);
    HeadsOpen(p);
    HrefOf(PostUrl(p), "\" class=\"next\"> " + p.title + " &raquo;</a>");
    LabelOf(NextHead(p), " " + p.title + " &raquo;");
  }

  /** Two neighbours with such paths get the same previous link only when
      they have the same path and title. */
  lemma PrevLinkInjective(p: Post, q: Post)
    requires '"' !in p.path && '>' !in p.path && '"' !in q.path && '>' !in q.path
    requires PrevLink(p) == PrevLink(q)
    ensures p.path == q.path && p.title == q.title
  {
    PrevLinkRoundTrip(p);
    PrevLinkRoundTrip(q);
    var u, v := PostUrl(p), PostUrl(q);
    assert u == v;
    assert p.path == u[6..|u| - 5] && q.path == v[6..|v| - 5];
    var a, b := "&laquo; " + p.title, "&laquo; " + q.title;
    assert a == b;
    assert p.title == a[8..] && q.title == b[8..];
  }

  // ---------------------------------------------------------------------
  // The neighbour queries

  /** A row the neighbour queries may return for a post created at `t`
      on the side given by `earlier`. */
  predicate Candidate(q: Post, t: Time, earlier: bool)
  {
    IsListed(q) && (if earlier then Before(q.createTime, t) else Before(t, q.createTime))
  }

  /** `Where(... and Create_Time < t).Desc("Create_Time").Get`: the listed
      article created last before `t`, if any. */
  function LatestBefore(table: seq<Post>, t: Time): (r: Option<Post>)
    ensures r.Some? ==> r.value in table && Candidate(r.value, t, true)
    ensures r.Some? ==> forall i :: 0 <= i < |table| && Candidate(table[i], t, true) ==> NotAfter(table[i].createTime, r.value.createTime)
    ensures r.None? ==> forall i :: 0 <= i < |table| ==> !Candidate(table[i], t, true)
  {
    if table == [] then None
    else
      var rest := LatestBefore(table[1..], t);
      assert forall i :: 1 <= i < |table| ==> table[i] == table[1..][i - 1];
      if Candidate(table[0], t, true) && (rest.None? || Before(rest.value.createTime, table[0].createTime)) then
        Some(table[0])
      else
        rest
  }

  /** `Where(... and Create_Time > t).Asc("Create_Time").Get`: the listed
      article created first after `t`, if any. */
  function EarliestAfter(table: seq<Post>, t: Time): (r: Option<Post>)
    ensures r.Some? ==> r.value in table && Candidate(r.value, t, false)
    ensures r.Some? ==> forall i :: 0 <= i < |table| && Candidate(table[i], t, false) ==> NotAfter(r.value.createTime, table[i].createTime)
    ensures r.None? ==> forall i :: 0 <= i < |table| ==> !Candidate(table[i], t, false)
  {
    if table == [] then None
    else
      var rest := EarliestAfter(table[1..], t);
      assert forall i :: 1 <= i < |table| ==> table[i] == table[1..][i - 1];
      if Candidate(table[0], t, false) && (rest.None? || Before(table[0].createTime, rest.value.createTime)) then
        Some(table[0])
      else
        rest
  }

  // ---------------------------------------------------------------------
  // The source's operation

  /** `PostPath`, given what its three queries returned: nothing when the
      post was not found; otherwise the post with a link for each neighbour
      that was found and an empty string for each that was not. */
  function PostPath(found: Option<Post>, prev: Option<Post>, next: Option<Post>): (r: Option<PathView>)
    ensures r.Some? <==> found.Some?
    ensures r.Some? ==> r.value.post == found.value
    ensures r.Some? ==> (r.value.nav.prev == "" <==> prev.None?) && (r.value.nav.next == "" <==> next.None?)
    ensures r.Some? && prev.Some? ==> r.value.nav.prev == PrevLink(prev.value)
    ensures r.Some? && next.Some? ==> r.value.nav.next == NextLink(next.value)
  {
    if found.None? then None
    else
      var nav := Navigator(
        if prev.Some? then PrevLink(prev.value) else "",
        if next.Some? then NextLink(next.value) else "");
      Some(PathView(found.value, nav))
  }

  /** When the neighbours are the ones the queries select from `table`, the
      previous link is present exactly when some listed article is older
      than the post, and then it is the link of the closest older one, and
      leads to its URL when that article's path holds no `"` or `>`; the
      next link likewise for newer articles. */
  lemma PostPathNeighbours(table: seq<Post>, post: Post)
    ensures var v := PostPath(Some(post), LatestBefore(table, post.createTime), EarliestAfter(table, post.createTime)).value;
      && (v.nav.prev != "" <==> exists i :: 0 <= i < |table| && Candidate(table[i], post.createTime, true))
      && (v.nav.next != "" <==> exists i :: 0 <= i < |table| && Candidate(table[i], post.createTime, false))
      && (v.nav.prev != "" ==>
            exists i ::
              && 0 <= i < |table|
              && v.nav.prev == PrevLink(table[i])
              && ('"' !in table[i].path && '>' !in table[i].path ==> Href(v.nav.prev) == Some(PostUrl(table[i])))
              && Candidate(table[i], post.createTime, true)
              && forall j :: 0 <= j < |table| && Candidate(table[j], post.createTime, true) ==> NotAfter(table[j].createTime, table[i].createTime))
      && (v.nav.next != "" ==>
            exists i ::
              && 0 <= i < |table|
              && v.nav.next == NextLink(table[i])
              && ('"' !in table[i].path && '>' !in table[i].path ==> Href(v.nav.next) == Some(PostUrl(table[i])))
              && Candidate(table[i], post.createTime, false)
              && forall j :: 0 <= j < |table| && Candidate(table[j], post.createTime, false) ==> NotAfter(table[i].createTime, table[j].createTime))
  {
    var prev, next := LatestBefore(table, post.createTime), EarliestAfter(table, post.createTime);
    if prev.Some? {
      var i :| 0 <= i < |table| && table[i] == prev.value;
      if '"' !in prev.value.path && '>' !in prev.value.path {
        PrevLinkRoundTrip(prev.value);
      }
    }
    if next.Some? {
      var i :| 0 <= i < |table| && table[i] == next.value;
      if '"' !in next.value.path && '>' !in next.value.path {
        NextLinkRoundTrip(next.value);
      }
    }
  }
}
