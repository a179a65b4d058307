/**
 * The pure pipeline of the bot: `contain_url` finds a documentation link in a post, `querydb`
 * derives the lookup key and queries the `Library` table, and `format_response` renders the
 * reply; `reply` chains the three before it posts.
 */
module SyntaxBot {
  import opened Wrappers
  import opened Text
  import opened UrlPattern
  import opened Anchor
  import opened Library

  /** A Reddit post: a comment has a `body`; a submission has none and is searched by `selftext`. */
  datatype Item = Comment(body: string) | Submission(selftext: string)
  {
    /** The text `contain_url` searches. */
    function SearchedText(): string {
      match this
      case Comment(body) => body
      case Submission(selftext) => selftext
    }
  }

  /**
   * `contain_url`: the match of the link pattern in the comment's body, or in the submission's
   * selftext; `None` (Python's `False`) exactly when no match exists anywhere in that text.
   */
  function ContainUrl(item: Item): (r: Option<UrlMatch>)
    ensures r.Some? ==> FoundIn(item.SearchedText(), r.value)
    ensures r.None? <==> forall j: nat :: !MatchableAt(item.SearchedText(), j)
    ensures r.Some? ==> forall j: nat :: j < r.value.start ==> !MatchableAt(item.SearchedText(), j)
  {
    Search(item.SearchedText())
  }

  /** Host of the documentation links, `baseurl`. */
  const BaseUrl: string := "docs.python.org"

  /**
   * The link `querydb` logs when nothing is found: the version is always `3`, since only that
   * version is stored, whatever version the post linked to.
   */
  function DiagnosticUrl(key: QueryKey): string {
    "https://" + BaseUrl + "/3/" + key.topic + "/" + key.moduleName + ".html#" + key.syntax
  }

  /**
   * What a call of `querydb` comes to: no link was passed, a row was found, or no row matched
   * and the diagnostic link was logged.
   */
  datatype QueryOutcome = NoUrl | Found(row: Record) | NotFound(loggedUrl: string)
  {
    /** The value `querydb` returns: the row, or `None`. */
    function Returned(): Option<Record> {
      match this
      case Found(row) => Some(row)
      case _ => None
    }
  }

  /**
   * `querydb`: a falsy argument gives nothing; otherwise the row found is the one with the
   * lowest `id` among the rows of the page's module whose keywords contain the normalised
   * anchor, and there is one exactly when such a row exists.
   */
  function QueryDb(kb: seq<Record>, data: Option<UrlMatch>): (r: QueryOutcome)
    ensures data.None? <==> r.NoUrl?
    ensures data.Some? ==>
      var key := KeyOf(data.value);
      && (r.Found? <==> exists i :: 0 <= i < |kb| && Hits(kb[i], key.moduleName, key.syntax))
      && (r.Found? ==> r.row in kb && Hits(r.row, key.moduleName, key.syntax))
      && (r.Found? ==> forall i :: 0 <= i < |kb| && Hits(kb[i], key.moduleName, key.syntax) ==> r.row.id <= kb[i].id)
      && (r.NotFound? ==> r.loggedUrl == DiagnosticUrl(key))
  {
    match data
    case None => NoUrl
    case Some(m) =>
      var key := KeyOf(m);
      if AnyHit(kb, key.moduleName, key.syntax) then Found(FirstById(kb, key.moduleName, key.syntax))
      else NotFound(DiagnosticUrl(key))
  }

  /** The version in the link never reaches the query: links that differ only there fare alike. */
  lemma VersionNeverQueried(kb: seq<Record>, m: UrlMatch, version: string)
    ensures QueryDb(kb, Some(m.(version := version))) == QueryDb(kb, Some(m))
  {
  }

  /**
   * There is no topic filter: links that differ only in their topic return the same row; the
   * topic shows only in the diagnostic link.
   */
  lemma TopicNotFiltered(kb: seq<Record>, m: UrlMatch, topic: string)
    ensures QueryDb(kb, Some(m.(topic := topic))).Returned() == QueryDb(kb, Some(m)).Returned()
  {
  }

  /** The fixed opening of every reply, with the source's line breaks and indentation. */
  const Preamble: string :=
    "Hi, I'm a bot being developed to get Python syntax \n"
    + "            definition. I noticed you included a link to this syntax in your \n"
    + "            post, so here's the entry from Python 3 official documentation: \n"
    + "            \n\n"

  /**
   * `format_response`: no reply (`False`) for no row; otherwise the preamble followed by the
   * row's header, body and footer, verbatim and in that order, separated by ` \n `.
   */
  function FormatResponse(data: Option<Record>): (r: Option<string>)
    ensures r.None? <==> data.None?
    ensures data.Some? ==>
      var h, b, f := data.value.header, data.value.body, data.value.footer;
      var n := |Preamble|;
      && |r.value| == n + |h| + 3 + |b| + 3 + |f|
      && r.value[..n] == Preamble
      && r.value[n..n + |h|] == h
      && r.value[n + |h|..n + |h| + 3] == " \n "
      && r.value[n + |h| + 3..n + |h| + 3 + |b|] == b
      && r.value[n + |h| + 3 + |b|..n + |h| + 6 + |b|] == " \n "
      && r.value[n + |h| + 6 + |b|..] == f
  {
    match data
    case None => None
    case Some(row) => Some(Preamble + row.header + " \n " + row.body + " \n " + row.footer)
  }

  /**
   * The reply `reply` would post for a post: there is one exactly when the post holds a link and
   * some row of the link's module has the normalised anchor among its keywords.
   */
  function BotResponse(kb: seq<Record>, item: Item): (r: Option<string>)
    ensures r.Some? <==>
      && ContainUrl(item).Some?
      && var key := KeyOf(ContainUrl(item).value);
         exists i :: 0 <= i < |kb| && Hits(kb[i], key.moduleName, key.syntax)
  {
    FormatResponse(QueryDb(kb, ContainUrl(item)).Returned())
  }

  /** A one-row table holding the entry for `re.match`. */
  function ReTable(): seq<Record> {
    [Record(1, 3, "library", "re", "re.match", "H", "B", "F", "https://docs.python.org/3/library/re.html#re.match")]
  }

  /** The `re.match` link is extracted with its groups as written. */
  lemma ReMatchLinkFound(topic: string)
    requires IsTopic(topic)
    ensures ContainUrl(Comment("see https://docs.python.org/3/" + topic + "re.html#re.match for details"))
      == Some(UrlMatch(28, "3/", topic, "re.html", "#re.match"))
  {
    var pre, v, p, an, post := "see https://docs.python.org/", "3/", "re.html", "#re.match", " for details";
    assert "see https://docs.python.org/3/" + topic + "re.html#re.match for details"
      == pre + v + topic + p + an + post;
    ReMatchPartsValid(pre, v, p, an, post);
    var text := pre + v + topic + p + an + post;
    assert forall k :: 0 <= k < |pre| ==> text[k] == pre[k];
    NoMatchBeforeDigit(text, |pre|);
    ExtractsLink(pre, v, topic, p, an, post);
  }

  /** The fixed parts of the `re.match` comment meet the conditions for extracting the link. */
  lemma ReMatchPartsValid(pre: string, v: string, p: string, an: string, post: string)
    requires pre == "see https://docs.python.org/" && v == "3/" && p == "re.html"
    requires an == "#re.match" && post == " for details"
    ensures IsVersion(v) && IsPage(p) && IsAnchor(an)
    ensures forall k :: 0 <= k < |pre| ==> pre[k] != '3' && pre[k] != '2'
    ensures !IsPageChar(an[0]) && (post == [] || !IsAnchorChar(post[0]))
  {
    assert p[|p| - 5..] == ".html";
  }

  /** Looking up the `re.match` link finds the one row of the table. */
  lemma ReMatchQuery(m: UrlMatch)
    requires m.page == "re.html" && m.anchor == "#re.match"
    ensures QueryDb(ReTable(), Some(m)) == Found(ReTable()[0])
  {
    ModuleNameExamples();
    assert m.anchor == "#" + "re.match";
    StripsLeadingHash("re.match");
    assert OccursAt("re.match", "re.match", 0);
    assert Hits(ReTable()[0], "re", "re.match");
  }

  /**
   * End to end: a comment linking to `re.html#re.match` under any topic (`library/`,
   * `tutorial/`, ...) gets the stored entry as its reply, since no topic filter applies.
   */
  lemma ReMatchReply(topic: string)
    requires IsTopic(topic)
    ensures BotResponse(ReTable(), Comment("see https://docs.python.org/3/" + topic + "re.html#re.match for details"))
      == Some(Preamble + "H" + " \n " + "B" + " \n " + "F")
  {
    var text := "see https://docs.python.org/3/" + topic + "re.html#re.match for details";
    ReMatchLinkFound(topic);
    ReMatchQuery(UrlMatch(28, "3/", topic, "re.html", "#re.match"));
    assert QueryDb(ReTable(), ContainUrl(Comment(text))).Returned() == Some(ReTable()[0]);
  }
}
