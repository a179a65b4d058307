# SyntaxBot link resolution, modelled in Dafny

SyntaxBot is a Reddit bot. It watches posts for links into the Python documentation
(`docs.python.org/3/library/re.html#re.match`) and replies with the stored explanation of the
linked entry. This project models the part of `SyntaxAutoBot.py` that does not talk to
Reddit or to the network. That part is a pipeline of five stages:

1. **Extractor** (`urlpattern`, `contain_url`). `re.search` with the pattern
   `(?P<version>[32]/)(?P<topic>\w+/)(?P<page>[\w\.]+\.html)(?P<syntax>[\?#\w=\.]+)`,
   compiled with `re.I | re.X`, over a comment's `body` or a submission's `selftext`.
   - The model does not use a regex engine. `UrlPattern.MatchAt` is a matcher written out for
     this one grammar.
   - It is proved to find the same match as Python's backtracking search. That match starts at
     the leftmost possible index. Its page is the longest one that still leaves an anchor
     character, and its anchor is the longest run after that.
2. **Anchor normaliser** (`querydb`). The anchor is searched with `\?highlight=\w+\#|\#`,
   case-sensitively. Every copy of the first matched text is then removed with `str.replace`.
3. **Field trimming** (`querydb`). Version and topic go through `rstrip('/')`. The page goes
   through `rstrip('.html')`, which strips a trailing run of the characters `.`, `h`, `t`, `m`,
   `l` and not the suffix. So `shutil.html` becomes the module `shuti`, and `re.HTML` is kept
   whole.
4. **Lookup** (`querydb`). The `Library` table is a `seq<Record>`.
   - An existence check looks for a row whose `module` equals the module and whose `keywords`
     contain the keyword.
   - If there is one, the row with the lowest `id` among those rows is returned.
   - If not, nothing is returned, and a diagnostic link that always says version `3` is logged.
5. **Formatter** (`format_response`). No row gives no reply. Otherwise the reply is a fixed
   preamble, then the row's header, body and footer, separated by ` \n `.

Modules: `Wrappers` (Option), `Text` (string primitives standing for `\w`, greedy runs,
substring containment, `str.replace` and `str.rstrip`), `UrlPattern`, `Anchor`, `Library`,
`SyntaxBot`.

Some behaviour of the code is easy to misread, and the model follows the code as written:
- **Version group.** It is exactly `3/` or `2/`; no other version number matches.
- **Anchor group.** It needs at least one character.
- **Normalising.** The first marker found is removed wherever it occurs, and every copy of it
  goes, not only a leading one. Normalising is therefore not idempotent (`Anchor.NotIdempotent`).
- **Topic filter.** There is none. The topic only shows up in the diagnostic link
  (`SyntaxBot.TopicNotFiltered`, `SyntaxBot.ReMatchReply`).
- **Reply layout.** Header, body and footer are separated by ` \n `, a space, a newline and a
  space, not placed each on a line of its own.

## Model

| member | source | states |
|---|---|---|
| `Text.RunEnd` | SyntaxAutoBot.py:43-44 | the end of the longest run of one character class from an index: what a greedy class quantifier consumes; every character before it is in the class and the next one is not |
| `Text.Contains` | SyntaxAutoBot.py:115 | `keywords.contains(k)` holds exactly when `k` occurs at some index of `keywords` |
| `Text.RemoveAll` | SyntaxAutoBot.py:96 | `str.replace(w, '')` never makes a string longer |
| `Text.RemoveAllAbsent` | SyntaxAutoBot.py:96 | replacing a string that does not occur leaves the text unchanged |
| `Text.RemoveAllShortens` | SyntaxAutoBot.py:96 | when the replaced string occurs, at least one whole copy of it is removed |
| `Text.RemoveAllChar` | SyntaxAutoBot.py:96 | replacing a one-character string deletes every copy of that character |
| `Text.Without` | SyntaxAutoBot.py:96 | the text with one character deleted holds no copy of it and every other character as often as before |
| `Text.RStrip` | SyntaxAutoBot.py:100-102 | `rstrip(chars)` keeps the longest prefix after which every character is in the set; the kept prefix does not end in one |
| `UrlPattern.PageEnd` | SyntaxAutoBot.py:44 | backtracking the greedy `[\w\.]+`: the last index, down from the end of the page run, where `.html` (any case) ends and an anchor character follows; no later index qualifies |
| `UrlPattern.TopicEnd` | SyntaxAutoBot.py:43 | the `\w+/` group found after the version satisfies its class |
| `UrlPattern.PageEndFrom` | SyntaxAutoBot.py:44 | the page group found satisfies `[\w\.]+\.html` and an anchor character follows it |
| `UrlPattern.AnchorEnd` | SyntaxAutoBot.py:44 | the anchor group found satisfies `[\?#\w=\.]+` and cannot be extended |
| `UrlPattern.MatchAt` | SyntaxAutoBot.py:43-44 | a match found at an index has the four groups in their classes, spells out the text at that index, and its anchor cannot be extended |
| `UrlPattern.MatchAtGreedy` | SyntaxAutoBot.py:43-44 | if any decomposition of the text at an index matches the pattern, the matcher succeeds there with the same topic, a page at least as long, and with an equal page an anchor at least as long |
| `UrlPattern.NoMatchAt` | SyntaxAutoBot.py:43-44 | when the matcher fails at an index, no decomposition matches there |
| `UrlPattern.SearchFrom` | SyntaxAutoBot.py:70 | the result is the matcher's result at the first index from which it succeeds |
| `UrlPattern.Search` | SyntaxAutoBot.py:70 | `re.search`: the match satisfies the pattern and sits at the leftmost index where any match exists; there is no match exactly when the pattern matches nowhere |
| `UrlPattern.MaximalSplitIsMatch` | SyntaxAutoBot.py:43-44 | a decomposition whose page and anchor cannot be extended is exactly the match returned |
| `UrlPattern.MatchStartsWithDigit` | SyntaxAutoBot.py:43 | a match can only start at a `3` or a `2`, the first character of the version group |
| `UrlPattern.NoMatchBeforeDigit` | SyntaxAutoBot.py:43 | no match starts before the first `3` or `2` of the text |
| `UrlPattern.ExtractsLink` | SyntaxAutoBot.py:43-44 | a link in running text is extracted with its version, topic, page and anchor verbatim when no match starts earlier in the text (for instance when nothing before it is a `3` or `2`), its anchor starts with `?`, `#` or `=`, and no anchor character follows it |
| `Anchor.HighlightAt` | SyntaxAutoBot.py:93 | the first alternative `\?highlight=\w+\#` matches at an index with the text returned |
| `Anchor.HighlightAtFinds` | SyntaxAutoBot.py:93 | any highlight marker at an index is the one found there |
| `Anchor.FindMarker` | SyntaxAutoBot.py:93-94 | `re.search(_strip, anchor)`: the leftmost index where either alternative matches, and the only text that matches there; no match when none exists |
| `Anchor.Normalise` | SyntaxAutoBot.py:93-99 | the keyword is never longer than the anchor, and equals it exactly when the anchor has no `#` |
| `Anchor.LeadingHighlight` | SyntaxAutoBot.py:93-96 | a highlight marker at the start of the anchor is the one found, and every copy of it in the rest is removed |
| `Anchor.ShortRestKeepsHash` | SyntaxAutoBot.py:93-96 | after a leading highlight marker, a rest shorter than the marker is kept verbatim, `#` included |
| `Anchor.StripsLeadingHighlight` | SyntaxAutoBot.py:93-99 | `?highlight=<word>#` before an anchor without `#` is removed and nothing else changes |
| `Anchor.StripsLeadingHash` | SyntaxAutoBot.py:93-99 | a leading `#` before an anchor without `#` is removed and nothing else changes |
| `Anchor.HighlightExample` | SyntaxAutoBot.py:93-99 | `?highlight=foo#bar` gives `bar` |
| `Anchor.HashExample` | SyntaxAutoBot.py:93-99 | `#bar` gives `bar` |
| `Anchor.BareHashRemovesEveryHash` | SyntaxAutoBot.py:93-96 | when the first marker is a bare `#`, the keyword is the anchor with every `#` deleted |
| `Anchor.IdempotentUnlessHighlight` | SyntaxAutoBot.py:93-99 | normalising twice equals normalising once unless the first marker was a highlight query |
| `Anchor.NotIdempotent` | SyntaxAutoBot.py:93-99 | `?highlight=foo#bar#baz` gives `bar#baz`, which normalises again to something else |
| `Anchor.ModuleName` | SyntaxAutoBot.py:102 | `rstrip('.html')` yields a prefix of the page; a lower-case `.html` always goes; a page ending outside `.html` characters is kept whole |
| `Anchor.ModuleNameExamples` | SyntaxAutoBot.py:102 | `re.html` gives `re`, `shutil.html` gives `shuti`, `xml.html` gives `x`, `re.HTML` is unchanged |
| `Anchor.TrimVersion` | SyntaxAutoBot.py:100 | a version group `3/` or `2/` loses its `/` and keeps its digit |
| `Anchor.TrimTopic` | SyntaxAutoBot.py:101 | a topic group loses its one trailing `/` and keeps no `/` |
| `Anchor.KeyOf` | SyntaxAutoBot.py:93-102 | the key of a match: version `3` or `2`, the topic without its `/`, the module after `rstrip('.html')`, the normalised anchor |
| `Library.AnyHit` | SyntaxAutoBot.py:113-115 | the existence query holds exactly when some row has the module and keywords containing the keyword |
| `Library.FirstById` | SyntaxAutoBot.py:120-123 | the fetched row is a row of the table that passes the filter, with an `id` no larger than that of any other such row |
| `Library.LowestIdWins` | SyntaxAutoBot.py:120-123 | with unique ids, the passing row of lowest `id` is the one returned, wherever it sits in the table |
| `SyntaxBot.ContainUrl` | SyntaxAutoBot.py:64-84 | searches the comment body or the submission selftext; returns the leftmost match, and nothing exactly when the pattern matches nowhere |
| `SyntaxBot.QueryDb` | SyntaxAutoBot.py:87-132 | no link gives nothing; otherwise a row is found exactly when a row with the module has the keyword, the row found has the lowest such `id`, and a miss logs `DiagnosticUrl`, the link `https://docs.python.org/3/<topic>/<module>.html#<keyword>` of lines 129-130 with version `3` fixed |
| `SyntaxBot.VersionNeverQueried` | SyntaxAutoBot.py:100-130 | links that differ only in version give the same outcome, diagnostic link included |
| `SyntaxBot.TopicNotFiltered` | SyntaxAutoBot.py:101-126 | links that differ only in topic return the same row |
| `SyntaxBot.FormatResponse` | SyntaxAutoBot.py:135-144 | no row gives no reply; otherwise the reply is `Preamble`, the three lines of fixed text of lines 140-143 with their indentation and trailing spaces, then header, body and footer verbatim and in order, separated by ` \n ` |
| `SyntaxBot.BotResponse` | SyntaxAutoBot.py:151-153 | a post gets a reply exactly when it holds a link and some row of the link's module has the normalised anchor among its keywords |
| `SyntaxBot.ReMatchLinkFound` | SyntaxAutoBot.py:64-84 | in `see https://docs.python.org/3/<topic>re.html#re.match for details`, where `<topic>` is any `\w+/` group, the link is found at index 28 with its groups verbatim |
| `SyntaxBot.ReMatchQuery` | SyntaxAutoBot.py:93-126 | a match of `re.html#re.match` finds the `re` row whose keywords are `re.match` |
| `SyntaxBot.ReMatchReply` | SyntaxAutoBot.py:151-153 | end to end, that comment gets the stored entry as its reply, whatever the topic |

## Left out

- Reddit and HTTP input and output are not modelled: `login`, the posting and saving in `reply`,
  the pacing sleeps, `scan_submission`, `scan_comments`, `whatsub_doc` and the `__main__` retry
  on `ConnectionError`. They are network plumbing. `SyntaxBot.BotResponse` models only the pure
  chain in `reply`.
- `check_replied` is not modelled. It walks a listing fetched from the network, and its equality
  test depends on a comparison inside praw that is not part of this model.
- `docdb.py` only declares tables. `Library.Record` keeps the columns the query selects, plus
  `topic`. `major`, `minor`, `micro`, `keytype`, `keyclass` and the `RedditActivity` table are
  left out, because the modelled code never reads them.
- Database failures, sessions and SQLAlchemy itself are left out.
- `Text.Contains` models `keywords.contains(k)` as plain substring containment. In SQL it is a
  `LIKE '%k%'` without escaping, so a `_` or `%` in the keyword would act as a wildcard.
- `group_by(module, id)` is not modelled. It groups on the primary key, so it changes nothing.
- `\w` is modelled as ASCII letters, digits and `_`. Python 3 also accepts other Unicode word
  characters.
- Case-insensitive matching is modelled only for the letters of `.html`. The other parts of the
  pattern contain no letters.
- Logging is left out. The one logged value the model keeps is the diagnostic link of a lookup
  miss, as `SyntaxBot.QueryOutcome.NotFound`.
- `format_response` takes a `comment` argument that it never uses; the model leaves it out.
