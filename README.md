# Kubetools tweet rotation and Docker AI/ML catalog ingestion, in Dafny

This project models the text and collection logic of two Python scripts from
the awesome-docker-ai-lists repository, with the GitHub and Twitter plumbing
around them removed.

- **The tweet scheduler** (`tweet-scheduler/tweet_scheduler.py`):
  - reads the tool catalog out of a README: level-2 headings, each followed by a table whose rows are tools;
  - picks a tool not yet tweeted, if there is one;
  - composes the tweet text;
  - after a successful post, records the tool's name in a duplicate-free history together with a time stamp.
- **The GitHub crawler** (`scripts/github_crawler.py`):
  - decides whether a repository concerns both Docker and AI/ML;
  - files the repository under the best-scoring keyword category;
  - renders the repository as a README table row;
  - splices that row into the category's table in the README;
  - removes duplicate search results by full name.

Modules, one per file:

- `Wrappers`: the `Option` type.
- `Strings`: the Python `str` operations used by both scripts, over ASCII:
  - `find`, including a negative start;
  - `strip`, `lower` and `title`;
  - `replace`, `join`;
  - slicing with a negative end.
- `Catalog`: the README as a sequence of `Heading`/`Table` nodes.
  - `extract_tools_from_readme` is both an imperative method and the function that specifies it.
  - Lemmas state membership, field provenance and document order.
- `Tweets`: `create_tweet_text`, including an exact model of the regular expression `\[.*?\]|\(.*?\)`.
- `Rotation`:
  - the tool selection;
  - the `History` class and one scheduler round;
  - the proof that N successful rounds over N distinctly named tools tweet every tool once.
- `Crawler`:
  - the relevance gate;
  - the twelve categories;
  - the classifier, an imperative method with its loops;
  - the row renderer and the slug-to-heading conversion.
- `Splice`: the README edit inside `create_pull_request`, as a pure function returning `Option<string>`.
- `Dedup`: the dictionary comprehension keyed by `full_name`.

## Model

| member | source | states |
|---|---|---|
| `Catalog.NextTable` | tweet-scheduler/tweet_scheduler.py:112 | a found table lies at or after the starting node and is a table |
| `Catalog.NextTableIsFirst` | tweet-scheduler/tweet_scheduler.py:112-114 | `find_next('table')` returns the first table anywhere later in the document; `None` means no later node is a table |
| `Catalog.RowTool` | tweet-scheduler/tweet_scheduler.py:123-124 | a row yields a tool exactly when it has at least four cells |
| `Catalog.ExtractTools` | tweet-scheduler/tweet_scheduler.py:91-157 | the nested heading/row loops compute exactly the extracted catalog `Extracted(nodes)` |
| `Catalog.AppendTableTools` | tweet-scheduler/tweet_scheduler.py:117-151 | the row loop appends, to the running list, the tools of every row after the header, in row order |
| `Catalog.RowsToolsSound` | tweet-scheduler/tweet_scheduler.py:122-124 | every tool of a row range comes from a row of that range with at least four cells |
| `Catalog.RowsToolsComplete` | tweet-scheduler/tweet_scheduler.py:122-124 | every row with at least four cells contributes its tool |
| `Catalog.SectionToolsSound` | tweet-scheduler/tweet_scheduler.py:103-124 | a tool credited to a node comes from a data row of the next table after a heading that is not skipped |
| `Catalog.SectionToolsComplete` | tweet-scheduler/tweet_scheduler.py:103-124 | every such row's tool is credited to that heading |
| `Catalog.ExtractedUpToSound` | tweet-scheduler/tweet_scheduler.py:103-151 | every tool found under the first k nodes comes from a heading among them |
| `Catalog.ExtractedUpToComplete` | tweet-scheduler/tweet_scheduler.py:103-151 | every tool from a heading among the first k nodes is found |
| `Catalog.ExtractedMembers` | tweet-scheduler/tweet_scheduler.py:91-157 | a tool is extracted if and only if some non-skipped heading, the next table after it, and a data row of that table with at least four cells produce it |
| `Catalog.ComesFromFields` | tweet-scheduler/tweet_scheduler.py:127-151 | category is the heading text; name, description and popularity are cells 1, 2 and 3 stripped; url is cell 2's link target, or none |
| `Catalog.ExtractedCategories` | tweet-scheduler/tweet_scheduler.py:105-109 | no tool is filed under "Table of Contents", "Contributors" or "Maintainer", and every category is the text of a heading |
| `Catalog.HeaderOnlyTableYieldsNothing` | tweet-scheduler/tweet_scheduler.py:118-119 | a table of at most one row yields no tools |
| `Catalog.ShortRowsSkipped` | tweet-scheduler/tweet_scheduler.py:124 | a row of fewer than four cells adds nothing and the scan goes on |
| `Catalog.ExtractedInDocumentOrder` | tweet-scheduler/tweet_scheduler.py:145 | extraction only appends: the tools of a shorter document prefix are a prefix of those of a longer one |
| `Catalog.HeadingWithoutTableBorrowsNextTable` | tweet-scheduler/tweet_scheduler.py:112 | a heading with no table of its own claims the following section's table, so those rows appear under both headings |
| `Rotation.Untweeted` | tweet-scheduler/tweet_scheduler.py:174-177 | the pool holds exactly the catalog tools whose name is not in the history |
| `Rotation.SelectTool` | tweet-scheduler/tweet_scheduler.py:172-187 | the pick is a catalog tool, and an untweeted one whenever any tool is untweeted |
| `Rotation.SoleUntweetedIsForced` | tweet-scheduler/tweet_scheduler.py:177-181 | when exactly one tool is untweeted, it is the pick |
| `Rotation.Recorded` | tweet-scheduler/tweet_scheduler.py:255-256 | the name ends up in the list; a name already there leaves the list unchanged, otherwise it is appended at the end and nothing else changes; it stays duplicate-free |
| `Rotation.History.constructor` | tweet-scheduler/tweet_scheduler.py:165 | the default history: no last tweet and an empty, duplicate-free list |
| `Rotation.History.RecordSuccess` | tweet-scheduler/tweet_scheduler.py:253-258 | the list becomes `Recorded(old list, name)` and the stamp is set; duplicate-freedom is kept |
| `Rotation.Round` | tweet-scheduler/tweet_scheduler.py:245-258 | an admissible pick; the as-written tweet text `TweetText` for it; the history is updated after a successful post and unchanged after a failure; a duplicate-free history stays duplicate-free |
| `Rotation.HistoryAfter` | tweet-scheduler/tweet_scheduler.py:255-256 | the history after any run of successful rounds is duplicate-free |
| `Rotation.PigeonholeUntweeted` | tweet-scheduler/tweet_scheduler.py:177-179 | with distinct tool names, a history shorter than the catalog leaves some tool untweeted |
| `Rotation.RoundsPickNewNames` | tweet-scheduler/tweet_scheduler.py:177-181 | up to N rounds from the empty history pick distinct names, and the history lists them in order |
| `Rotation.PicksFromCatalog` | tweet-scheduler/tweet_scheduler.py:181 | every pick of every round is a catalog tool |
| `Rotation.RotationCoversCatalog` | tweet-scheduler/tweet_scheduler.py:165 | from the empty history, N successful rounds over N distinctly named tools tweet every tool exactly once |
| `Tweets.CloseOnLine` | tweet-scheduler/tweet_scheduler.py:197 | a found stop of the lazy `.*?` holds the closer, and no newline comes up to it |
| `Tweets.CloseOnLineIsFirst` | tweet-scheduler/tweet_scheduler.py:197 | the lazy `.*?` stops at the first closer; no stop means a newline comes before every closer |
| `Tweets.DropGroupsLeavesNoGroups` | tweet-scheduler/tweet_scheduler.py:197 | after the substitution no bracket or parenthesis group closed on its own line remains |
| `Tweets.DropGroupsFixesNoGroups` | tweet-scheduler/tweet_scheduler.py:197 | text without such groups is left unchanged |
| `Tweets.DropGroupsIdempotent` | tweet-scheduler/tweet_scheduler.py:197 | applying the substitution twice equals applying it once |
| `Tweets.Shorten` | tweet-scheduler/tweet_scheduler.py:200-202 | a description that fits is unchanged; a longer one is its first max-3 characters plus "...", exactly max long |
| `Tweets.ShortenWithoutRoom` | tweet-scheduler/tweet_scheduler.py:202 | with max below 3 the negative slice index drops characters from the end, and the result exceeds max |
| `Tweets.TweetDescription` | tweet-scheduler/tweet_scheduler.py:195-202 | the description fits its computed room whenever that room is at least 3 |
| `Tweets.LinkLine` | tweet-scheduler/tweet_scheduler.py:207-208 | the link line is empty exactly when the url is missing or empty, and otherwise is the url followed by a blank line |
| `Tweets.Assemble` | tweet-scheduler/tweet_scheduler.py:189-213 | the tweet text (`TweetText` is `Assemble` of the header, the description and the link line) starts with the header, holds the description right after it followed by the blank line, and ends with the link line and the hashtags; its length is the sum of the parts plus the blank line |
| `Tweets.ShortenedTweetOverflows` | tweet-scheduler/tweet_scheduler.py:200 | a shortened description makes the tweet 292 characters plus the link line |
| `Tweets.FittedDescription` | tweet-scheduler/tweet_scheduler.py:200-202 | the corrected description fits the room left after the header, blank line, link line and hashtags |
| `Tweets.FittedTweetFits` | tweet-scheduler/tweet_scheduler.py:200 | the corrected tweet is at most 280 characters, and a description that fits is posted unchanged |
| `Crawler.AnyInMeansSomeTerm` | scripts/github_crawler.py:91-92 | `any(term in content ...)` holds exactly when some term occurs |
| `Crawler.GateIsConjunctive` | scripts/github_crawler.py:79-94 | the gate passes if and only if a Docker term and an AI/ML term both occur in the lower-cased name, description and topics |
| `Crawler.ContainerPassesGate` | scripts/github_crawler.py:81-82 | any text containing "container" passes both halves, since "container" contains "ai" |
| `Crawler.Score` | scripts/github_crawler.py:104 | a score is at most the number of keywords, and zero exactly when no keyword occurs |
| `Crawler.ScoreCountsPresentKeywords` | scripts/github_crawler.py:104 | over distinct keywords, the score is the number of keywords present, not of occurrences |
| `Crawler.FirstBestIsUnique` | scripts/github_crawler.py:107-108 | the first category with the top score is unique, so the category is a function of the text |
| `Crawler.DetermineCategory` | scripts/github_crawler.py:96-109 | default when nothing scores; otherwise the slug of the first category with the maximal, positive score |
| `Crawler.DefaultIsConfigured` | scripts/github_crawler.py:27 | the default slug is one of the configured categories |
| `Crawler.DashesToTitle` | scripts/github_crawler.py:218 | same length; dashes become spaces; each character is title-cased by its position after a non-letter |
| `Crawler.TypeLabel` | scripts/github_crawler.py:113-115 | "Blog" exactly when the lower-cased name contains "blog" or "article", else "Project" |
| `Crawler.ShortDescription` | scripts/github_crawler.py:118-120 | over 100 characters: the first 97 plus "...", exactly 100 long; otherwise unchanged |
| `Crawler.FormatEntry` | scripts/github_crawler.py:111-122 | the row starts with the title-cased name, holds the description in its slot, and ends with the label and the link |
| `Splice.InsertionPoint` | scripts/github_crawler.py:138-147 | none exactly when the heading is absent; otherwise at or after the heading, at a blank line or at the end |
| `Splice.Splice` | scripts/github_crawler.py:137-154 | failure exactly when the heading is absent; otherwise prefix, newline plus entry, and suffix, byte for byte |
| `Splice.SpliceRoundTrip` | scripts/github_crawler.py:150-154 | deleting the inserted newline and entry gives back the original document |
| `Splice.InsertionAtFirstBlankLineAfterTable` | scripts/github_crawler.py:144-145 | the insertion point is the first blank line after the first "\|" following the heading |
| `Splice.NoTableAppendsAtEnd` | scripts/github_crawler.py:144-147 | with no "\|" after the heading, the row is appended at the end of the document |
| `Dedup.IndexOfName` | scripts/github_crawler.py:208 | the key lookup finds the entry with that full name, or reports that none has it |
| `Dedup.DedupProperties` | scripts/github_crawler.py:208 | one repository per full name; every input name is represented; each kept repository is the last one seen under its name |
| `Dedup.DedupKeepsDistinct` | scripts/github_crawler.py:208 | input already free of duplicate names passes through unchanged |
| `Dedup.DedupIdempotent` | scripts/github_crawler.py:208 | removing duplicates twice equals removing them once |
| `Strings.Find` | scripts/github_crawler.py:139 | `str.find`: the first occurrence at or after the (clamped) start, or -1 when there is none |
| `Strings.StripCutsOnlySpace` | tweet-scheduler/tweet_scheduler.py:127 | `strip` removes only leading and trailing whitespace, and the result neither starts nor ends with whitespace |
| `Strings.TitleIsPointwise` | scripts/github_crawler.py:117 | `title` upper-cases a letter that follows a non-letter and lower-cases the other letters |

## Left out

- Network and credentials are not modelled: the Twitter client, GitHub searches, repository reads, branch creation, file update and pull request creation. A post's outcome is the `posted` parameter of `Rotation.Round`, and the clock reading is its `now` parameter.
- Markdown-to-HTML conversion and the BeautifulSoup queries are not modelled. The README arrives as a sequence of `Heading`/`Table` nodes. A row holds only its `td` cells, so a header row of `th` cells has none; a cell holds its text and its first link's `href`.
- The JSON history file is not modelled beyond the default value; loading and saving are I/O.
- Logging, argument parsing, `time.sleep`, the endless scheduler loop and the random delays between pull requests are not modelled. One loop pass is `Rotation.Round`.
- Rotation.SelectTool: `random.choice` is an arbitrary pick constrained by the postcondition; no distribution is modelled.
- Case mapping, whitespace and title-casing are ASCII only; the Unicode tables of Python's `str` are not modelled.
- The regular expression is modelled only for its own pattern, not as a general regex engine.
- `scripts/github_crawler_part2.py` is not part of this model; it repeats the crawler's driver loop and calls a function it does not define.
- The `datetime.timedelta` call in the search date filter is I/O-path code and is not modelled.
- The repository's `updated_at` field is carried by nothing below and is dropped.
- Dedup.DedupProperties: the order of the result (names in order of first appearance) is built in but not stated as a lemma.
- Crawler.DetermineCategory: Python takes two `max` calls over the score dictionary; the model keeps one pass that replaces the leader only on a strictly greater score, which picks the same first maximum.
- Tweets.Assemble: no claim that the as-written tweet is at most 280 characters, because it is not (see Findings).
- `main`'s counting loop over processed repositories (`added_count`) is driver code and is not modelled.

## Findings

| source | as written | input that shows it | evidently intended | confidence | as-written member | corrected member |
|---|---|---|---|---|---|---|
| tweet-scheduler/tweet_scheduler.py:200 | the description room is 280 minus the header minus 30, but the blank line and hashtags after it take 42 characters, plus the link line | any tool whose stripped description is longer than its room (e.g. a 300-character description and no url): the tweet is 292 characters | the finished tweet fits the 280-character limit | high, not executed | `Tweets.ShortenedTweetOverflows` | `Tweets.FittedTweetFits` |

The corrected description room counts the blank line, the link line and the
hashtags (`Tweets.FittedRoom`); `Tweets.FittedTweetText` lays the text out as
before with that room. `Rotation.Round` models the scheduler as it runs and
posts the as-written `Tweets.TweetText`.
