# geripapers in Dafny

A model of the @GeriPapers Twitter bot and the properties it relies on. The bot has three scripts:

- **The PubMed announcer** (`pubmed.py`). It searches PubMed and collects the hits into a dictionary keyed by PMID. It strips markup from the titles. Then it walks the dictionary. For each PMID it asks `pmid_tool`, which checks the plain-text store `pmid_db.txt`. A known PMID gets the answer `"already"`. An unknown PMID is appended to the store and answered with its PubMed URL, and only then is a tweet composed and attempted. The tweet is the title, shortened to a 280-character budget, plus ` #geripapers ` and the URL.
- **The weekly highlight** (`geripapers_altmetric.py`).
  - It copies the store into a dated copy file and reads the ids back.
  - It looks up every id on Altmetric.
  - It drops the ids already on the leaderboard `highest_altmetric_papers.csv`.
  - It picks the first row with the highest score, appends that row to the leaderboard, and composes the thread's second tweet. That tweet lists the channels that mentioned the article.
- **The hashtag listener** (`hashtag_reteweet.py`). It retweets every streamed status that is neither a retweet, nor a quote, nor the bot's own. A pause follows every status that passes the first two checks.

The modules follow this structure.

| Module | Models |
|---|---|
| `Text` | Python's `str.isspace`/`rstrip`, line iteration over a text file (`for line in f`, terminators kept), and `str()` of an integer. |
| `Seqs` | Duplicate-free sequences, and `Positions`/`Gathers`: how an order-preserving filter is characterised. |
| `PmidStore` | `pmid_db.txt` and `pmid_tool` with its three inner functions. |
| `Titles` | `re.sub('<.*?>', '', title)`. |
| `Tweets` | `string_shortener` and the tweet composition of the main loop. |
| `PubmedRun` | `pubmed_search`'s dictionary and the announce loop. |
| `Altmetric` | `main_file_to_list` and `altmetric_search`. |
| `Leaderboard` | `highest_altemtric_score`. |
| `Weekly` | The weekly main block up to the second tweet. |
| `Stream` | `Listener.on_status` over a stream of statuses. |

Files are their text contents, a `string`. Writing to a file in append mode is concatenation.

External services are inputs to the model:
- the PubMed search is the sequence of summary records it returns;
- Twitter's answer to each attempted tweet is a `TweetOutcome`;
- Altmetric is a function from (call index, PMID) to a `Lookup`;
- the bot's own account id is a parameter `botId`.

## Model

| member | source | states |
|---|---|---|
| Text.RStrip | pubmed.py:76 | The result is a prefix of the line that has no trailing whitespace, and everything removed was whitespace in Python's `isspace` sense. |
| Text.RStripLine | pubmed.py:75-77 | For a PMID without trailing whitespace, the line `pmid + "\n"` reads back, after `rstrip`, as `pmid` itself. |
| Text.LinesAppend | pubmed.py:93-94 | Appending to a file that ends in a newline leaves its lines as they were and adds the new text's lines after them. |
| Text.NatStringRoundTrip | geripapers_altmetric.py:183-208 | The decimal text written for a score or a count reads back as the same number. |
| PmidStore.StoredIdsAreStrippedLines | pubmed.py:73-77 | The list `pmid_checker` builds has one entry per line of the file, and each entry is that line right-stripped. |
| PmidStore.StoredIdsAppend | pubmed.py:73-77 | Reading a terminated file followed by more text gives the first part's ids in place, followed by the rest's. |
| PmidStore.StoredIdsAfterRecord | pubmed.py:93-94 | For a well-formed PMID (no newline in it, no whitespace at its end), appending `pmid + "\n"` to a terminated store adds exactly the id `pmid` after the existing ids, and the store stays terminated. |
| PmidStore.Checker | pubmed.py:63-82 | The flag is true exactly when some line of the file, right-stripped, equals the PMID. The second component is then "NA"; otherwise it is the PMID itself, which is what the appender is given. |
| PmidStore.UrlNamesItsPmid | pubmed.py:53-61 | Two PMIDs get the same URL only when they are the same PMID, so each announced link names exactly one article. |
| PmidStore.PmidTool | pubmed.py:41-100 | The answer is "already" exactly when the PMID is stored, and then the file is untouched. Otherwise the answer is the PMID's URL and the file gains one line `pmid + "\n"`. In both cases the old file is a prefix of the new one. |
| PmidStore.UrlIsNotAlready | pubmed.py:96-100 | A URL answer can never equal "already", so the caller's test cannot mistake a new PMID for a known one. |
| PmidStore.PmidToolIdempotent | pubmed.py:96-100 | For a store ending in a newline and a PMID without whitespace at its end or a newline in it: a new PMID is recorded as one extra line and answered with its URL, and a second call with the same PMID answers "already" and writes nothing. |
| PmidStore.PmidToolGrows | pubmed.py:84-100 | For a store ending in a newline and a well-formed PMID: after a call, the stored ids are exactly the old ids plus the PMID, and the file still ends in a newline. |
| PmidStore.PmidToolKeeps | pubmed.py:84-100 | For any PMID, well-formed or not, a call on a store ending in a newline keeps every stored id and leaves the store ending in a newline. |
| PmidStore.StoredIdsHaveNoTrailingSpace | pubmed.py:75-77 | No stored id ends in whitespace. |
| PmidStore.TrailingSpaceNeverSeen | pubmed.py:76-78 | A PMID ending in whitespace is never found, so every call appends it again and answers with a URL. |
| PmidStore.UnterminatedLastLineIsLost | pubmed.py:93-94 | A store `"1"` without a final newline merges with the next record: after recording "2", the file holds the single id "12". |
| Titles.StripTags | pubmed.py:32 | The result is never longer than the title. |
| Titles.StripTagsLeavesNoTags | pubmed.py:32 | No `<` in the cleaned title is followed by a `>` on the same line, so no `<...>` span is left. |
| Titles.StripTagsIdentity | pubmed.py:32 | A title with no `<...>` span is left unchanged. |
| Titles.StripTagsIdempotent | pubmed.py:32 | Cleaning twice gives the same result as cleaning once. |
| Titles.StripLoneTag | pubmed.py:32 | A single tag `<a>` disappears completely. |
| Titles.StripLeadingTag | pubmed.py:32 | A leading tag is removed and the rest is cleaned as if it stood alone. |
| Titles.StripTagPair | pubmed.py:32 | `<a>w<b>` becomes `w`: the match is non-greedy, so the text between two tags is kept. |
| Titles.StripTagsPrefix | pubmed.py:32 | Text before the first `<` is kept verbatim. |
| Tweets.PyPrefix | pubmed.py:112 | `s[0:n]` is a prefix of `s`. Its length is `n` for `0 <= n <= len(s)`, and `len(s)+n` (at least 0) for negative `n`. |
| Tweets.Shorten | pubmed.py:103-114 | A string within the limit is returned unchanged. A longer one becomes a prefix of itself followed by "...", of length `maxSize + 3` when the limit is not negative. |
| Tweets.ShortenExamples | pubmed.py:111-114 | A 300-character title cut to 50 keeps its first 50 characters and gains "...". A 10-character title is unchanged. |
| Tweets.ComposeTweet | pubmed.py:153-159 | Every tweet ends with ` #geripapers <url>`. A title that fits within 280 characters together with that suffix is kept whole. |
| Tweets.ComposeTweetBound | pubmed.py:155-159 | When the suffix fits the budget, a tweet is at most 283 characters. A title that fits gives at most 280. A cut title gives exactly 283, because "..." is not counted in the budget. |
| Tweets.ComposeTweetKeepsTitlePrefix | pubmed.py:155-159 | A cut tweet is the title's first `280 - len(suffix)` characters, then "...", then the suffix. |
| Tweets.ComposeTweetOverlongUrl | pubmed.py:155-157 | A suffix longer than 280 characters makes the budget negative, and the tweet then exceeds 283 characters. |
| PubmedRun.FindKey | pubmed.py:32 | Returns the first position holding the key, or the dictionary's length when the key is absent. |
| PubmedRun.Put | pubmed.py:32-33 | Dictionary assignment. Keys stay unique. An existing key keeps its position and takes the new value. A new key is added last. No other entry changes. |
| PubmedRun.CollectUpTo | pubmed.py:26-37 | The collected dictionary has unique keys and at most one entry per summary handled. |
| PubmedRun.CollectUpToContents | pubmed.py:26-38 | Every entry comes from a complete summary. Every complete summary's id is a key. For a repeated id, the last complete summary's entry is the one kept. |
| PubmedRun.SearchSound | pubmed.py:31-35 | Every entry was built from a complete summary. Incomplete ones raise and are skipped. |
| PubmedRun.SearchKeepsEveryId | pubmed.py:31-33 | The id of every complete summary is a key of the dictionary. |
| PubmedRun.SearchLastWins | pubmed.py:32-33 | For a repeated id, the entry kept is the one built from its last complete summary. |
| PubmedRun.SearchTitlesClean | pubmed.py:32 | Every title in the search result is free of `<...>` spans. |
| PubmedRun.RunAppendOnly | pubmed.py:143-144 | The announce loop only appends: the store before the run is a prefix of the store after it. |
| PubmedRun.VisitFacts | pubmed.py:143-168 | A known PMID produces no event and no write. A new PMID is written to the store first, then its tweet (shortened title, hashtag, URL) is attempted. A pause follows only a tweet that was posted. |
| PubmedRun.VisitRecordsFirst | pubmed.py:144-163 | Within one iteration, the tweet attempt comes right after the record of its PMID. |
| PubmedRun.RunRecordsBeforeTweet | pubmed.py:143-168 | Over a whole run, every attempted tweet is immediately preceded by the store record of its PMID. |
| PubmedRun.RunStore | pubmed.py:143-144 | After a run on a terminated store, the store is terminated and holds exactly its old ids plus every fetched PMID. |
| PubmedRun.RunTweetedUnfold | pubmed.py:143-168 | The tweets of a run are the first article's tweet, present only if its PMID was unseen, followed by the tweets of the rest of the run on the updated store. |
| PubmedRun.RunTweetsUnseen | pubmed.py:143-168 | For a store ending in a newline, whatever the PMIDs: every tweeted PMID was fetched in this run and was not in the store before it. |
| PubmedRun.RunTweetsFetched | pubmed.py:143-154 | On any store, every tweeted PMID is one of the keys the loop walked. |
| PubmedRun.DistinctKeysTweetOnce | pubmed.py:143-168 | On any store, terminated or not, and for any PMIDs: a loop over distinct keys tweets no PMID twice within one run. |
| PubmedRun.SearchRunTweetsOnce | pubmed.py:141-168 | The loop walks the dictionary `pubmed_search` returns, whose keys are distinct, so one run never tweets a PMID twice, on any store. |
| PubmedRun.RunTweetsDistinct | pubmed.py:143-168 | For a store ending in a newline and well-formed PMIDs, even a list that repeated a PMID would get at most one tweet per PMID: the store alone also enforces at-most-once. |
| PubmedRun.RunTweetsEveryNew | pubmed.py:143-168 | For a store ending in a newline, well-formed PMIDs and a run that is not cut short: every fetched PMID that was not already stored gets a tweet attempt. |
| PubmedRun.RerunNeverRetweets | pubmed.py:143-168 | For a store ending in a newline and well-formed PMIDs: a second run on the store the first left behind never tweets a PMID the first run tweeted. This holds even when the first run's tweet raised. |
| PubmedRun.UnterminatedStoreRerunTweetsAgain | pubmed.py:143-154 | Without the final newline, reruns announce again: on the store "1", a run fetching "2" tweets it and leaves "12\n", and the next run fetching "2" tweets it again. |
| PubmedRun.CutShortNeverTweeted | pubmed.py:144-154 | For a store ending in a newline and a well-formed PMID: a run that an exception ends between `pmid_tool` and the `try` has already recorded the PMID, so no later run on that store ever tweets it, whatever the later PMIDs. The article is never announced. |
| PubmedRun.OutcomesOnlyDecidePauses | pubmed.py:163-168 | Whether each tweet posted or raised changes only the pauses: the final store and the PMIDs tweeted are the same. |
| Altmetric.NonBlank | geripapers_altmetric.py:22-23 | The ids read back number at most the lines, and none is empty. |
| Altmetric.NonBlankExact | geripapers_altmetric.py:22-25 | The ids read back are exactly the contents of the non-blank lines, without terminators, in file order: the k-th id is the k-th non-blank line. |
| Altmetric.MainFileToList | geripapers_altmetric.py:10-25 | The copy file becomes the old copy followed by the whole store. The read fails exactly when every line of the copy is blank. Otherwise the ids are the contents of the copy's non-blank lines, in file order, and there is at least one. |
| Altmetric.NoneBlankMeansEmpty | geripapers_altmetric.py:22 | The reader finds no data exactly when every line is blank. |
| Altmetric.MainFileToListAppends | geripapers_altmetric.py:18-25 | With terminated files, the ids read are the copy's earlier ids followed by the store's ids. A second run on the same day reads the store's ids twice. |
| Altmetric.LookupsUpTo | geripapers_altmetric.py:42-59 | The search fails exactly when some lookup raised something other than an HTTP error. Otherwise it holds at most one row per id, each dated today. |
| Altmetric.SearchKeepsFoundInOrder | geripapers_altmetric.py:42-63 | The table's k-th row is the dated response of the k-th lookup that found something, in the order of the ids. "Not found" and HTTP errors contribute nothing. |
| Leaderboard.CandidatesUpTo | geripapers_altmetric.py:91-102 | No candidate is a row whose PMID is on the board, and there are no more candidates than rows. |
| Leaderboard.CandidatesInOrder | geripapers_altmetric.py:102 | The filter keeps input order: the k-th candidate is the k-th row whose PMID is not on the board. |
| Leaderboard.CandidatesEmpty | geripapers_altmetric.py:102-106 | There is no candidate exactly when every row's PMID is on the board. |
| Leaderboard.NoBoardKeepsAll | geripapers_altmetric.py:91-92 | Without a board file, every row is a candidate. |
| Leaderboard.MaxScore | geripapers_altmetric.py:105 | The result is at least every candidate's score and equals some candidate's score. |
| Leaderboard.FirstWithScore | geripapers_altmetric.py:105-106 | The result is the first index whose score equals the given one. |
| Leaderboard.FirstMaxUnique | geripapers_altmetric.py:105-106 | There is only one "first row with the highest score", so the choice is deterministic. |
| Leaderboard.PickIndex | geripapers_altmetric.py:105-106 | The chosen index has the highest score, and every earlier candidate scores strictly less. |
| Leaderboard.HighestScore | geripapers_altmetric.py:68-120 | The selection fails exactly when every row's PMID is already on the board. A chosen row is never on the board. |
| Leaderboard.HighestScoreChoice | geripapers_altmetric.py:91-106 | The chosen row is one of the week's rows and is not on the board. It scores at least as much as every row not on the board, and strictly more than every such row before it. |
| Leaderboard.FirstMaxOfGathered | geripapers_altmetric.py:102-106 | The first maximum among the filtered candidates is the first maximum among the unfiltered rows not on the board. |
| Leaderboard.HighestScoreAppends | geripapers_altmetric.py:115-120 | The written board is the old board, unchanged and in order, followed by the chosen row. A new file holds only that row. |
| Leaderboard.HighestScoreKeepsBoardDistinct | geripapers_altmetric.py:95-120 | A board without repeated PMIDs still has none after the week's row is added. |
| Leaderboard.HighestScoreEdgeCases | geripapers_altmetric.py:91-106 | Without a board, a non-empty table always yields a choice and a one-row board. When every row is on the board, nothing is chosen. |
| Leaderboard.TieBreakExample | geripapers_altmetric.py:105-106 | With rows A and B both scoring 10 and no board, A is chosen and the board becomes `[A]`. |
| Weekly.HeaderLine | geripapers_altmetric.py:183 | The score line of the second tweet is a single line ending in its newline. |
| Weekly.ChannelLine | geripapers_altmetric.py:185-208 | A present count gives exactly one proper line and an absent count gives none. |
| Weekly.ChannelLinesShape | geripapers_altmetric.py:185-208 | There is one line per present channel, each a proper line. |
| Weekly.SecondTweetLines | geripapers_altmetric.py:183-210 | Read line by line, the second tweet is the score line, then one line per present channel in the fixed order, then the `(2/3 🧵)` footer. An absent count adds no line and disturbs no other. |
| Weekly.WeeklyJob | geripapers_altmetric.py:145-166 | The copy file always gains the whole store. A job that stops before a highlight leaves the board as it was. |
| Weekly.WeeklyJobHighlight | geripapers_altmetric.py:165-210 | The thread is about the highlighted article. Its link ends in that article's PMID. Its second tweet, read line by line, is that article's score line, one line per channel its response mentions, then the footer. |
| Weekly.WeeklyJobChoice | geripapers_altmetric.py:145-166 | The highlighted row is one of the week's rows and was not on the board. The board gains exactly that row, after the old rows. |
| Weekly.WeeklyJobNeverRepeats | geripapers_altmetric.py:145-147 | If the board had no repeated PMID before the job, it has none after the job. |
| Stream.OnStatus | hashtag_reteweet.py:12-33 | A status is retweeted exactly when it is not a retweet, not a quote and not the bot's own. A pause follows exactly the statuses that are neither retweets nor quotes. |
| Stream.CheckOrder | hashtag_reteweet.py:22-29 | The checks run in order. A retweet that is also a quote counts as a retweet, and an own quote counts as a quote. |
| Stream.RetweetIdsAppend | hashtag_reteweet.py:32-33 | The retweets and the pauses of two consecutive stretches of a stream add up. |
| Stream.OnStatusCounts | hashtag_reteweet.py:22-33 | Handling one status retweets its own id exactly when it qualifies, and pauses once exactly when it passes the first two checks. |
| Stream.ListenRetweetsExactly | hashtag_reteweet.py:22-33 | Over a stream, the retweeted ids are exactly the ids of the qualifying statuses, each once, in arrival order. |
| Stream.ListenPauses | hashtag_reteweet.py:25-33 | The number of pauses is the number of statuses that are neither retweets nor quotes. |
| Stream.NothingElseRetweeted | hashtag_reteweet.py:22-32 | Every retweeted id belongs to a qualifying status. Retweets, quotes and the bot's own statuses are never retweeted. |

## Left out

- `pythonanywhere_api.py` (scheduling of the scripts on the hosting service) is not part of this model.
- Network calls are replaced by inputs, and credentials and `config` are not modelled:
  - the Entrez search and summaries, the Altmetric client, the tweepy posts, the stream and `verify_credentials`;
  - the query string and the 300-article limit belong to the search service's side.
- `time.sleep` calls are modelled only as a `Paused` or `Pause` event, without durations. The 0.5-second sleep inside `pubmed_search` is not modelled at all.
- Console output (`print`, including the HTTP status messages of `altmetric_search`) is not modelled.
- The weekday gate of the weekly job (`weekday == 6`) is not modelled. `WeeklyJob` is the Sunday branch.
- The first and third tweets of the weekly thread and `pubmed_search_individual` are not modelled. They are fixed prose around fields that a second PubMed lookup returns. The link of the first tweet is modelled as `Highlight.link`.
- The thread's three `update_status` calls, and a thread posted only in part when one of them fails, are not modelled.
- pandas is modelled by what the code relies on:
  - `read_csv(..., skip_blank_lines=True, header=None)` skips lines of spaces and tabs and fails on a file with no data line;
  - `json_normalize` and the missing-column and NaN checks become `Option` counts;
  - `isin` on PMID strings becomes list membership.

  CSV quoting, dtype inference (a PMID column read back as integers) and the leaderboard's column layout are not modelled.
- Scores and counts are modelled as integers. The float values Altmetric returns and Python's `round` are not modelled.
- Universal-newline translation on read (`\r\n` and `\r` read as `\n`) is not modelled. Files are assumed to use `\n`.
- Text encoding is not modelled: the title's `.encode("utf-8").decode("utf-8")` round trip is the identity on strings. Twitter's own length rules (URLs counted as 23 characters, weighted code points) are not modelled either. Lengths are Python's `len`.
- Reconnection and error handling inside the tweepy stream are not modelled. A failing `api.retweet` is not modelled either.
- PmidStore.Appender: stated only through `PmidTool` and `StoredIdsAfterRecord`, because on its own it is plain concatenation.
- PmidStore.PmidToolIdempotent: stated for a store whose last line ends in a newline, as the bot's own appends keep it. `UnterminatedLastLineIsLost` shows what happens otherwise.
- PubmedRun.RunStore: stated for a store ending in a newline and PMIDs without trailing whitespace or newlines, which is what the search service hands out.
- PubmedRun.Run: its contract is carried by the `Run*` lemmas, not by an ensures of its own.
- Durability and locking are not in the code, and the model follows the code.
  - The store is appended through a `with` block, which flushes on close, but nothing calls `fsync`.
  - Nothing locks the store, so the model proves only single-writer behaviour.
  - A missing `pmid_db.txt` makes `open` raise at pubmed.py:74. That happens after the search and before any tweet, so the run fails early; the model takes the store as given and does not model that failure.
  - An empty or truncated store is read without complaint as holding fewer ids, and every fetched PMID missing from it is announced again. That is `PmidTool` on the shorter text.
- A found Altmetric response that lacks `pmid`, `score` or `title` makes the print at geripapers_altmetric.py:49 raise `KeyError`. That is not an `AltmetricHTTPException`, so it ends the whole search. The model covers it only as a lookup answered `Raised`; the fields of `Response` are always present.
- Aborts outside the `try` blocks are not modelled as outcomes:
  - In `pubmed_search`, a failing `Entrez.esummary`, `Entrez.read` or `my_record[0]` (pubmed.py:28-30) ends the search and the whole run. It does not skip one record. `CollectUpTo` models only the skip inside the `try` at pubmed.py:31-35.
  - In the announce loop, an exception in `pmid_tool`'s file I/O (pubmed.py:144) or in the prints (pubmed.py:146-151) ends the loop. If it comes after the record, that PMID is stored but never tweeted. `Run` models only runs that finish; `CutShortNeverTweeted` states the consequence of a cut-short run.
- PubmedRun.RunTweetsUnseen: stated for a store ending in a newline. `UnterminatedLastLineIsLost` shows that an unterminated store can lose a stored id.
- PubmedRun.CutShortNeverTweeted: stated for a store ending in a newline and a well-formed PMID. A PMID with trailing whitespace is never found in the store (`TrailingSpaceNeverSeen`), and an unterminated store merges the record into its last line (`UnterminatedLastLineIsLost`); in both cases the article can be tweeted later.
- PmidStore.StoredIdsAfterRecord: stated for a well-formed PMID. A PMID with trailing whitespace is stored stripped, and one holding a newline is stored as several ids.
- PubmedRun.RunTweetsDistinct: stated for a store ending in a newline and well-formed PMIDs, because it also covers a list with repeated PMIDs, which the loop never receives. For the lists the loop does receive, `DistinctKeysTweetOnce` and `SearchRunTweetsOnce` state at-most-once on any store.
- PubmedRun.RunTweetsEveryNew: stated for a store ending in a newline and well-formed PMIDs, and for a run that is not cut short by an exception outside the `try`.
- PubmedRun.RerunNeverRetweets: stated for a store ending in a newline and well-formed PMIDs. `UnterminatedStoreRerunTweetsAgain` shows that on an unterminated store a rerun tweets a PMID again.
