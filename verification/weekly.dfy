/**
 The weekly job: the PMID store is copied into today's file and read back,
 every id is looked up on Altmetric, the leaderboard picks the week's
 article, and the second tweet of the thread lists the channels that
 mentioned it. Each step can end the job; the files it has written by then
 stay written.
 */
module Weekly {
  import opened Text
  import opened Seqs
  import opened Altmetric
  import opened Leaderboard
  import PmidStore

  const Fire: string := "\U{1F525}"
  const ThreadMark: string := "\U{1F9F5}"

  /** The last line of the second tweet, which has no terminator. */
  const Footer: string := "(2/3 " + ThreadMark + ")"

  /** The prose of the second tweet before the score. */
  const Intro: string := "We used the @Altmetric " + "Attention Score to " + "select the article "
    + "with the highest " + "online activity. " + "This article's total " + "score was "

  /** The prose after the score. */
  const Mentioned: string := " and was mentioned by:"

  lemma IntroIsOneLine()
    ensures '\n' !in Intro
  {
    assert '\n' !in "We used the @Altmetric ";
    assert '\n' !in "Attention Score to ";
    assert '\n' !in "select the article ";
    assert '\n' !in "with the highest ";
    assert '\n' !in "online activity. ";
    assert '\n' !in "This article's total ";
    assert '\n' !in "score was ";
  }

  lemma ProseIsOneLine()
    ensures '\n' !in Intro && '\n' !in Mentioned && '\n' !in Fire
  {
    IntroIsOneLine();
  }

  /** The first line of the second tweet, carrying the score. */
  function HeaderLine(score: int): (h: string)
    ensures IsLine(h)
  {
    var body := Intro + Fire + IntString(score) + Fire + Mentioned;
    ProseIsOneLine();
    assert (body + "\n")[..|body|] == body;
    body + "\n"
  }

  /** The line for one channel: `"<count> <name>\n"` when the count is
      present, nothing otherwise. */
  function ChannelLine(count: Option<int>, name: string): (ls: seq<string>)
    requires '\n' !in name
    ensures |ls| == (if count.Some? then 1 else 0)
    ensures forall i :: 0 <= i < |ls| ==> IsLine(ls[i])
  {
    match count
    case None => []
    case Some(n) =>
      var body := IntString(n) + " " + name;
      assert (body + "\n")[..|body|] == body;
      [body + "\n"]
  }

  /** The channel lines, in the fixed order Twitter, Facebook, news media,
      Wikipedia, blogs. */
  function ChannelLines(c: Counts): (ls: seq<string>)
  {
    ChannelLine(c.tweeters, "Twitter users")
      + ChannelLine(c.fbwalls, "Facebook users")
      + ChannelLine(c.msm, "News Media outlets")
      + ChannelLine(c.wikipedia, "Wikipedia pages")
      + ChannelLine(c.feeds, "Blogs")
  }

  /** How many channels the response mentions. */
  function Present(c: Counts): nat {
    (if c.tweeters.Some? then 1 else 0) + (if c.fbwalls.Some? then 1 else 0)
      + (if c.msm.Some? then 1 else 0) + (if c.wikipedia.Some? then 1 else 0)
      + (if c.feeds.Some? then 1 else 0)
  }

  /** One line per present channel, each a proper line. */
  lemma ChannelLinesShape(c: Counts)
    ensures |ChannelLines(c)| == Present(c)
    ensures forall i :: 0 <= i < |ChannelLines(c)| ==> IsLine(ChannelLines(c)[i])
  {
  }

  /** The second tweet of the thread. */
  function SecondTweet(score: int, c: Counts): string {
    HeaderLine(score) + Join(ChannelLines(c)) + Footer
  }

  /** Read line by line, the second tweet is the header, one line per present
      channel in the fixed order, and the footer: an absent count adds no
      line and disturbs no other. */
  lemma SecondTweetLines(score: int, c: Counts)
    ensures Lines(SecondTweet(score, c)) == [HeaderLine(score)] + ChannelLines(c) + [Footer]
    ensures |Lines(SecondTweet(score, c))| == 2 + Present(c)
  {
    ChannelLinesShape(c);
    assert '\n' !in Footer;
    LinesOfParts(HeaderLine(score), ChannelLines(c), Footer);
  }

  /** The week's highlight: the chosen row, the PubMed link of the first
      tweet, and the second tweet. */
  datatype Highlight = Highlight(row: Row, link: string, second: string)

  /** The files after the job, and the highlight when the job got that far. */
  datatype JobResult = JobResult(copy: string, board: Option<seq<Row>>, highlight: Option<Highlight>)

  /** The week's table: the ids read back from today's copy, each looked up;
      `None` when the read or the search fails. */
  function WeekRows(mainDb: string, copy: string, service: (nat, string) -> Lookup, today: string): Option<seq<Row>> {
    match MainFileToList(mainDb, copy).ids
    case None => None
    case Some(ids) => AltmetricSearch(ids, service, today)
  }

  /** The job on a Sunday: `mainDb` is the PMID store, `copy` today's copy
      file, `board` the leaderboard file (`None` when absent). The read of the
      copy fails without a data line, the search fails when a lookup raises,
      the selection fails without a candidate; in each case the job stops
      with the copy already written and the leaderboard as it was. */
  function WeeklyJob(mainDb: string, copy: string, service: (nat, string) -> Lookup, today: string,
                     board: Option<seq<Row>>): (r: JobResult)
    ensures r.copy == copy + mainDb
    ensures r.highlight.None? ==> r.board == board
  {
    var copy' := MainFileToList(mainDb, copy).copy;
    match WeekRows(mainDb, copy, service, today)
    case None => JobResult(copy', board, None)
    case Some(rows) =>
      match HighestScore(rows, board)
      case None => JobResult(copy', board, None)
      case Some(sel) =>
        var h := Highlight(sel.row, PmidStore.UrlResolver(sel.row.pmid), SecondTweet(sel.row.score, sel.row.counts));
        JobResult(copy', Some(sel.board), Some(h))
  }

  /** How a highlight comes about: the week's table was built and the
      leaderboard chose from it. */
  lemma WeeklyJobUnfold(mainDb: string, copy: string, service: (nat, string) -> Lookup, today: string,
                        board: Option<seq<Row>>)
    ensures var r := WeeklyJob(mainDb, copy, service, today, board);
      var rows := WeekRows(mainDb, copy, service, today);
      r.highlight.Some? ==>
        && rows.Some?
        && HighestScore(rows.value, board).Some?
        && r.highlight.value.row == HighestScore(rows.value, board).value.row
        && r.board == Some(HighestScore(rows.value, board).value.board)
        && r.highlight.value.link == PmidStore.UrlResolver(r.highlight.value.row.pmid)
        && r.highlight.value.second == SecondTweet(r.highlight.value.row.score, r.highlight.value.row.counts)
  {
  }

  /** The thread is about the highlighted article: the link ends in its PMID,
      and the second tweet, read line by line, is its score line, one line per
      channel its response mentions, and the footer. */
  lemma WeeklyJobHighlight(mainDb: string, copy: string, service: (nat, string) -> Lookup, today: string,
                           board: Option<seq<Row>>)
    ensures var r := WeeklyJob(mainDb, copy, service, today, board);
      r.highlight.Some? ==>
        var h := r.highlight.value;
        && h.link[|PmidStore.PubmedPrefix|..] == h.row.pmid
        && Lines(h.second) == [HeaderLine(h.row.score)] + ChannelLines(h.row.counts) + [Footer]
        && |Lines(h.second)| == 2 + Present(h.row.counts)
  {
    var r := WeeklyJob(mainDb, copy, service, today, board);
    if r.highlight.Some? {
      WeeklyJobUnfold(mainDb, copy, service, today, board);
      SecondTweetLines(r.highlight.value.row.score, r.highlight.value.row.counts);
    }
  }

  /** The highlighted article is a row of the week's table that was not on the
      board, and the board gains exactly that row, after the old rows. */
  lemma WeeklyJobChoice(mainDb: string, copy: string, service: (nat, string) -> Lookup, today: string,
                        board: Option<seq<Row>>)
    ensures var r := WeeklyJob(mainDb, copy, service, today, board);
      var old_ := if board.None? then [] else board.value;
      r.highlight.Some? ==>
        var row := r.highlight.value.row;
        && WeekRows(mainDb, copy, service, today).Some?
        && row in WeekRows(mainDb, copy, service, today).value
        && !Excluded(board, row)
        && r.board.Some? && |r.board.value| == |old_| + 1
        && r.board.value[..|old_|] == old_ && r.board.value[|old_|] == row
  {
    var r := WeeklyJob(mainDb, copy, service, today, board);
    if r.highlight.Some? {
      WeeklyJobUnfold(mainDb, copy, service, today, board);
      var rows := WeekRows(mainDb, copy, service, today).value;
      var sel := HighestScore(rows, board).value;
      HighestScoreChoice(rows, board);
      HighestScoreAppends(rows, board);
      assert sel.row in rows;
    }
  }

  /** Running the job again the same day reads the store's ids twice, but the
      board never repeats a PMID: the second run cannot pick the first run's
      article again. */
  lemma WeeklyJobNeverRepeats(mainDb: string, copy: string, service: (nat, string) -> Lookup, today: string,
                              board: Option<seq<Row>>)
    requires board.Some? ==> Distinct(BoardPmids(board.value))
    ensures var r := WeeklyJob(mainDb, copy, service, today, board);
      r.board.Some? ==> Distinct(BoardPmids(r.board.value))
  {
    var r := WeeklyJob(mainDb, copy, service, today, board);
    if r.highlight.Some? {
      WeeklyJobUnfold(mainDb, copy, service, today, board);
      HighestScoreKeepsBoardDistinct(WeekRows(mainDb, copy, service, today).value, board);
    }
  }
}
