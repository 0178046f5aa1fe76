/**
 The PubMed half of the bot: collecting search results into an ordered
 dictionary keyed by PMID, then the announce loop, which records every
 unseen PMID in the store BEFORE it attempts the tweet. The search service
 and Twitter are outside the model: the search arrives as a sequence of
 summary records, and each tweet attempt's outcome (posted, or an exception
 that the loop swallows) is an input.
 */
module PubmedRun {
  import opened Text
  import opened Seqs
  import opened Titles
  import opened PmidStore
  import opened Tweets

  /** What the bot keeps of a search hit: `[title, authors, pub date]` under its PMID. */
  datatype Article = Article(pmid: string, title: string, authors: seq<string>, pubDate: string)

  /** One summary record as returned by the search service; any of the four
      fields the bot reads may be missing. */
  datatype Summary = Summary(id: Option<string>, title: Option<string>, authors: Option<seq<string>>, pubDate: Option<string>)

  /** All four fields present: the record does not raise a lookup error. */
  predicate Complete(s: Summary) {
    s.id.Some? && s.title.Some? && s.authors.Some? && s.pubDate.Some?
  }

  /** The dictionary entry of a complete record, its title with markup removed. */
  function ToArticle(s: Summary): Article
    requires Complete(s)
  {
    Article(s.id.value, StripTags(s.title.value), s.authors.value, s.pubDate.value)
  }

  /** The keys of an ordered dictionary, in insertion order: the PMIDs the
      announce loop walks. */
  function Keys(d: seq<Article>): (ks: seq<string>)
    ensures |ks| == |d| && forall i :: 0 <= i < |d| ==> ks[i] == d[i].pmid
  {
    seq(|d|, i requires 0 <= i < |d| => d[i].pmid)
  }

  /** The keys of a non-empty dictionary: its first key, then the others. */
  lemma KeysCons(d: seq<Article>)
    requires d != []
    ensures Keys(d) == [d[0].pmid] + Keys(d[1..])
  {
  }

  /** Position of key `k` in `d`, or `|d|` when it is absent. */
  function FindKey(d: seq<Article>, k: string): (i: nat)
    ensures i <= |d|
    ensures i < |d| ==> d[i].pmid == k
    ensures forall j :: 0 <= j < i ==> d[j].pmid != k
    decreases |d|
  {
    if d == [] then 0
    else if d[0].pmid == k then 0
    else 1 + FindKey(d[1..], k)
  }

  /** Dictionary assignment `d[a.pmid] = a`: an existing key keeps its place and
      takes the new value, a new key goes last. */
  function Put(d: seq<Article>, a: Article): (r: seq<Article>)
    requires Distinct(Keys(d))
    ensures Distinct(Keys(r))
    ensures a in r
    ensures forall x :: x in d && x.pmid != a.pmid ==> x in r
    ensures forall x :: x in r ==> x == a || x in d
    ensures a.pmid in Keys(d) ==> |r| == |d| && forall i :: 0 <= i < |d| ==> r[i] == if d[i].pmid == a.pmid then a else d[i]
    ensures a.pmid !in Keys(d) ==> r == d + [a]
  {
    var i := FindKey(d, a.pmid);
    if i < |d| then
      assert Keys(d[i := a]) == Keys(d);
      d[i := a]
    else
      assert Keys(d + [a]) == Keys(d) + [a.pmid];
      d + [a]
  }

  /** The dictionary after the first `n` records of the search were handled:
      an incomplete record is skipped, a complete one is assigned. */
  function CollectUpTo(sums: seq<Summary>, n: nat): (d: seq<Article>)
    requires n <= |sums|
    ensures Distinct(Keys(d))
    ensures |d| <= n
    decreases n
  {
    if n == 0 then []
    else
      var d := CollectUpTo(sums, n - 1);
      var s := sums[n - 1];
      if Complete(s) then Put(d, ToArticle(s)) else d
  }

  /** What the collected dictionary holds: only entries built from complete
      records; the id of every complete record; and, for a repeated id, the
      entry of its last complete record. */
  lemma CollectUpToContents(sums: seq<Summary>, n: nat)
    requires n <= |sums|
    ensures forall a :: a in CollectUpTo(sums, n) ==> exists i :: 0 <= i < n && Complete(sums[i]) && a == ToArticle(sums[i])
    ensures forall i :: 0 <= i < n && Complete(sums[i]) ==> sums[i].id.value in Keys(CollectUpTo(sums, n))
    ensures forall i :: 0 <= i < n && Complete(sums[i]) && LastWithId(sums, n, i) ==> ToArticle(sums[i]) in CollectUpTo(sums, n)
  {
    SearchSound(sums, n);
    SearchKeepsEveryId(sums, n);
    SearchLastWins(sums, n);
  }

  lemma {:induction false} SearchSound(sums: seq<Summary>, n: nat)
    requires n <= |sums|
    ensures forall a :: a in CollectUpTo(sums, n) ==> exists i :: 0 <= i < n && Complete(sums[i]) && a == ToArticle(sums[i])
    decreases n
  {
    if n > 0 {
      SearchSound(sums, n - 1);
      var d := CollectUpTo(sums, n - 1);
      var s := sums[n - 1];
      if Complete(s) {
        var a := ToArticle(s);
        var r := Put(d, a);
        forall x | x in r
          ensures exists i :: 0 <= i < n && Complete(sums[i]) && x == ToArticle(sums[i])
        {
          if x != a {
            assert x in d;
          }
        }
      }
    }
  }

  /** An entry's key is among the keys. */
  lemma KeyOfMember(d: seq<Article>, x: Article)
    requires x in d
    ensures x.pmid in Keys(d)
  {
    var j :| 0 <= j < |d| && d[j] == x;
    assert Keys(d)[j] == x.pmid;
  }

  lemma {:induction false} SearchKeepsEveryId(sums: seq<Summary>, n: nat)
    requires n <= |sums|
    ensures forall i :: 0 <= i < n && Complete(sums[i]) ==> sums[i].id.value in Keys(CollectUpTo(sums, n))
    decreases n
  {
    if n > 0 {
      SearchKeepsEveryId(sums, n - 1);
      var d := CollectUpTo(sums, n - 1);
      if Complete(sums[n - 1]) {
        PutKeepsKeys(d, ToArticle(sums[n - 1]));
      }
    }
  }

  /** Assignment loses no key and adds its own. */
  lemma PutKeepsKeys(d: seq<Article>, a: Article)
    requires Distinct(Keys(d))
    ensures forall k :: k in Keys(d) ==> k in Keys(Put(d, a))
    ensures a.pmid in Keys(Put(d, a))
  {
    var r := Put(d, a);
    KeyOfMember(r, a);
    forall k | k in Keys(d)
      ensures k in Keys(r)
    {
      var j :| 0 <= j < |d| && Keys(d)[j] == k;
      if k != a.pmid {
        assert d[j] in d;
        KeyOfMember(r, d[j]);
      }
    }
  }

  lemma {:induction false} SearchLastWins(sums: seq<Summary>, n: nat)
    requires n <= |sums|
    ensures forall i :: 0 <= i < n && Complete(sums[i]) && LastWithId(sums, n, i) ==> ToArticle(sums[i]) in CollectUpTo(sums, n)
    decreases n
  {
    if n > 0 {
      SearchLastWins(sums, n - 1);
      var d := CollectUpTo(sums, n - 1);
      var s := sums[n - 1];
      var r := CollectUpTo(sums, n);
      if Complete(s) {
        assert r == Put(d, ToArticle(s));
        forall i | 0 <= i < n && Complete(sums[i]) && LastWithId(sums, n, i)
          ensures ToArticle(sums[i]) in r
        {
          if i < n - 1 {
            assert sums[i].id != s.id;
            assert LastWithId(sums, n - 1, i);
          }
        }
      } else {
        forall i | 0 <= i < n && Complete(sums[i]) && LastWithId(sums, n, i)
          ensures ToArticle(sums[i]) in r
        {
          assert LastWithId(sums, n - 1, i);
        }
      }
    }
  }

  /** Record `i` is the last complete one, among the first `n`, with its id. */
  predicate LastWithId(sums: seq<Summary>, n: nat, i: nat)
    requires i < n <= |sums| && Complete(sums[i])
  {
    forall j :: i < j < n && Complete(sums[j]) ==> sums[j].id != sums[i].id
  }

  /** `pubmed_search` over the summaries the service returned. */
  function PubmedSearch(sums: seq<Summary>): seq<Article> {
    CollectUpTo(sums, |sums|)
  }

  /** Every kept title is free of `<...>` spans on a line. */
  lemma SearchTitlesClean(sums: seq<Summary>)
    ensures forall a :: a in PubmedSearch(sums) ==> NoTags(a.title)
  {
    CollectUpToContents(sums, |sums|);
    forall a | a in PubmedSearch(sums)
      ensures NoTags(a.title)
    {
      var i :| 0 <= i < |sums| && Complete(sums[i]) && a == ToArticle(sums[i]);
      StripTagsLeavesNoTags(sums[i].title.value);
    }
  }

  /** What Twitter did with one attempted tweet. */
  datatype TweetOutcome = Posted | Raised

  /** Observable steps of the announce loop, in order. */
  datatype Event =
    | Recorded(pmid: string)
    | Tweeted(pmid: string, text: string, outcome: TweetOutcome)
    | Paused

  datatype RunResult = RunResult(db: string, events: seq<Event>)

  /** One iteration: ask the store; for a new PMID, the store has already been
      written when the tweet is attempted, and only a posted tweet is followed
      by the pause. */
  function Visit(a: Article, outcome: TweetOutcome, db: string): RunResult {
    var tool := PmidTool(a.pmid, db);
    if tool.answer != AlreadyAnswer then
      var text := ComposeTweet(a.title, tool.answer);
      RunResult(tool.db, [Recorded(a.pmid), Tweeted(a.pmid, text, outcome)] + (if outcome == Posted then [Paused] else []))
    else
      RunResult(tool.db, [])
  }

  /** The announce loop over the fetched articles, in dictionary order, with the
      outcome Twitter gives each article's tweet if one is attempted. */
  function Run(articles: seq<Article>, outcomes: seq<TweetOutcome>, db: string): RunResult
    requires |outcomes| == |articles|
    decreases |articles|
  {
    if articles == [] then RunResult(db, [])
    else
      var step := Visit(articles[0], outcomes[0], db);
      var rest := Run(articles[1..], outcomes[1..], step.db);
      RunResult(rest.db, step.events + rest.events)
  }

  /** The loop only appends to the store: the old text is a prefix of the new. */
  lemma {:induction false} RunAppendOnly(articles: seq<Article>, outcomes: seq<TweetOutcome>, db: string)
    requires |outcomes| == |articles|
    ensures var r := Run(articles, outcomes, db);
      |db| <= |r.db| && r.db[..|db|] == db
    decreases |articles|
  {
    if articles != [] {
      var db1 := Visit(articles[0], outcomes[0], db).db;
      assert db1 == PmidTool(articles[0].pmid, db).db;
      var db2 := Run(articles[1..], outcomes[1..], db1).db;
      assert Run(articles, outcomes, db).db == db2;
      RunAppendOnly(articles[1..], outcomes[1..], db1);
      PrefixOfPrefix(db, db1, db2);
    }
  }

  lemma PrefixOfPrefix(a: string, b: string, c: string)
    requires |a| <= |b| && b[..|a|] == a
    requires |b| <= |c| && c[..|b|] == b
    ensures |a| <= |c| && c[..|a|] == a
  {
    assert c[..|a|] == c[..|b|][..|a|];
  }

  /** PMIDs of the attempted tweets, in order. */
  function TweetedPmids(events: seq<Event>): seq<string>
    decreases |events|
  {
    if events == [] then []
    else (if events[0].Tweeted? then [events[0].pmid] else []) + TweetedPmids(events[1..])
  }

  lemma {:induction false} TweetedPmidsAppend(a: seq<Event>, b: seq<Event>)
    ensures TweetedPmids(a + b) == TweetedPmids(a) + TweetedPmids(b)
    decreases |a|
  {
    if a == [] {
      assert a + b == b;
    } else {
      var head := if a[0].Tweeted? then [a[0].pmid] else [];
      assert (a + b)[0] == a[0];
      assert (a + b)[1..] == a[1..] + b;
      TweetedPmidsAppend(a[1..], b);
      assert TweetedPmids(a + b) == head + TweetedPmids(a[1..] + b);
      assert TweetedPmids(a) == head + TweetedPmids(a[1..]);
    }
  }

  /** The PMIDs the search service hands out are well formed. */
  predicate AllWellFormed(articles: seq<Article>) {
    forall a :: a in articles ==> WellFormedPmid(a.pmid)
  }

  /** One visit: a seen PMID changes nothing; an unseen one is written to the
      store first, then its tweet (title, hashtag, URL) is attempted, and a
      pause follows only a posted tweet. */
  lemma VisitFacts(a: Article, outcome: TweetOutcome, db: string)
    ensures var v := Visit(a, outcome, db);
      && (Seen(db, a.pmid) ==> v == RunResult(db, []))
      && (!Seen(db, a.pmid) ==>
            && v.db == db + a.pmid + "\n"
            && |v.events| >= 2
            && v.events[0] == Recorded(a.pmid)
            && v.events[1] == Tweeted(a.pmid, ComposeTweet(a.title, UrlResolver(a.pmid)), outcome)
            && (forall i :: 2 <= i < |v.events| ==> v.events[i] == Paused)
            && (outcome == Posted <==> |v.events| == 3)
            && TweetedPmids(v.events) == [a.pmid])
  {
    UrlIsNotAlready(a.pmid);
    var e := Visit(a, outcome, db).events;
    if !Seen(db, a.pmid) {
      assert TweetedPmids(e[1..]) == [a.pmid] + TweetedPmids(e[2..]);
      if outcome == Posted {
        assert TweetedPmids(e[2..]) == [] + TweetedPmids(e[3..]);
      }
    }
  }

  /** Every attempted tweet comes right after the record of its PMID. */
  predicate RecordedFirst(e: seq<Event>) {
    forall i :: 0 <= i < |e| && e[i].Tweeted? ==> i > 0 && e[i - 1] == Recorded(e[i].pmid)
  }

  lemma RecordedFirstAppend(a: seq<Event>, b: seq<Event>)
    requires RecordedFirst(a) && RecordedFirst(b)
    ensures RecordedFirst(a + b)
  {
    var e := a + b;
    forall i | 0 <= i < |e| && e[i].Tweeted?
      ensures i > 0 && e[i - 1] == Recorded(e[i].pmid)
    {
      if i < |a| {
        assert e[i] == a[i] && e[i - 1] == a[i - 1];
      } else {
        var j := i - |a|;
        assert e[i] == b[j] && b[j].Tweeted?;
        assert e[i - 1] == b[j - 1];
      }
    }
  }

  /** Within one visit, the tweet comes right after the record. */
  lemma VisitRecordsFirst(a: Article, outcome: TweetOutcome, db: string)
    ensures RecordedFirst(Visit(a, outcome, db).events)
  {
    var e := Visit(a, outcome, db).events;
    VisitFacts(a, outcome, db);
    if !Seen(db, a.pmid) {
      forall i | 0 <= i < |e| && e[i].Tweeted?
        ensures i > 0 && e[i - 1] == Recorded(e[i].pmid)
      {
        assert i != 0 by { assert e[0] == Recorded(a.pmid); }
        assert e[i] != Paused;
      }
    }
  }

  /** Order within a run: every attempted tweet comes right after the record
      of its PMID in the store. */
  lemma {:induction false} RunRecordsBeforeTweet(articles: seq<Article>, outcomes: seq<TweetOutcome>, db: string)
    requires |outcomes| == |articles|
    ensures RecordedFirst(Run(articles, outcomes, db).events)
    decreases |articles|
  {
    if articles != [] {
      var step := Visit(articles[0], outcomes[0], db);
      var rest := Run(articles[1..], outcomes[1..], step.db);
      RunRecordsBeforeTweet(articles[1..], outcomes[1..], step.db);
      VisitRecordsFirst(articles[0], outcomes[0], db);
      RecordedFirstAppend(step.events, rest.events);
      assert Run(articles, outcomes, db).events == step.events + rest.events;
    }
  }

  /** The store after one run, for a terminated store and well-formed PMIDs:
      it stays terminated and holds exactly its old ids and the fetched PMIDs
      (reloading it gives back every recorded id). */
  lemma {:induction false} RunStore(articles: seq<Article>, outcomes: seq<TweetOutcome>, db: string)
    requires |outcomes| == |articles| && Terminated(db) && AllWellFormed(articles)
    ensures var r := Run(articles, outcomes, db);
      && Terminated(r.db)
      && (forall q :: Seen(r.db, q) <==> Seen(db, q) || q in Keys(articles))
    decreases |articles|
  {
    if articles != [] {
      var a := articles[0];
      var db1 := PmidTool(a.pmid, db).db;
      assert AllWellFormed(articles[1..]) by {
        assert forall x :: x in articles[1..] ==> x in articles;
      }
      PmidToolGrows(a.pmid, db);
      RunStore(articles[1..], outcomes[1..], db1);
      var r := Run(articles, outcomes, db);
      assert r.db == Run(articles[1..], outcomes[1..], db1).db;
      KeysCons(articles);
      forall q
        ensures Seen(r.db, q) <==> Seen(db, q) || q in Keys(articles)
      {
        assert Seen(r.db, q) <==> Seen(db1, q) || q in Keys(articles[1..]);
      }
    }
  }

  /** The tweets of a run: the first article's, if its PMID was unseen, then
      those of the rest of the run on the store the first visit left. */
  lemma RunTweetedUnfold(articles: seq<Article>, outcomes: seq<TweetOutcome>, db: string)
    requires |outcomes| == |articles| && articles != []
    ensures var a := articles[0];
      TweetedPmids(Run(articles, outcomes, db).events)
      == (if Seen(db, a.pmid) then [] else [a.pmid])
         + TweetedPmids(Run(articles[1..], outcomes[1..], PmidTool(a.pmid, db).db).events)
  {
    var step := Visit(articles[0], outcomes[0], db);
    var rest := Run(articles[1..], outcomes[1..], step.db);
    VisitFacts(articles[0], outcomes[0], db);
    TweetedPmidsAppend(step.events, rest.events);
    assert Run(articles, outcomes, db).events == step.events + rest.events;
  }

  /** A tweeted PMID was fetched and was not in the store before the run. */
  lemma {:induction false} RunTweetsUnseen(articles: seq<Article>, outcomes: seq<TweetOutcome>, db: string)
    requires |outcomes| == |articles| && Terminated(db)
    ensures forall p :: p in TweetedPmids(Run(articles, outcomes, db).events) ==> !Seen(db, p) && p in Keys(articles)
    decreases |articles|
  {
    if articles != [] {
      var a := articles[0];
      var db1 := PmidTool(a.pmid, db).db;
      var t1 := TweetedPmids(Run(articles[1..], outcomes[1..], db1).events);
      RunTweetedUnfold(articles, outcomes, db);
      PmidToolKeeps(a.pmid, db);
      RunTweetsUnseen(articles[1..], outcomes[1..], db1);
      KeysCons(articles);
      forall p | p in TweetedPmids(Run(articles, outcomes, db).events)
        ensures !Seen(db, p) && p in Keys(articles)
      {
        if p in t1 {
          assert !Seen(db1, p);
        } else {
          assert p == a.pmid;
        }
      }
    }
  }

  /** Within one run each PMID is tweeted at most once. */
  lemma {:induction false} RunTweetsDistinct(articles: seq<Article>, outcomes: seq<TweetOutcome>, db: string)
    requires |outcomes| == |articles| && Terminated(db) && AllWellFormed(articles)
    ensures Distinct(TweetedPmids(Run(articles, outcomes, db).events))
    decreases |articles|
  {
    if articles != [] {
      var a := articles[0];
      var db1 := PmidTool(a.pmid, db).db;
      assert forall x :: x in articles[1..] ==> x in articles;
      PmidToolGrows(a.pmid, db);
      RunTweetedUnfold(articles, outcomes, db);
      RunTweetsUnseen(articles[1..], outcomes[1..], db1);
      RunTweetsDistinct(articles[1..], outcomes[1..], db1);
      var t1 := TweetedPmids(Run(articles[1..], outcomes[1..], db1).events);
      if !Seen(db, a.pmid) {
        assert Seen(db1, a.pmid);
        DistinctConcat([a.pmid], t1);
      }
    }
  }

  /** Every tweeted PMID is one of the keys the loop walked, whatever the store. */
  lemma {:induction false} RunTweetsFetched(articles: seq<Article>, outcomes: seq<TweetOutcome>, db: string)
    requires |outcomes| == |articles|
    ensures forall p :: p in TweetedPmids(Run(articles, outcomes, db).events) ==> p in Keys(articles)
    decreases |articles|
  {
    if articles != [] {
      var a := articles[0];
      RunTweetedUnfold(articles, outcomes, db);
      RunTweetsFetched(articles[1..], outcomes[1..], PmidTool(a.pmid, db).db);
      KeysCons(articles);
    }
  }

  /** Walking distinct keys, the loop tweets each PMID at most once, on any
      store: terminated or not, well-formed PMIDs or not. */
  lemma {:induction false} DistinctKeysTweetOnce(articles: seq<Article>, outcomes: seq<TweetOutcome>, db: string)
    requires |outcomes| == |articles| && Distinct(Keys(articles))
    ensures Distinct(TweetedPmids(Run(articles, outcomes, db).events))
    decreases |articles|
  {
    if articles != [] {
      var a := articles[0];
      var db1 := PmidTool(a.pmid, db).db;
      DistinctKeysTail(articles);
      RunTweetedUnfold(articles, outcomes, db);
      RunTweetsFetched(articles[1..], outcomes[1..], db1);
      DistinctKeysTweetOnce(articles[1..], outcomes[1..], db1);
      var t1 := TweetedPmids(Run(articles[1..], outcomes[1..], db1).events);
      if !Seen(db, a.pmid) {
        DistinctConcat([a.pmid], t1);
      }
    }
  }

  /** Dropping the first entry of a dictionary with distinct keys leaves
      distinct keys, none of them the first key. */
  lemma DistinctKeysTail(d: seq<Article>)
    requires d != [] && Distinct(Keys(d))
    ensures Distinct(Keys(d[1..])) && d[0].pmid !in Keys(d[1..])
  {
    var ks := Keys(d);
    assert forall i :: 0 <= i < |d| - 1 ==> Keys(d[1..])[i] == ks[i + 1];
  }

  /** The loop at the end of a search walks the dictionary `pubmed_search`
      built, so one run never tweets a PMID twice, on any store. */
  lemma SearchRunTweetsOnce(sums: seq<Summary>, outcomes: seq<TweetOutcome>, db: string)
    requires |outcomes| == |PubmedSearch(sums)|
    ensures Distinct(TweetedPmids(Run(PubmedSearch(sums), outcomes, db).events))
  {
    DistinctKeysTweetOnce(PubmedSearch(sums), outcomes, db);
  }

  /** Without a final newline in the store, a rerun announces again: on the
      store "1", a run fetching "2" tweets it and leaves "12\n", whose only id
      is "12", so the next run fetching "2" tweets it again. */
  lemma UnterminatedStoreRerunTweetsAgain(a: Article, o1: TweetOutcome, o2: TweetOutcome)
    requires a.pmid == "2"
    ensures Run([a], [o1], "1").db == "12\n"
    ensures TweetedPmids(Run([a], [o1], "1").events) == ["2"]
    ensures TweetedPmids(Run([a], [o2], "12\n").events) == ["2"]
  {
    UnterminatedLastLineIsLost();
    RunOfOne(a, o1, "1");
    RunOfOne(a, o2, "12\n");
  }

  /** A run over one article is that article's visit. */
  lemma RunOfOne(a: Article, o: TweetOutcome, db: string)
    ensures Run([a], [o], db).db == PmidTool(a.pmid, db).db
    ensures TweetedPmids(Run([a], [o], db).events) == if Seen(db, a.pmid) then [] else [a.pmid]
  {
    assert [a][1..] == [] && [o][1..] == [];
    RunTweetedUnfold([a], [o], db);
    var db1 := PmidTool(a.pmid, db).db;
    assert TweetedPmids(Run([], [], db1).events) == [];
  }

  /** A run cut short by an exception between `pmid_tool` and the tweet (the
      store's I/O or the prints, outside the `try`) has already recorded the
      PMID: no later run on that store ever tweets it. */
  lemma CutShortNeverTweeted(a: Article, db: string, later: seq<Article>, outcomes: seq<TweetOutcome>)
    requires Terminated(db) && WellFormedPmid(a.pmid) && |outcomes| == |later|
    ensures a.pmid !in TweetedPmids(Run(later, outcomes, PmidTool(a.pmid, db).db).events)
  {
    var db1 := PmidTool(a.pmid, db).db;
    PmidToolGrows(a.pmid, db);
    assert Seen(db1, a.pmid);
    RunTweetsUnseen(later, outcomes, db1);
  }

  /** Every fetched PMID that was not in the store is tweeted. */
  lemma {:induction false} RunTweetsEveryNew(articles: seq<Article>, outcomes: seq<TweetOutcome>, db: string)
    requires |outcomes| == |articles| && Terminated(db) && AllWellFormed(articles)
    ensures forall a :: a in articles && !Seen(db, a.pmid) ==> a.pmid in TweetedPmids(Run(articles, outcomes, db).events)
    decreases |articles|
  {
    if articles != [] {
      var a := articles[0];
      var db1 := PmidTool(a.pmid, db).db;
      PmidToolGrows(a.pmid, db);
      RunTweetedUnfold(articles, outcomes, db);
      RunTweetsEveryNew(articles[1..], outcomes[1..], db1);
      forall x | x in articles && !Seen(db, x.pmid)
        ensures x.pmid in TweetedPmids(Run(articles, outcomes, db).events)
      {
        if x.pmid != a.pmid {
          assert x in articles[1..];
        }
      }
    }
  }

  /** Across reruns: a PMID tweeted by one run is never tweeted by a later run
      on the store it left behind, whatever Twitter did the first time. */
  lemma RerunNeverRetweets(a1: seq<Article>, o1: seq<TweetOutcome>, a2: seq<Article>, o2: seq<TweetOutcome>, db: string)
    requires |o1| == |a1| && |o2| == |a2| && Terminated(db) && AllWellFormed(a1) && AllWellFormed(a2)
    ensures var r1 := Run(a1, o1, db);
      var r2 := Run(a2, o2, r1.db);
      Distinct(TweetedPmids(r1.events) + TweetedPmids(r2.events))
  {
    var r1 := Run(a1, o1, db);
    RunStore(a1, o1, db);
    RunTweetsUnseen(a1, o1, db);
    RunTweetsDistinct(a1, o1, db);
    RunTweetsUnseen(a2, o2, r1.db);
    RunTweetsDistinct(a2, o2, r1.db);
    DistinctConcat(TweetedPmids(r1.events), TweetedPmids(Run(a2, o2, r1.db).events));
  }

  /** Twitter's answers change only the pauses: the store written and the
      tweets attempted are the same whether each tweet was posted or raised. */
  lemma {:induction false} OutcomesOnlyDecidePauses(articles: seq<Article>, o1: seq<TweetOutcome>, o2: seq<TweetOutcome>, db: string)
    requires |o1| == |articles| && |o2| == |articles|
    ensures Run(articles, o1, db).db == Run(articles, o2, db).db
    ensures TweetedPmids(Run(articles, o1, db).events) == TweetedPmids(Run(articles, o2, db).events)
    decreases |articles|
  {
    if articles != [] {
      var s1 := Visit(articles[0], o1[0], db);
      var s2 := Visit(articles[0], o2[0], db);
      VisitFacts(articles[0], o1[0], db);
      VisitFacts(articles[0], o2[0], db);
      OutcomesOnlyDecidePauses(articles[1..], o1[1..], o2[1..], s1.db);
      var r1 := Run(articles[1..], o1[1..], s1.db);
      var r2 := Run(articles[1..], o2[1..], s2.db);
      TweetedPmidsAppend(s1.events, r1.events);
      TweetedPmidsAppend(s2.events, r2.events);
      assert Run(articles, o1, db).events == s1.events + r1.events;
      assert Run(articles, o2, db).events == s2.events + r2.events;
    }
  }
}
