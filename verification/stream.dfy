/**
 The hashtag listener: each status the stream delivers is classified, and
 only an original status from another account is retweeted. The checks run
 in a fixed order (retweet, quote, own account), and the pause that follows
 the handler is reached only by statuses that pass the first two checks.
 */
module Stream {
  import opened Seqs

  /** The parts of a streamed status the handler looks at: whether it carries
      a retweeted or a quoted status, and who wrote it. */
  datatype Status = Status(id: int, authorId: int, isRetweet: bool, isQuote: bool)

  /** How the handler classified a status. */
  datatype Verdict = ARetweet | AQuote | OwnTweet | Retweeted

  /** What the handler does to the outside world, in order. */
  datatype Effect = RetweetOf(id: int) | Pause

  datatype Handled = Handled(verdict: Verdict, effects: seq<Effect>)

  /** A status worth retweeting: original, not a quote, not the bot's own. */
  predicate Qualifies(s: Status, botId: int) {
    !s.isRetweet && !s.isQuote && s.authorId != botId
  }

  /** `on_status`, with `botId` the id the account's credentials report. */
  function OnStatus(s: Status, botId: int): (h: Handled)
    ensures h.verdict == Retweeted <==> Qualifies(s, botId)
    ensures h.effects == (if Qualifies(s, botId) then [RetweetOf(s.id)] else [])
      + (if !s.isRetweet && !s.isQuote then [Pause] else [])
  {
    if s.isRetweet then Handled(ARetweet, [])
    else if s.isQuote then Handled(AQuote, [])
    else if s.authorId == botId then Handled(OwnTweet, [Pause])
    else Handled(Retweeted, [RetweetOf(s.id), Pause])
  }

  /** The checks run in order: a status that is both a retweet and a quote
      counts as a retweet, and an own status that is a quote counts as a
      quote. */
  lemma CheckOrder(s: Status, botId: int)
    ensures s.isRetweet ==> OnStatus(s, botId).verdict == ARetweet
    ensures !s.isRetweet && s.isQuote ==> OnStatus(s, botId).verdict == AQuote
    ensures !s.isRetweet && !s.isQuote && s.authorId == botId ==> OnStatus(s, botId).verdict == OwnTweet
  {
  }

  /** The effects of handling the statuses in order. */
  function Listen(ss: seq<Status>, botId: int): seq<Effect>
    decreases |ss|
  {
    if ss == [] then []
    else Listen(ss[..|ss| - 1], botId) + OnStatus(ss[|ss| - 1], botId).effects
  }

  /** The ids retweeted in a trace, in order. */
  function RetweetIds(es: seq<Effect>): (ids: seq<int>)
    ensures |ids| <= |es|
    decreases |es|
  {
    if es == [] then []
    else RetweetIds(es[..|es| - 1]) + (if es[|es| - 1].RetweetOf? then [es[|es| - 1].id] else [])
  }

  /** The number of pauses in a trace. */
  function Pauses(es: seq<Effect>): nat
    decreases |es|
  {
    if es == [] then 0 else Pauses(es[..|es| - 1]) + (if es[|es| - 1] == Pause then 1 else 0)
  }

  lemma {:induction false} RetweetIdsAppend(a: seq<Effect>, b: seq<Effect>)
    ensures RetweetIds(a + b) == RetweetIds(a) + RetweetIds(b)
    ensures Pauses(a + b) == Pauses(a) + Pauses(b)
    decreases |b|
  {
    if b == [] {
      assert a + b == a;
    } else {
      RetweetIdsAppend(a, b[..|b| - 1]);
      assert (a + b)[..|a + b| - 1] == a + b[..|b| - 1];
      assert (a + b)[|a + b| - 1] == b[|b| - 1];
    }
  }

  /** Which statuses qualify. */
  function QualifyMask(ss: seq<Status>, botId: int): (m: seq<bool>)
    ensures |m| == |ss| && forall i :: 0 <= i < |ss| ==> (m[i] <==> Qualifies(ss[i], botId))
  {
    seq(|ss|, i requires 0 <= i < |ss| => Qualifies(ss[i], botId))
  }

  /** Which statuses reach the pause. */
  function PauseMask(ss: seq<Status>): (m: seq<bool>)
    ensures |m| == |ss| && forall i :: 0 <= i < |ss| ==> (m[i] <==> !ss[i].isRetweet && !ss[i].isQuote)
  {
    seq(|ss|, i requires 0 <= i < |ss| => !ss[i].isRetweet && !ss[i].isQuote)
  }

  /** The masks of a prefix are the prefixes of the masks. */
  lemma MasksOfPrefix(ss: seq<Status>, botId: int, n: nat)
    requires n <= |ss|
    ensures QualifyMask(ss, botId)[..n] == QualifyMask(ss[..n], botId)
    ensures PauseMask(ss)[..n] == PauseMask(ss[..n])
  {
    var pre := ss[..n];
    assert forall i :: 0 <= i < n ==> pre[i] == ss[i];
  }

  /** Handling one status adds its own retweet, if any, and its own pause. */
  lemma OnStatusCounts(s: Status, botId: int)
    ensures RetweetIds(OnStatus(s, botId).effects) == if Qualifies(s, botId) then [s.id] else []
    ensures Pauses(OnStatus(s, botId).effects) == if !s.isRetweet && !s.isQuote then 1 else 0
  {
    var es := OnStatus(s, botId).effects;
    if Qualifies(s, botId) {
      assert es == [RetweetOf(s.id), Pause];
      assert es[..1] == [RetweetOf(s.id)];
      assert es[..1][..0] == [];
      assert RetweetIds(es[..1]) == [s.id];
      assert RetweetIds(es) == [s.id];
      assert Pauses(es[..1]) == 0;
    } else if !s.isRetweet && !s.isQuote {
      assert es == [Pause];
      assert es[..0] == [];
    } else {
      assert es == [];
    }
  }

  /** The ids of the statuses, in arrival order. */
  function Ids(ss: seq<Status>): (ids: seq<int>)
    ensures |ids| == |ss| && forall i :: 0 <= i < |ss| ==> ids[i] == ss[i].id
  {
    seq(|ss|, i requires 0 <= i < |ss| => ss[i].id)
  }

  /** Over a whole stream, the retweets are exactly the qualifying statuses,
      each retweeted once, by its own id, in arrival order. */
  lemma {:induction false} ListenRetweetsExactly(ss: seq<Status>, botId: int)
    ensures Gathers(RetweetIds(Listen(ss, botId)), Ids(ss), Positions(QualifyMask(ss, botId)))
    decreases |ss|
  {
    if ss != [] {
      var n := |ss| - 1;
      var pre := ss[..n];
      var keep := Qualifies(ss[n], botId);
      var ids0, pos0 := RetweetIds(Listen(pre, botId)), Positions(QualifyMask(pre, botId));
      ListenRetweetsExactly(pre, botId);
      assert RetweetIds(Listen(ss, botId)) == ids0 + (if keep then [ss[n].id] else []) by {
        RetweetIdsAppend(Listen(pre, botId), OnStatus(ss[n], botId).effects);
        OnStatusCounts(ss[n], botId);
      }
      assert Positions(QualifyMask(ss, botId)) == pos0 + (if keep then [n] else []) by {
        MasksOfPrefix(ss, botId, n);
      }
      assert Ids(ss)[..n] == Ids(pre);
      GathersSnoc(ids0, Ids(ss), pos0, keep);
    }
  }

  /** One pause per status that is neither a retweet nor a quote. */
  lemma {:induction false} ListenPauses(ss: seq<Status>, botId: int)
    ensures Pauses(Listen(ss, botId)) == |Positions(PauseMask(ss))|
    decreases |ss|
  {
    if ss != [] {
      var n := |ss| - 1;
      var pre := ss[..n];
      var pass := !ss[n].isRetweet && !ss[n].isQuote;
      ListenPauses(pre, botId);
      assert Pauses(Listen(ss, botId)) == Pauses(Listen(pre, botId)) + (if pass then 1 else 0) by {
        RetweetIdsAppend(Listen(pre, botId), OnStatus(ss[n], botId).effects);
        OnStatusCounts(ss[n], botId);
      }
      assert |Positions(PauseMask(ss))| == |Positions(PauseMask(pre))| + (if pass then 1 else 0) by {
        MasksOfPrefix(ss, botId, n);
      }
    }
  }

  /** Neither the bot's own statuses nor retweets nor quotes are ever
      retweeted: every retweeted id belongs to a qualifying status. */
  lemma NothingElseRetweeted(ss: seq<Status>, botId: int)
    ensures forall id :: id in RetweetIds(Listen(ss, botId)) ==>
      exists i :: 0 <= i < |ss| && ss[i].id == id && Qualifies(ss[i], botId)
  {
    ListenRetweetsExactly(ss, botId);
    PositionsSound(QualifyMask(ss, botId));
    var pos := Positions(QualifyMask(ss, botId));
    var ids := RetweetIds(Listen(ss, botId));
    forall id | id in ids
      ensures exists i :: 0 <= i < |ss| && ss[i].id == id && Qualifies(ss[i], botId)
    {
      var k :| 0 <= k < |ids| && ids[k] == id;
      assert ss[pos[k]].id == id;
    }
  }
}
