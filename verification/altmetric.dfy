/**
 The input side of the weekly highlight: the dated copy of the PMID store
 that the job reads its ids from, and the per-id Altmetric lookups gathered
 into one table of rows. The Altmetric service is outside the model: its
 answer to the i-th lookup is given as a function of the call's position and
 the id asked for.
 */
module Altmetric {
  import opened Text
  import opened Seqs

  /** Per-channel mention counts; a channel the response does not mention is
      absent (a missing column or a missing value in the table). */
  datatype Counts = Counts(
    tweeters: Option<int>,
    fbwalls: Option<int>,
    msm: Option<int>,
    wikipedia: Option<int>,
    feeds: Option<int>)

  /** The fields of one Altmetric response the bot uses. */
  datatype Response = Response(pmid: string, score: int, counts: Counts)

  /** One row of the table: a response plus the date of the analysis. */
  datatype Row = Row(analysisDate: string, pmid: string, score: int, counts: Counts)

  /** What one lookup does: a response, `None`, an HTTP error with its status
      code, or any other exception (which nothing in the loop catches). */
  datatype Lookup = Found(response: Response) | NotFound | HttpError(status: int) | Raised

  /** The copy file after the job and the ids read from it, or `None` when the
      read fails because the copy holds no data line. */
  datatype Snapshot = Snapshot(copy: string, ids: Option<seq<string>>)

  /** A line the table reader skips: nothing but spaces and tabs before its
      terminator. */
  predicate Blank(line: string) {
    forall i :: 0 <= i < |Content(line)| ==> Content(line)[i] == ' ' || Content(line)[i] == '\t'
  }

  /** The contents of the non-blank lines, in order. */
  function NonBlank(lines: seq<string>): (ids: seq<string>)
    ensures |ids| <= |lines|
    ensures forall id :: id in ids ==> id != []
    decreases |lines|
  {
    if lines == [] then []
    else (if Blank(lines[0]) then [] else [Content(lines[0])]) + NonBlank(lines[1..])
  }

  /** Which lines the table reader keeps. */
  function NotBlankMask(lines: seq<string>): (m: seq<bool>)
    ensures |m| == |lines| && forall i :: 0 <= i < |lines| ==> (m[i] <==> !Blank(lines[i]))
  {
    seq(|lines|, i requires 0 <= i < |lines| => !Blank(lines[i]))
  }

  /** Every line without its terminator. */
  function Contents(lines: seq<string>): (cs: seq<string>)
    ensures |cs| == |lines| && forall i :: 0 <= i < |lines| ==> cs[i] == Content(lines[i])
  {
    seq(|lines|, i requires 0 <= i < |lines| => Content(lines[i]))
  }

  /** The ids read back are exactly the contents of the non-blank lines, in
      the order of the file. */
  lemma {:induction false} NonBlankExact(lines: seq<string>)
    ensures Gathers(NonBlank(lines), Contents(lines), Positions(NotBlankMask(lines)))
    decreases |lines|
  {
    if lines != [] {
      var n := |lines| - 1;
      var init := lines[..n];
      NonBlankExact(init);
      assert lines == init + [lines[n]];
      NonBlankAppend(init, [lines[n]]);
      assert NonBlank([lines[n]]) == (if Blank(lines[n]) then [] else [Content(lines[n])]) by {
        assert [lines[n]][1..] == [];
      }
      assert NotBlankMask(lines)[..n] == NotBlankMask(init);
      assert Contents(lines)[..n] == Contents(init);
      GathersSnoc(NonBlank(init), Contents(lines), Positions(NotBlankMask(init)), !Blank(lines[n]));
    }
  }

  lemma {:induction false} NonBlankAppend(a: seq<string>, b: seq<string>)
    ensures NonBlank(a + b) == NonBlank(a) + NonBlank(b)
    decreases |a|
  {
    if a == [] {
      assert a + b == b;
    } else {
      var head := if Blank(a[0]) then [] else [Content(a[0])];
      assert (a + b)[0] == a[0];
      assert (a + b)[1..] == a[1..] + b;
      NonBlankAppend(a[1..], b);
      assert NonBlank(a + b) == head + NonBlank(a[1..] + b);
      assert NonBlank(a) == head + NonBlank(a[1..]);
    }
  }

  /** `main_file_to_list`: every line of the store is appended to today's copy,
      then the copy's non-blank lines are read back; a copy with none makes
      the read fail. */
  function MainFileToList(mainDb: string, copy: string): (r: Snapshot)
    ensures |r.copy| == |copy| + |mainDb| && r.copy[..|copy|] == copy && r.copy[|copy|..] == mainDb
    ensures r.ids.None? <==> forall l :: l in Lines(r.copy) ==> Blank(l)
    ensures r.ids.Some? ==> |r.ids.value| > 0 && r.ids.value == NonBlank(Lines(r.copy))
    ensures r.ids.Some? ==> Gathers(r.ids.value, Contents(Lines(r.copy)), Positions(NotBlankMask(Lines(r.copy))))
  {
    var copy' := copy + mainDb;
    var ids := NonBlank(Lines(copy'));
    NoneBlankMeansEmpty(Lines(copy'));
    NonBlankExact(Lines(copy'));
    Snapshot(copy', if ids == [] then None else Some(ids))
  }

  lemma {:induction false} NoneBlankMeansEmpty(lines: seq<string>)
    ensures NonBlank(lines) == [] <==> forall l :: l in lines ==> Blank(l)
    decreases |lines|
  {
    if lines != [] {
      NoneBlankMeansEmpty(lines[1..]);
      assert forall l :: l in lines ==> l == lines[0] || l in lines[1..];
    }
  }

  /** With a terminated copy, the ids read are the copy's earlier ids followed
      by every non-blank line of the store; so a second run on the same day
      reads the store's ids twice. */
  lemma MainFileToListAppends(mainDb: string, copy: string)
    requires Terminated(copy) && Terminated(mainDb)
    requires exists l :: l in Lines(mainDb) && !Blank(l)
    ensures var r := MainFileToList(mainDb, copy);
      && r.ids == Some(NonBlank(Lines(copy)) + NonBlank(Lines(mainDb)))
      && Terminated(r.copy)
      && MainFileToList(mainDb, r.copy).ids == Some(NonBlank(Lines(copy)) + NonBlank(Lines(mainDb)) + NonBlank(Lines(mainDb)))
  {
    var r := MainFileToList(mainDb, copy);
    LinesAppend(copy, mainDb);
    NonBlankAppend(Lines(copy), Lines(mainDb));
    NoneBlankMeansEmpty(Lines(mainDb));
    assert Terminated(r.copy);
    LinesAppend(r.copy, mainDb);
    NonBlankAppend(Lines(r.copy), Lines(mainDb));
  }

  /** The table row of a response, dated `today`. */
  function RowOf(rsp: Response, today: string): Row {
    Row(today, rsp.pmid, rsp.score, rsp.counts)
  }

  /** Which lookups among `ids` produced a response. */
  function FoundMask(ids: seq<string>, service: (nat, string) -> Lookup): (m: seq<bool>)
    ensures |m| == |ids| && forall i :: 0 <= i < |ids| ==> (m[i] <==> service(i, ids[i]).Found?)
  {
    seq(|ids|, i requires 0 <= i < |ids| => service(i, ids[i]).Found?)
  }

  /** The loop of `altmetric_search` after its first `n` lookups: a response is
      appended, `None` and HTTP errors are skipped, any other exception ends
      the search. */
  function LookupsUpTo(ids: seq<string>, service: (nat, string) -> Lookup, today: string, n: nat): (r: Option<seq<Row>>)
    requires n <= |ids|
    ensures r.None? <==> exists i :: 0 <= i < n && service(i, ids[i]).Raised?
    ensures r.Some? ==> |r.value| <= n && forall row :: row in r.value ==> row.analysisDate == today
    decreases n
  {
    if n == 0 then Some([])
    else
      match LookupsUpTo(ids, service, today, n - 1)
      case None => None
      case Some(rows) =>
        match service(n - 1, ids[n - 1])
        case Found(rsp) => Some(rows + [RowOf(rsp, today)])
        case NotFound => Some(rows)
        case HttpError(_) => Some(rows)
        case Raised => None
  }

  /** `altmetric_search`: the table of every response, each dated `today`. */
  function AltmetricSearch(ids: seq<string>, service: (nat, string) -> Lookup, today: string): Option<seq<Row>> {
    LookupsUpTo(ids, service, today, |ids|)
  }

  /** The table holds exactly the responses, in the order of the ids asked
      for: its k-th row comes from the k-th lookup that found something. */
  lemma {:induction false} SearchKeepsFoundInOrder(ids: seq<string>, service: (nat, string) -> Lookup, today: string, n: nat)
    requires n <= |ids|
    requires LookupsUpTo(ids, service, today, n).Some?
    ensures var rows := LookupsUpTo(ids, service, today, n).value;
      var pos := Positions(FoundMask(ids, service)[..n]);
      && |rows| == |pos|
      && forall k :: 0 <= k < |pos| ==> service(pos[k], ids[pos[k]]).Found? && rows[k] == RowOf(service(pos[k], ids[pos[k]]).response, today)
    decreases n
  {
    if n > 0 {
      var m := n - 1;
      var mask := FoundMask(ids, service);
      SearchKeepsFoundInOrder(ids, service, today, m);
      PositionsSnoc(mask, m);
      var rows0, pos0 := LookupsUpTo(ids, service, today, m).value, Positions(mask[..m]);
      if service(m, ids[m]).Found? {
        assert LookupsUpTo(ids, service, today, n).value == rows0 + [RowOf(service(m, ids[m]).response, today)];
        assert Positions(mask[..n]) == pos0 + [m];
      } else {
        assert LookupsUpTo(ids, service, today, n).value == rows0;
      }
    }
  }
}
