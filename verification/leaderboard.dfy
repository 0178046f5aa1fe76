/**
 The weekly leaderboard: the table of the articles already highlighted. From
 the week's table of Altmetric rows, the rows whose PMID is on the board are
 dropped, the highest score among the rest is found, the first row with that
 score is chosen, and it is written to the board (a new board holding just
 that row, or the old rows followed by it). With nothing left to choose,
 the selection fails before anything is written.
 */
module Leaderboard {
  import opened Text
  import opened Seqs
  import opened Altmetric

  /** The PMIDs on the board, in board order. */
  function BoardPmids(board: seq<Row>): (ps: seq<string>)
    ensures |ps| == |board| && forall i :: 0 <= i < |board| ==> ps[i] == board[i].pmid
  {
    seq(|board|, i requires 0 <= i < |board| => board[i].pmid)
  }

  /** A row is dropped when the board file exists and lists its PMID. */
  predicate Excluded(board: Option<seq<Row>>, row: Row) {
    board.Some? && row.pmid in BoardPmids(board.value)
  }

  /** Which rows stay candidates. */
  function KeepMask(rows: seq<Row>, board: Option<seq<Row>>): (m: seq<bool>)
    ensures |m| == |rows| && forall i :: 0 <= i < |rows| ==> (m[i] <==> !Excluded(board, rows[i]))
  {
    seq(|rows|, i requires 0 <= i < |rows| => !Excluded(board, rows[i]))
  }

  /** The filter over the first `n` rows: a row whose PMID is on the board is
      dropped, the others are kept in order. */
  function CandidatesUpTo(rows: seq<Row>, board: Option<seq<Row>>, n: nat): (c: seq<Row>)
    requires n <= |rows|
    ensures |c| <= n
    ensures forall r :: r in c ==> !Excluded(board, r)
    decreases n
  {
    if n == 0 then []
    else CandidatesUpTo(rows, board, n - 1) + (if Excluded(board, rows[n - 1]) then [] else [rows[n - 1]])
  }

  /** The candidate rows: all of them without a board, otherwise those whose
      PMID the board does not list. */
  function Candidates(rows: seq<Row>, board: Option<seq<Row>>): seq<Row> {
    CandidatesUpTo(rows, board, |rows|)
  }

  /** The filter keeps input order: its k-th row is the k-th row not excluded. */
  lemma {:induction false} CandidatesInOrder(rows: seq<Row>, board: Option<seq<Row>>, n: nat)
    requires n <= |rows|
    ensures Gathers(CandidatesUpTo(rows, board, n), rows[..n], Positions(KeepMask(rows, board)[..n]))
    decreases n
  {
    if n > 0 {
      var mask := KeepMask(rows, board);
      CandidatesInOrder(rows, board, n - 1);
      PositionsSnoc(mask, n - 1);
      assert rows[..n][..n - 1] == rows[..n - 1];
      GathersSnoc(CandidatesUpTo(rows, board, n - 1), rows[..n], Positions(mask[..n - 1]), mask[n - 1]);
    }
  }

  /** No candidate is left exactly when every row is on the board. */
  lemma {:induction false} CandidatesEmpty(rows: seq<Row>, board: Option<seq<Row>>, n: nat)
    requires n <= |rows|
    ensures CandidatesUpTo(rows, board, n) == [] <==> forall i :: 0 <= i < n ==> Excluded(board, rows[i])
    decreases n
  {
    if n > 0 {
      CandidatesEmpty(rows, board, n - 1);
    }
  }

  /** Without a board, every row is a candidate. */
  lemma {:induction false} NoBoardKeepsAll(rows: seq<Row>, n: nat)
    requires n <= |rows|
    ensures CandidatesUpTo(rows, None, n) == rows[..n]
    decreases n
  {
    if n > 0 {
      NoBoardKeepsAll(rows, n - 1);
      assert rows[..n] == rows[..n - 1] + [rows[n - 1]];
    }
  }

  /** The highest score among the candidates (`score.max()`). */
  function MaxScore(c: seq<Row>): (m: int)
    requires |c| > 0
    ensures forall j :: 0 <= j < |c| ==> c[j].score <= m
    ensures exists j :: 0 <= j < |c| && c[j].score == m
    decreases |c|
  {
    if |c| == 1 then c[0].score
    else
      var m := MaxScore(c[1..]);
      assert forall j :: 1 <= j < |c| ==> c[j] == c[1..][j - 1];
      if c[0].score >= m then c[0].score else m
  }

  /** The first row with score `m` (`iloc[[0]]` of the rows equal to it). */
  function FirstWithScore(c: seq<Row>, m: int): (k: nat)
    requires exists j :: 0 <= j < |c| && c[j].score == m
    ensures k < |c| && c[k].score == m
    ensures forall j :: 0 <= j < k ==> c[j].score != m
    decreases |c|
  {
    if c[0].score == m then 0
    else
      assert exists j :: 0 <= j < |c[1..]| && c[1..][j].score == m by {
        var j :| 0 <= j < |c| && c[j].score == m;
        assert c[1..][j - 1] == c[j];
      }
      1 + FirstWithScore(c[1..], m)
  }

  /** Row `k` has the highest score, and every row before it scores less. */
  predicate IsFirstMax(c: seq<Row>, k: nat) {
    && k < |c|
    && (forall j :: 0 <= j < |c| ==> c[j].score <= c[k].score)
    && (forall j :: 0 <= j < k ==> c[j].score < c[k].score)
  }

  /** There is only one first maximum: the selection is deterministic. */
  lemma FirstMaxUnique(c: seq<Row>, k1: nat, k2: nat)
    requires IsFirstMax(c, k1) && IsFirstMax(c, k2)
    ensures k1 == k2
  {
    assert c[k2].score <= c[k1].score && c[k1].score <= c[k2].score;
  }

  /** Position of the chosen row among the candidates. */
  function PickIndex(c: seq<Row>): (k: nat)
    requires |c| > 0
    ensures IsFirstMax(c, k)
  {
    FirstWithScore(c, MaxScore(c))
  }

  /** The chosen row and the board as written back. */
  datatype Selection = Selection(row: Row, board: seq<Row>)

  /** `highest_altemtric_score`: `board` is the leaderboard file's rows, `None`
      when the file does not exist. `None` as result: no candidate, the
      selection fails and nothing is written. */
  function HighestScore(rows: seq<Row>, board: Option<seq<Row>>): (r: Option<Selection>)
    ensures r.None? <==> forall i :: 0 <= i < |rows| ==> Excluded(board, rows[i])
    ensures r.Some? ==> !Excluded(board, r.value.row)
  {
    var c := Candidates(rows, board);
    CandidatesEmpty(rows, board, |rows|);
    if c == [] then None
    else
      var row := c[PickIndex(c)];
      Some(Selection(row, if board.None? then [row] else board.value + [row]))
  }

  /** The choice, stated on the week's rows in their input order: a row not on
      the board, scoring at least as much as every such row, and scoring more
      than every such row before it (the first of equal maxima wins). */
  lemma HighestScoreChoice(rows: seq<Row>, board: Option<seq<Row>>)
    requires HighestScore(rows, board).Some?
    ensures var sel := HighestScore(rows, board).value.row;
      exists i :: 0 <= i < |rows| && rows[i] == sel
        && !Excluded(board, rows[i])
        && (forall j :: 0 <= j < |rows| && !Excluded(board, rows[j]) ==> rows[j].score <= sel.score)
        && (forall j :: 0 <= j < i && !Excluded(board, rows[j]) ==> rows[j].score < sel.score)
  {
    var c := Candidates(rows, board);
    var mask := KeepMask(rows, board);
    var pos := Positions(mask);
    assert Gathers(c, rows, pos) by {
      CandidatesInOrder(rows, board, |rows|);
      assert mask[..|rows|] == mask && rows[..|rows|] == rows;
    }
    PositionsIncreasing(mask);
    PositionsComplete(mask);
    var k := PickIndex(c);
    assert c[k] in c;
    FirstMaxOfGathered(rows, board, c, pos, k);
  }

  /** The first maximum of the gathered candidates, read back on the rows. */
  lemma FirstMaxOfGathered(rows: seq<Row>, board: Option<seq<Row>>, c: seq<Row>, pos: seq<nat>, k: nat)
    requires Gathers(c, rows, pos) && Increasing(pos)
    requires forall j :: 0 <= j < |rows| && !Excluded(board, rows[j]) ==> j in pos
    requires IsFirstMax(c, k) && !Excluded(board, c[k])
    ensures var i := pos[k];
      && i < |rows| && rows[i] == c[k] && !Excluded(board, rows[i])
      && (forall j :: 0 <= j < |rows| && !Excluded(board, rows[j]) ==> rows[j].score <= c[k].score)
      && (forall j :: 0 <= j < i && !Excluded(board, rows[j]) ==> rows[j].score < c[k].score)
  {
    var i := pos[k];
    forall j | 0 <= j < |rows| && !Excluded(board, rows[j])
      ensures rows[j].score <= c[k].score
      ensures j < i ==> rows[j].score < c[k].score
    {
      assert j in pos;
      var kj :| 0 <= kj < |pos| && pos[kj] == j;
      assert c[kj] == rows[j];
      if j < i {
        IncreasingOrder(pos, kj, k);
      }
    }
  }

  /** The board is append-only: the new board is the old rows, unchanged and in
      order, followed by the chosen row (or just that row for a new file). */
  lemma HighestScoreAppends(rows: seq<Row>, board: Option<seq<Row>>)
    requires HighestScore(rows, board).Some?
    ensures var s := HighestScore(rows, board).value;
      var old_ := if board.None? then [] else board.value;
      |s.board| == |old_| + 1 && s.board[..|old_|] == old_ && s.board[|old_|] == s.row
  {
  }

  /** No PMID is highlighted twice: a board without repeated PMIDs keeps that
      property, week after week. */
  lemma HighestScoreKeepsBoardDistinct(rows: seq<Row>, board: Option<seq<Row>>)
    requires board.Some? ==> Distinct(BoardPmids(board.value))
    requires HighestScore(rows, board).Some?
    ensures Distinct(BoardPmids(HighestScore(rows, board).value.board))
  {
    var s := HighestScore(rows, board).value;
    if board.Some? {
      assert BoardPmids(s.board) == BoardPmids(board.value) + [s.row.pmid];
      DistinctConcat(BoardPmids(board.value), [s.row.pmid]);
    }
  }

  /** Without a board, every row competes; all rows on the board: nothing is
      chosen and the board is left as it was. */
  lemma HighestScoreEdgeCases(rows: seq<Row>, board: seq<Row>)
    ensures |rows| > 0 ==> HighestScore(rows, None).Some? && HighestScore(rows, None).value.board == [HighestScore(rows, None).value.row]
    ensures (forall i :: 0 <= i < |rows| ==> rows[i].pmid in BoardPmids(board)) ==> HighestScore(rows, Some(board)).None?
  {
  }

  /** The tie-break example: rows A and B both scoring 10, no board yet; A, the
      first, is chosen. */
  lemma TieBreakExample(a: Row, b: Row)
    requires a.pmid == "A" && b.pmid == "B" && a.score == 10 && b.score == 10
    ensures HighestScore([a, b], None) == Some(Selection(a, [a]))
  {
    NoBoardKeepsAll([a, b], 2);
    assert [a, b][..2] == [a, b];
    var c := Candidates([a, b], None);
    assert c == [a, b];
    assert IsFirstMax(c, 0);
    FirstMaxUnique(c, 0, PickIndex(c));
  }
}
