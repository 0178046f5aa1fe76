/**
 The seen-PMID store of the PubMed bot: the text file `pmid_db.txt`, read
 line by line with every line right-stripped, and appended to one
 `pmid + "\n"` at a time. `PmidTool` is the bot's only entry point to it: it
 answers "already" for a known PMID, and otherwise records the PMID and
 answers with the article's PubMed URL.
 */
module PmidStore {
  import opened Text

  const PubmedPrefix: string := "http://pubmed.ncbi.nlm.nih.gov/"
  const AlreadyAnswer: string := "already"

  /** Every line, right-stripped, in order. */
  function StripAll(lines: seq<string>): (ids: seq<string>)
    decreases |lines|
  {
    if lines == [] then [] else [RStrip(lines[0])] + StripAll(lines[1..])
  }

  /** The identifiers the store holds: every line of the file, right-stripped,
      in file order (the list `pmid_checker` builds). */
  function StoredIds(db: string): (ids: seq<string>) {
    StripAll(Lines(db))
  }

  lemma {:induction false} StripAllAppend(a: seq<string>, b: seq<string>)
    ensures StripAll(a + b) == StripAll(a) + StripAll(b)
    decreases |a|
  {
    if a == [] {
      assert a + b == b;
    } else {
      assert (a + b)[1..] == a[1..] + b;
      StripAllAppend(a[1..], b);
    }
  }

  /** `pmid` is in the store. */
  predicate Seen(db: string, pmid: string) {
    pmid in StoredIds(db)
  }

  /** A PMID the store can hold faithfully: one line, no trailing whitespace. */
  predicate WellFormedPmid(pmid: string) {
    '\n' !in pmid && NoTrailingSpace(pmid)
  }

  /** The stored identifiers are exactly the right-stripped lines of the file. */
  lemma StoredIdsAreStrippedLines(db: string)
    ensures |StoredIds(db)| == |Lines(db)|
    ensures forall i :: 0 <= i < |Lines(db)| ==> StoredIds(db)[i] == RStrip(Lines(db)[i])
  {
    StripAllAt(Lines(db));
  }

  lemma {:induction false} StripAllAt(lines: seq<string>)
    ensures |StripAll(lines)| == |lines|
    ensures forall i :: 0 <= i < |lines| ==> StripAll(lines)[i] == RStrip(lines[i])
    decreases |lines|
  {
    if lines != [] {
      StripAllAt(lines[1..]);
    }
  }

  /** Reading a terminated file followed by more text: the ids of the first
      part are kept, in place, followed by those of the rest. */
  lemma StoredIdsAppend(a: string, b: string)
    requires Terminated(a)
    ensures StoredIds(a + b) == StoredIds(a) + StoredIds(b)
  {
    LinesAppend(a, b);
    StripAllAppend(Lines(a), Lines(b));
  }

  /** Appending one record `pmid + "\n"` to a terminated file adds exactly the
      id `pmid` (for a well-formed PMID) after the existing ones. */
  lemma StoredIdsAfterRecord(db: string, pmid: string)
    requires Terminated(db) && WellFormedPmid(pmid)
    ensures StoredIds(db + pmid + "\n") == StoredIds(db) + [pmid]
    ensures Terminated(db + pmid + "\n")
  {
    var line := pmid + "\n";
    assert db + pmid + "\n" == db + line;
    StoredIdsAppend(db, line);
    StoredIdsOfRecord(pmid);
  }

  /** A file holding just the record `pmid + "\n"` stores the single id `pmid`. */
  lemma StoredIdsOfRecord(pmid: string)
    requires WellFormedPmid(pmid)
    ensures StoredIds(pmid + "\n") == [pmid]
  {
    LinesOfOneLine(pmid);
    RStripLine(pmid);
    assert StripAll([pmid + "\n"]) == [RStrip(pmid + "\n")] + StripAll([]);
  }

  /** A file holding one id without its '\n' stores just that id. */
  lemma StoredIdsOfUnterminated(x: string)
    requires x != [] && WellFormedPmid(x)
    ensures StoredIds(x) == [x]
  {
    LinesOfUnterminated(x);
    assert StripAll([x]) == [RStrip(x)] + StripAll([]);
  }

  /** `pmid_checker`: (True, "NA") when some line of the file, right-stripped,
      is the PMID; otherwise (False, pmid). */
  function Checker(pmid: string, db: string): (r: (bool, string))
    ensures r.0 <==> exists i :: 0 <= i < |Lines(db)| && RStrip(Lines(db)[i]) == pmid
    ensures r.0 ==> r.1 == "NA"
    ensures !r.0 ==> r.1 == pmid
  {
    StoredIdsAreStrippedLines(db);
    assert (pmid in StoredIds(db)) <==> exists i :: 0 <= i < |StoredIds(db)| && StoredIds(db)[i] == pmid;
    if pmid in StoredIds(db) then (true, "NA") else (false, pmid)
  }

  /** `pmid_appender`: the file opened in append mode, one line written. */
  function Appender(pmidString: string, db: string): string
  {
    db + pmidString + "\n"
  }

  /** `pmid_url_resolver`. */
  function UrlResolver(pmid: string): (url: string)
    ensures |url| == |PubmedPrefix| + |pmid|
    ensures url[..|PubmedPrefix|] == PubmedPrefix && url[|PubmedPrefix|..] == pmid
  {
    PubmedPrefix + pmid
  }

  /** Different PMIDs get different URLs, and the URL names its PMID. */
  lemma UrlNamesItsPmid(a: string, b: string)
    ensures UrlResolver(a) == UrlResolver(b) <==> a == b
  {
    if UrlResolver(a) == UrlResolver(b) {
      assert a == UrlResolver(a)[|PubmedPrefix|..];
    }
  }

  /** What `pmid_tool` returns, and the file it leaves behind. */
  datatype ToolResult = ToolResult(answer: string, db: string)

  /** `pmid_tool`: check, then either answer "already" and leave the file alone,
      or append the PMID (taken from a second check, as the code does) and
      answer with its URL. */
  function PmidTool(pmid: string, db: string): (r: ToolResult)
    ensures r.answer == AlreadyAnswer <==> Seen(db, pmid)
    ensures Seen(db, pmid) ==> r.db == db
    ensures !Seen(db, pmid) ==> r.answer == UrlResolver(pmid) && r.db == db + pmid + "\n"
    ensures |db| <= |r.db| && r.db[..|db|] == db
  {
    if !Checker(pmid, db).0 then
      var db' := Appender(Checker(pmid, db).1, db);
      assert db'[..|db|] == db;
      ToolResult(UrlResolver(pmid), db')
    else
      ToolResult(AlreadyAnswer, db)
  }

  /** A URL answer is never mistaken for "already" by the caller. */
  lemma UrlIsNotAlready(pmid: string)
    ensures UrlResolver(pmid) != AlreadyAnswer
  {
    assert |UrlResolver(pmid)| >= |PubmedPrefix| > |AlreadyAnswer|;
  }

  /** Dedup idempotence: for a well-formed PMID and a terminated file, the first
      call answers the URL and records one line exactly when the PMID was
      new, and a second call always answers "already" without writing. */
  lemma PmidToolIdempotent(pmid: string, db: string)
    requires Terminated(db) && WellFormedPmid(pmid)
    ensures var r1 := PmidTool(pmid, db);
      && (!Seen(db, pmid) ==> r1.answer == UrlResolver(pmid) && Lines(r1.db) == Lines(db) + [pmid + "\n"])
      && PmidTool(pmid, r1.db) == ToolResult(AlreadyAnswer, r1.db)
  {
    if !Seen(db, pmid) {
      StoredIdsAfterRecord(db, pmid);
      AppendOneLine(db, pmid);
      assert Seen(db + pmid + "\n", pmid);
    }
  }

  /** The store only grows: recording one PMID keeps every id already there,
      adds `pmid`, adds nothing else, and keeps the file terminated. */
  lemma PmidToolGrows(pmid: string, db: string)
    requires Terminated(db) && WellFormedPmid(pmid)
    ensures var r := PmidTool(pmid, db);
      && Terminated(r.db)
      && (forall q :: Seen(r.db, q) <==> Seen(db, q) || q == pmid)
  {
    if !Seen(db, pmid) {
      StoredIdsAfterRecord(db, pmid);
    }
  }

  /** Whatever the PMID, a call keeps the file terminated and forgets no
      stored id. */
  lemma PmidToolKeeps(pmid: string, db: string)
    requires Terminated(db)
    ensures var r := PmidTool(pmid, db);
      && Terminated(r.db)
      && (forall q :: Seen(db, q) ==> Seen(r.db, q))
  {
    if !Seen(db, pmid) {
      assert db + pmid + "\n" == db + (pmid + "\n");
      StoredIdsAppend(db, pmid + "\n");
      TerminatedAppend(db, pmid + "\n");
    }
  }

  /** A PMID with trailing whitespace is never found (every stored id is
      right-stripped), so every call records it again. */
  lemma TrailingSpaceNeverSeen(pmid: string, db: string)
    requires !NoTrailingSpace(pmid)
    ensures PmidTool(pmid, db).answer == UrlResolver(pmid)
    ensures PmidTool(pmid, db).db == db + pmid + "\n"
  {
    StoredIdsHaveNoTrailingSpace(db);
  }

  /** Every stored id is right-stripped. */
  lemma StoredIdsHaveNoTrailingSpace(db: string)
    ensures forall id :: id in StoredIds(db) ==> NoTrailingSpace(id)
  {
    StoredIdsAreStrippedLines(db);
  }

  /** A file whose last line lacks its '\n' loses that id on the next record:
      "1" followed by the record of "2" reads back as the single id "12". */
  lemma UnterminatedLastLineIsLost()
    ensures Seen("1", "1")
    ensures PmidTool("2", "1") == ToolResult(UrlResolver("2"), "12\n")
    ensures !Seen("12\n", "1") && !Seen("12\n", "2")
  {
    StoredIdsOfUnterminated("1");
    assert WellFormedPmid("12");
    StoredIdsOfRecord("12");
    assert "12" + "\n" == "12\n";
    assert "1" + "2" + "\n" == "12\n";
    assert "1" != "2";
    assert "12" != "1" && "12" != "2" by { assert |"12"| == 2; }
    assert StoredIds("12\n") == ["12"];
  }
}
