/**
 Text-file and string primitives shared by the bot's scripts: Python's
 whitespace classification and `str.rstrip()`, the way a text file is
 iterated line by line (`for line in f`), and `str()` of an integer.

 A file's contents are a `string`; a "line" is what Python's line iteration
 yields, i.e. a maximal piece ending just after a '\n', or the unterminated
 tail of the file.
 */
module Text {

  datatype Option<+T> = None | Some(value: T)

  /** Python's `str.isspace()` for one character. */
  predicate IsSpace(c: char) {
    || c == '\t' || c == '\n' || c == '\U{000B}' || c == '\U{000C}' || c == '\r'
    || ('\U{001C}' <= c <= '\U{001F}') || c == ' '
    || c == '\U{0085}' || c == '\U{00A0}' || c == '\U{1680}'
    || ('\U{2000}' <= c <= '\U{200A}')
    || c == '\U{2028}' || c == '\U{2029}' || c == '\U{202F}' || c == '\U{205F}' || c == '\U{3000}'
  }

  /** True iff `s` does not end in whitespace (the empty string qualifies). */
  predicate NoTrailingSpace(s: string) {
    s == [] || !IsSpace(s[|s| - 1])
  }

  /** Python's `s.rstrip()`: drop every trailing whitespace character. */
  function RStrip(s: string): (r: string)
    ensures |r| <= |s| && r == s[..|r|]
    ensures NoTrailingSpace(r)
    ensures forall i :: |r| <= i < |s| ==> IsSpace(s[i])
    decreases |s|
  {
    if s != [] && IsSpace(s[|s| - 1]) then RStrip(s[..|s| - 1]) else s
  }

  /** `rstrip()` removes a line terminator together with any whitespace before it,
      and nothing more when the text before it has no trailing whitespace. */
  lemma RStripLine(s: string)
    requires NoTrailingSpace(s)
    ensures RStrip(s + "\n") == s
  {
    assert (s + "\n")[..|s|] == s;
  }

  /** Length of the first line of a non-empty text: up to and including the
      first '\n', or the whole text when there is none. */
  function LineEnd(t: string): (k: nat)
    requires |t| > 0
    ensures 0 < k <= |t|
    ensures forall i :: 0 <= i < k - 1 ==> t[i] != '\n'
    ensures t[k - 1] == '\n' || k == |t|
    decreases |t|
  {
    if t[0] == '\n' || |t| == 1 then 1 else 1 + LineEnd(t[1..])
  }

  /** The lines Python's `for line in f` yields for a file holding `t`; every
      line keeps its terminating '\n' (the last one may have none). */
  function Lines(t: string): (ls: seq<string>)
    decreases |t|
  {
    if t == [] then [] else [t[..LineEnd(t)]] + Lines(t[LineEnd(t)..])
  }

  /** A text is terminated when it is empty or its last line ends in '\n',
      so that appending to it starts a fresh line. */
  predicate Terminated(t: string) {
    t == [] || t[|t| - 1] == '\n'
  }

  /** The first line ends at the first '\n'. */
  lemma {:induction false} LineEndAt(t: string, j: nat)
    requires j < |t| && t[j] == '\n'
    requires forall i :: 0 <= i < j ==> t[i] != '\n'
    ensures LineEnd(t) == j + 1
    decreases j
  {
    if j > 0 {
      assert t[0] != '\n';
      LineEndAt(t[1..], j - 1);
    }
  }

  /** Reading a terminated text followed by more text yields the lines of the
      first followed by the lines of the second: appending never alters an
      existing line. */
  lemma {:induction false} LinesAppend(a: string, b: string)
    requires Terminated(a)
    ensures Lines(a + b) == Lines(a) + Lines(b)
    decreases |a|
  {
    if a == [] {
      assert a + b == b;
    } else {
      var k := LineEnd(a);
      var ab := a + b;
      assert a[k - 1] == '\n';
      assert LineEnd(ab) == k by {
        assert forall i :: 0 <= i < k ==> ab[i] == a[i];
        LineEndAt(ab, k - 1);
      }
      assert ab[..k] == a[..k];
      assert ab[k..] == a[k..] + b;
      assert Terminated(a[k..]);
      LinesAppend(a[k..], b);
      assert Lines(ab) == [a[..k]] + Lines(a[k..] + b);
    }
  }

  /** One text line `x + "\n"`, where `x` holds no '\n', reads back as exactly
      one line. */
  lemma {:induction false} LinesOfOneLine(x: string)
    requires '\n' !in x
    ensures Lines(x + "\n") == [x + "\n"]
  {
    var t := x + "\n";
    LineEndAt(t, |x|);
    assert t[..|x| + 1] == t;
    assert t[|x| + 1..] == [];
  }

  /** Appending `x + "\n"` (with `x` free of '\n') to a terminated text adds
      exactly one line and keeps the text terminated. */
  lemma AppendOneLine(t: string, x: string)
    requires Terminated(t) && '\n' !in x
    ensures Lines(t + x + "\n") == Lines(t) + [x + "\n"]
    ensures Terminated(t + x + "\n")
  {
    assert t + x + "\n" == t + (x + "\n");
    LinesAppend(t, x + "\n");
    LinesOfOneLine(x);
  }

  /** A non-empty text without '\n' reads back as one unterminated line. */
  lemma LinesOfUnterminated(x: string)
    requires x != [] && '\n' !in x
    ensures Lines(x) == [x]
  {
    var k := LineEnd(x);
    assert x[k - 1] in x;
    assert x[..|x|] == x;
  }

  /** A single line as a file writes it: non-empty, ending in '\n', with no
      other '\n'. */
  predicate IsLine(l: string) {
    |l| > 0 && l[|l| - 1] == '\n' && '\n' !in l[..|l| - 1]
  }

  /** The text of a sequence of lines written one after the other. */
  function Join(ls: seq<string>): string
    decreases |ls|
  {
    if ls == [] then [] else Join(ls[..|ls| - 1]) + ls[|ls| - 1]
  }

  /** Lines written one after the other read back as the same lines. */
  lemma {:induction false} LinesOfJoin(ls: seq<string>)
    requires forall i :: 0 <= i < |ls| ==> IsLine(ls[i])
    ensures Lines(Join(ls)) == ls
    ensures Terminated(Join(ls))
    decreases |ls|
  {
    if ls != [] {
      var pre, l := ls[..|ls| - 1], ls[|ls| - 1];
      assert forall i :: 0 <= i < |pre| ==> pre[i] == ls[i];
      LinesOfJoin(pre);
      LineAppend(Join(pre), l);
      assert ls == pre + [l];
    }
  }

  /** Appending one line to a terminated text adds exactly that line. */
  lemma LineAppend(t: string, l: string)
    requires Terminated(t) && IsLine(l)
    ensures Lines(t + l) == Lines(t) + [l]
    ensures Terminated(t + l)
  {
    var x := l[..|l| - 1];
    assert l == x + "\n";
    AppendOneLine(t, x);
    assert t + l == t + x + "\n";
  }

  /** A first line, further lines, and an unterminated last line read back as
      exactly those lines. */
  lemma LinesOfParts(h: string, ls: seq<string>, f: string)
    requires IsLine(h) && (forall i :: 0 <= i < |ls| ==> IsLine(ls[i]))
    requires f != [] && '\n' !in f
    ensures Lines(h + Join(ls) + f) == [h] + ls + [f]
  {
    var t := h + Join(ls);
    HeadThenJoin(h, ls);
    LinesAppend(t, f);
    LinesOfUnterminated(f);
  }

  /** A line followed by joined lines reads back as those lines, terminated. */
  lemma HeadThenJoin(h: string, ls: seq<string>)
    requires IsLine(h) && (forall i :: 0 <= i < |ls| ==> IsLine(ls[i]))
    ensures Lines(h + Join(ls)) == [h] + ls
    ensures Terminated(h + Join(ls))
  {
    LinesOfJoin(ls);
    assert Lines(h) == [h] by {
      LineAppend([], h);
      assert [] + h == h;
    }
    LinesAppend(h, Join(ls));
    TerminatedAppend(h, Join(ls));
  }

  lemma TerminatedAppend(a: string, b: string)
    requires Terminated(a) && Terminated(b)
    ensures Terminated(a + b)
  {
    if b == [] {
      assert a + b == a;
    }
  }

  /** A line without its '\n' terminator. */
  function Content(line: string): (c: string)
    ensures line == c || line == c + "\n"
  {
    if line != [] && line[|line| - 1] == '\n' then line[..|line| - 1] else line
  }

  predicate IsDigit(c: char) {
    '0' <= c <= '9'
  }

  function DigitChar(d: nat): (c: char)
    requires d < 10
    ensures IsDigit(c)
  {
    ['0', '1', '2', '3', '4', '5', '6', '7', '8', '9'][d]
  }

  function DigitValue(c: char): (d: nat)
    requires IsDigit(c)
    ensures d < 10 && DigitChar(d) == c
  {
    (c as int - '0' as int) as nat
  }

  /** Python's `str(n)` for a natural number: decimal, no leading zeros. */
  function NatString(n: nat): (s: string)
    ensures |s| > 0 && forall i :: 0 <= i < |s| ==> IsDigit(s[i])
    ensures |s| > 1 ==> s[0] != '0'
  {
    if n < 10 then [DigitChar(n)] else NatString(n / 10) + [DigitChar(n % 10)]
  }

  /** Reads a string of decimal digits back as a number. */
  function ParseNat(s: string): nat
    requires forall i :: 0 <= i < |s| ==> IsDigit(s[i])
    decreases |s|
  {
    if s == [] then 0 else 10 * ParseNat(s[..|s| - 1]) + DigitValue(s[|s| - 1])
  }

  /** `str(n)` loses nothing: reading the digits back gives `n`. */
  lemma {:induction false} NatStringRoundTrip(n: nat)
    ensures ParseNat(NatString(n)) == n
  {
    var s := NatString(n);
    if n >= 10 {
      NatStringRoundTrip(n / 10);
      assert s[..|s| - 1] == NatString(n / 10);
      assert DigitValue(s[|s| - 1]) == n % 10;
    } else {
      assert DigitValue(s[0]) == n;
      assert s[..0] == [];
    }
  }

  /** Python's `str(n)` for an integer. */
  function IntString(n: int): (s: string)
    ensures |s| > 0 && '\n' !in s
  {
    if n < 0 then "-" + NatString(-n) else NatString(n)
  }
}
