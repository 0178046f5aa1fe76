/**
 Title clean-up done while collecting search results: every match of the
 non-greedy regular expression `<.*?>` is replaced by nothing. The regex
 scans left to right; at a '<' it matches up to the FIRST '>' that follows,
 provided no '\n' comes before it (`.` does not match a newline); otherwise
 the '<' is kept and the scan moves on by one character.
 */
module Titles {

  /** A '>' occurs in `s` before any '\n': `.*?>` can complete from here. */
  predicate ClosesOnLine(s: string)
    decreases |s|
  {
    |s| > 0 && s[0] != '\n' && (s[0] == '>' || ClosesOnLine(s[1..]))
  }

  /** Where the shortest match of `.*?>` ends: the first '>', with neither '>'
      nor '\n' before it. */
  function CloseIndex(s: string): (k: nat)
    requires ClosesOnLine(s)
    ensures k < |s| && s[k] == '>'
    ensures forall i :: 0 <= i < k ==> s[i] != '>' && s[i] != '\n'
    decreases |s|
  {
    if s[0] == '>' then 0 else 1 + CloseIndex(s[1..])
  }

  /** `re.sub('<.*?>', '', s)`. */
  function StripTags(s: string): (r: string)
    ensures |r| <= |s|
    decreases |s|
  {
    if s == [] then []
    else if s[0] == '<' && ClosesOnLine(s[1..]) then StripTags(s[1..][CloseIndex(s[1..]) + 1..])
    else [s[0]] + StripTags(s[1..])
  }

  /** No '<' is followed by a '>' on the same line: nothing left for the
      regex to match. */
  predicate NoTags(r: string) {
    forall i :: 0 <= i < |r| && r[i] == '<' ==> !ClosesOnLine(r[i + 1..])
  }

  /** Stripping cannot bring a '>' onto a line that had none before its
      first '\n'. */
  lemma {:induction false} StripKeepsUnclosed(t: string)
    requires !ClosesOnLine(t)
    ensures !ClosesOnLine(StripTags(t))
    decreases |t|
  {
    if t != [] && t[0] != '\n' {
      assert !ClosesOnLine(t[1..]);
      StripKeepsUnclosed(t[1..]);
      assert StripTags(t) == [t[0]] + StripTags(t[1..]);
      assert ([t[0]] + StripTags(t[1..]))[1..] == StripTags(t[1..]);
    }
  }

  /** `NoTags` of a string with one character in front. */
  lemma ConsNoTags(c: char, r: string)
    requires NoTags(r)
    requires c == '<' ==> !ClosesOnLine(r)
    ensures NoTags([c] + r)
  {
    var s := [c] + r;
    forall i | 0 <= i < |s| && s[i] == '<'
      ensures !ClosesOnLine(s[i + 1..])
    {
      if i > 0 {
        assert s[i + 1..] == r[i..];
        assert r[i - 1] == '<';
      } else {
        assert s[1..] == r;
      }
    }
  }

  /** Every `<...>` span on one line is gone from a stripped title. */
  lemma {:induction false} StripTagsLeavesNoTags(s: string)
    ensures NoTags(StripTags(s))
    decreases |s|
  {
    if s == [] {
    } else if s[0] == '<' && ClosesOnLine(s[1..]) {
      StripTagsLeavesNoTags(s[1..][CloseIndex(s[1..]) + 1..]);
    } else {
      StripTagsLeavesNoTags(s[1..]);
      if s[0] == '<' {
        StripKeepsUnclosed(s[1..]);
      }
      ConsNoTags(s[0], StripTags(s[1..]));
    }
  }

  /** A title with nothing to match is left unchanged. */
  lemma {:induction false} StripTagsIdentity(s: string)
    requires NoTags(s)
    ensures StripTags(s) == s
    decreases |s|
  {
    if s != [] {
      assert s[0] == '<' ==> !ClosesOnLine(s[1..]);
      assert NoTags(s[1..]) by {
        forall i | 0 <= i < |s[1..]| && s[1..][i] == '<'
          ensures !ClosesOnLine(s[1..][i + 1..])
        {
          assert s[1..][i + 1..] == s[i + 2..];
          assert s[i + 1] == '<';
        }
      }
      StripTagsIdentity(s[1..]);
      assert [s[0]] + s[1..] == s;
    }
  }

  /** Stripping twice is stripping once. */
  lemma StripTagsIdempotent(s: string)
    ensures StripTags(StripTags(s)) == StripTags(s)
  {
    StripTagsLeavesNoTags(s);
    StripTagsIdentity(StripTags(s));
  }

  /** The first '>' on the line is where `.*?>` stops. */
  lemma {:induction false} CloseAt(t: string, k: nat)
    requires k < |t| && t[k] == '>'
    requires forall i :: 0 <= i < k ==> t[i] != '>' && t[i] != '\n'
    ensures ClosesOnLine(t) && CloseIndex(t) == k
    decreases k
  {
    if k > 0 {
      CloseAt(t[1..], k - 1);
    }
  }

  /** A '<' whose line holds a later '>' is dropped together with everything
      up to the first such '>'. */
  lemma SkipTag(s: string, k: nat)
    requires k + 1 < |s| && s[0] == '<' && s[k + 1] == '>'
    requires forall i :: 1 <= i <= k ==> s[i] != '>' && s[i] != '\n'
    ensures StripTags(s) == StripTags(s[k + 2..])
  {
    CloseAt(s[1..], k);
    assert s[1..][k + 1..] == s[k + 2..];
  }

  /** A lone tag `<a>` on one line strips to nothing. */
  lemma StripLoneTag(a: string)
    requires '>' !in a && '\n' !in a
    ensures StripTags("<" + a + ">") == []
  {
    var u := "<" + a + ">";
    forall i | 1 <= i <= |a|
      ensures u[i] != '>' && u[i] != '\n'
    {
      assert u[i] == a[i - 1];
    }
    SkipTag(u, |a|);
    assert u[|a| + 2..] == [];
  }

  /** A leading tag `<a>` on its line is dropped and what follows is stripped. */
  lemma StripLeadingTag(a: string, rest: string)
    requires '>' !in a && '\n' !in a
    ensures StripTags("<" + a + ">" + rest) == StripTags(rest)
  {
    var s := "<" + a + ">" + rest;
    forall i | 1 <= i <= |a|
      ensures s[i] != '>' && s[i] != '\n'
    {
      assert s[i] == a[i - 1];
    }
    SkipTag(s, |a|);
    assert s[|a| + 2..] == rest;
  }

  /** Markup around a word, such as `<i>Aging</i>`, is removed and the word
      is kept. */
  lemma StripTagPair(a: string, w: string, b: string)
    requires '>' !in a && '\n' !in a && '>' !in b && '\n' !in b && '<' !in w
    ensures StripTags("<" + a + ">" + w + "<" + b + ">") == w
  {
    var u := "<" + b + ">";
    assert "<" + a + ">" + w + "<" + b + ">" == "<" + a + ">" + (w + u);
    StripLeadingTag(a, w + u);
    StripTagsPrefix(w, u);
    StripLoneTag(b);
    assert w + [] == w;
  }

  /** Text without '<' in front is copied through unchanged. */
  lemma {:induction false} StripTagsPrefix(p: string, t: string)
    requires '<' !in p
    ensures StripTags(p + t) == p + StripTags(t)
    decreases |p|
  {
    if p != [] {
      assert (p + t)[1..] == p[1..] + t;
      StripTagsPrefix(p[1..], t);
      assert [p[0]] + (p[1..] + StripTags(t)) == p + StripTags(t);
    } else {
      assert p + t == t;
    }
  }
}
