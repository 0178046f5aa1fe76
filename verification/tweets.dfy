/**
 Tweet text for one new article: the title, shortened to fit a 280-character
 budget that counts the hashtag and the URL but not the "..." marker, then
 " #geripapers " and the article's URL. Lengths are in characters (Unicode
 code points), as Python's `len` counts them.
 */
module Tweets {

  const TweetLimit: int := 280
  const Marker: string := "..."
  const Hashtag: string := "#geripapers"

  /** Python's `s[0:n]`, including a negative `n`, which counts from the end. */
  function PyPrefix(s: string, n: int): (r: string)
    ensures |r| <= |s| && r == s[..|r|]
    ensures 0 <= n <= |s| ==> |r| == n
    ensures n < 0 ==> |r| == if |s| + n >= 0 then |s| + n else 0
  {
    if n >= 0 then (if n <= |s| then s[..n] else s)
    else if |s| + n >= 0 then s[..|s| + n]
    else []
  }

  /** `string_shortener(s, maxSize)`. */
  function Shorten(s: string, maxSize: int): (r: string)
    ensures |s| <= maxSize ==> r == s
    ensures |s| > maxSize ==>
      && |Marker| <= |r| <= |s| + |Marker|
      && r[..|r| - |Marker|] == s[..|r| - |Marker|]
      && r[|r| - |Marker|..] == Marker
    ensures |s| > maxSize >= 0 ==> |r| == maxSize + |Marker|
  {
    if |s| > maxSize then
      var p := PyPrefix(s, maxSize);
      assert (p + Marker)[..|p|] == p;
      p + Marker
    else s
  }

  /** Two examples: a 300-character title cut to 50 keeps its first 50
      characters and gains "...", and a 10-character title is returned as it
      is. */
  lemma ShortenExamples(long: string, short: string)
    requires |long| == 300 && |short| == 10
    ensures Shorten(long, 50) == long[..50] + Marker
    ensures |Shorten(long, 50)| == 53
    ensures Shorten(short, 50) == short
  {
    var r := Shorten(long, 50);
    assert r == r[..50] + r[50..];
  }

  /** What follows the title in every tweet. */
  function Suffix(url: string): string {
    " " + Hashtag + " " + url
  }

  /** The tweet for an article: the title shortened to `280 - |suffix|`
      characters, then the suffix. */
  function ComposeTweet(title: string, url: string): (text: string)
    ensures |text| >= |Suffix(url)| && text[|text| - |Suffix(url)|..] == Suffix(url)
    ensures |title| + |Suffix(url)| <= TweetLimit ==> text == title + Suffix(url)
  {
    var suffix := Suffix(url);
    var text := Shorten(title, TweetLimit - |suffix|) + suffix;
    assert text[|text| - |suffix|..] == suffix;
    text
  }

  /** The length bound: with a suffix that fits, a tweet is at most 283
      characters, because the "..." marker is not in the budget; a title that
      fits is never cut, so its tweet is at most 280. */
  lemma ComposeTweetBound(title: string, url: string)
    requires |Suffix(url)| <= TweetLimit
    ensures |ComposeTweet(title, url)| <= TweetLimit + |Marker|
    ensures |title| + |Suffix(url)| <= TweetLimit ==> |ComposeTweet(title, url)| <= TweetLimit
    ensures |title| + |Suffix(url)| > TweetLimit ==> |ComposeTweet(title, url)| == TweetLimit + |Marker|
  {
  }

  /** The title keeps its leading characters: the tweet starts with a prefix of
      the title, and when the title was cut that prefix is followed by "...". */
  lemma ComposeTweetKeepsTitlePrefix(title: string, url: string)
    requires |Suffix(url)| <= TweetLimit
    requires |title| + |Suffix(url)| > TweetLimit
    ensures var k := TweetLimit - |Suffix(url)|;
      ComposeTweet(title, url) == title[..k] + Marker + Suffix(url)
  {
  }

  /** A URL so long that the suffix alone exceeds the limit (a PMID over 236
      characters) makes the budget negative; Python's negative slice then
      cuts from the end, and the tweet is longer than 283 characters. */
  lemma ComposeTweetOverlongUrl(title: string, url: string)
    requires |Suffix(url)| > TweetLimit
    ensures |ComposeTweet(title, url)| > TweetLimit + |Marker|
  {
    var text := ComposeTweet(title, url);
    assert text == Shorten(title, TweetLimit - |Suffix(url)|) + Suffix(url);
  }
}
