/** `shorten_time_label` and `compact_time_text`: every match of the pattern
    `([a-z])\w+`, ignoring case, is replaced by its first letter, so that
    "4 hrs 3 mins" reads "4 h 3 m". The scan goes left to right over ASCII text. */
module TimeLabel {
  import opened Common
  import opened HtmlEscape

  /** `[a-z]` under case-insensitive matching, in ASCII. */
  predicate IsLetter(c: char)
  {
    'a' <= c <= 'z' || 'A' <= c <= 'Z'
  }

  /** `\w` in ASCII: a letter, a digit or an underscore. */
  predicate IsWordChar(c: char)
  {
    IsLetter(c) || '0' <= c <= '9' || c == '_'
  }

  /** The end of the run of word characters that starts at position i: where the
      greedy `\w+` stops. */
  function WordEnd(s: string, i: nat): (j: nat)
    requires i <= |s|
    ensures i <= j <= |s|
    ensures j == |s| || !IsWordChar(s[j])
    ensures forall k :: i <= k < j ==> IsWordChar(s[k])
    decreases |s| - i
  {
    if i < |s| && IsWordChar(s[i]) then WordEnd(s, i + 1) else i
  }

  /** A match of the pattern starts at position i: a letter followed by at least
      one word character. */
  predicate MatchesAt(s: string, i: nat)
  {
    i + 1 < |s| && IsLetter(s[i]) && IsWordChar(s[i + 1])
  }

  /** The replacement scan from position i on. At each position either a whole match
      collapses to its first letter, or one character is copied. The result is never
      longer than what is left to scan, and starts with the character at i. */
  function ShortenFrom(s: string, i: nat): (r: string)
    requires i <= |s|
    ensures |r| <= |s| - i
    ensures i < |s| ==> r != [] && r[0] == s[i]
    decreases |s| - i
  {
    if i == |s| then []
    else if MatchesAt(s, i) then [s[i]] + ShortenFrom(s, WordEnd(s, i + 1))
    else [s[i]] + ShortenFrom(s, i + 1)
  }

  /** The whole replacement: `re.sub(r"([a-z])\w+", r"\g<1>", s, flags=re.IGNORECASE)`. */
  function Shorten(s: string): (r: string)
    ensures |r| <= |s|
  {
    ShortenFrom(s, 0)
  }

  /** `shorten_time_label(text)`; a missing label reads as "". */
  function ShortenTimeLabel(text: Option<string>): (r: string)
    ensures |r| <= |OrEmpty(text)|
    ensures text.None? ==> r == ""
  {
    Shorten(OrEmpty(text))
  }

  /** `compact_time_text(text)`: the shortened label, escaped. It holds no raw markup
      character and decodes to the shortened label. */
  function CompactTimeText(text: Option<string>): (r: string)
    ensures forall i :: 0 <= i < |r| ==> !IsMarkup(r[i])
    ensures Unescape(r) == ShortenTimeLabel(text)
  {
    Esc(Some(ShortenTimeLabel(text)))
  }

  /** No letter is directly followed by a word character: the pattern matches
      nowhere in s. */
  predicate NoMatch(s: string)
  {
    forall i :: 0 <= i < |s| - 1 ==> IsLetter(s[i]) ==> !IsWordChar(s[i + 1])
  }

  /** Putting c in front of text with no match creates none, unless c is a letter
      and the text starts with a word character. */
  lemma NoMatchCons(c: char, t: string)
    requires NoMatch(t)
    requires t == [] || !IsLetter(c) || !IsWordChar(t[0])
    ensures NoMatch([c] + t)
  {
    var r := [c] + t;
    forall i | 0 <= i < |r| - 1 && IsLetter(r[i])
      ensures !IsWordChar(r[i + 1])
    {
      if i > 0 {
        assert r[i] == t[i - 1] && r[i + 1] == t[i];
      }
    }
  }

  /** After shortening from any position, the pattern matches nowhere. */
  lemma {:induction false} ShortenFromLeavesNoMatch(s: string, i: nat)
    requires i <= |s|
    ensures NoMatch(ShortenFrom(s, i))
    decreases |s| - i
  {
    if i < |s| {
      var next := if MatchesAt(s, i) then WordEnd(s, i + 1) else i + 1;
      ShortenFromLeavesNoMatch(s, next);
      NoMatchCons(s[i], ShortenFrom(s, next));
    }
  }

  /** Where the pattern matches nowhere, the scan copies every character. */
  lemma {:induction false} ShortenFromNoMatch(s: string, i: nat)
    requires NoMatch(s) && i <= |s|
    ensures ShortenFrom(s, i) == s[i..]
    decreases |s| - i
  {
    if i < |s| {
      assert !MatchesAt(s, i);
      ShortenFromNoMatch(s, i + 1);
      assert s[i..] == [s[i]] + s[i + 1..];
    }
  }

  /** Shortening leaves s unchanged exactly when the pattern matches nowhere in s. */
  lemma ShortenFixedIff(s: string)
    ensures Shorten(s) == s <==> NoMatch(s)
  {
    ShortenFromLeavesNoMatch(s, 0);
    if NoMatch(s) { ShortenFromNoMatch(s, 0); }
  }

  /** Shortening twice is shortening once. */
  lemma ShortenIdempotent(s: string)
    ensures Shorten(Shorten(s)) == Shorten(s)
  {
    ShortenFromLeavesNoMatch(s, 0);
    ShortenFromNoMatch(Shorten(s), 0);
  }

  /** The characters of s that are not word characters, in order. */
  function NonWord(s: string): string
  {
    if s == [] then []
    else (if IsWordChar(s[0]) then [] else [s[0]]) + NonWord(s[1..])
  }

  /** Skipping a run of word characters loses no non-word character. */
  lemma {:induction false} NonWordSkip(s: string, i: nat, j: nat)
    requires i <= j <= |s|
    requires forall k :: i <= k < j ==> IsWordChar(s[k])
    ensures NonWord(s[i..]) == NonWord(s[j..])
    decreases j - i
  {
    if i < j {
      assert s[i..][1..] == s[i + 1..];
      NonWordSkip(s, i + 1, j);
    }
  }

  /** A match consists of word characters only, so every other character (spaces,
      punctuation, anything outside ASCII) survives the scan, in order. */
  lemma {:induction false} ShortenFromKeepsNonWord(s: string, i: nat)
    requires i <= |s|
    ensures NonWord(ShortenFrom(s, i)) == NonWord(s[i..])
    decreases |s| - i
  {
    if i < |s| {
      var next := if MatchesAt(s, i) then WordEnd(s, i + 1) else i + 1;
      ShortenFromKeepsNonWord(s, next);
      var t := ShortenFrom(s, next);
      assert ([s[i]] + t)[1..] == t;
      assert s[i..][1..] == s[i + 1..];
      if MatchesAt(s, i) {
        NonWordSkip(s, i + 1, next);
      }
    }
  }

  /** Shortening keeps every non-word character of the label, in order. */
  lemma ShortenKeepsNonWord(s: string)
    ensures NonWord(Shorten(s)) == NonWord(s)
  {
    ShortenFromKeepsNonWord(s, 0);
    assert s[0..] == s;
  }

  /** Position k lies inside a match, past its first letter: it is a word character
      that follows a letter or another such position. Exactly these characters are
      removed; `CutIff` restates this as "some letter before k starts a run of word
      characters reaching k". */
  predicate Cut(s: string, k: nat)
    requires k < |s|
  {
    k > 0 && IsWordChar(s[k]) && (IsLetter(s[k - 1]) || Cut(s, k - 1))
  }

  /** The characters of s from position k on that are not cut, in order: what the
      replacement keeps, defined without reference to the scan. */
  function KeptFrom(s: string, k: nat): string
    requires k <= |s|
    decreases |s| - k
  {
    if k == |s| then []
    else (if Cut(s, k) then [] else [s[k]]) + KeptFrom(s, k + 1)
  }

  function Kept(s: string): string
  {
    KeptFrom(s, 0)
  }

  /** A position is cut exactly when some letter before it starts a run of word
      characters that reaches it: each run of word characters is cut just after its
      first letter. */
  lemma {:induction false} CutIff(s: string, k: nat)
    requires k < |s|
    ensures Cut(s, k) <==> exists p :: 0 <= p < k && IsLetter(s[p]) && forall q :: p < q <= k ==> IsWordChar(s[q])
  {
    if Cut(s, k) {
      if IsLetter(s[k - 1]) {
        assert forall q :: k - 1 < q <= k ==> IsWordChar(s[q]);
      } else {
        CutIff(s, k - 1);
        var p :| 0 <= p < k - 1 && IsLetter(s[p]) && forall q :: p < q <= k - 1 ==> IsWordChar(s[q]);
        assert forall q :: p < q <= k ==> IsWordChar(s[q]);
      }
    }
    if exists p :: 0 <= p < k && IsLetter(s[p]) && forall q :: p < q <= k ==> IsWordChar(s[q]) {
      var p :| 0 <= p < k && IsLetter(s[p]) && forall q :: p < q <= k ==> IsWordChar(s[q]);
      CutWithinRun(s, p, k);
    }
  }

  /** Every word character after a letter, within one run, is cut. */
  lemma {:induction false} CutWithinRun(s: string, p: nat, k: nat)
    requires p < k < |s| && IsLetter(s[p])
    requires forall q :: p < q <= k ==> IsWordChar(s[q])
    ensures Cut(s, k)
    decreases k
  {
    if k > p + 1 { CutWithinRun(s, p, k - 1); }
  }

  /** Skipping the cut rest of a run of word characters keeps nothing. */
  lemma {:induction false} KeptFromSkipsCutFrom(s: string, p: nat, k: nat, j: nat)
    requires p < k < j <= |s| && IsLetter(s[p])
    requires forall q :: p < q < j ==> IsWordChar(s[q])
    ensures KeptFrom(s, k) == KeptFrom(s, j)
    decreases j - k
  {
    CutWithinRun(s, p, k);
    assert KeptFrom(s, k) == KeptFrom(s, k + 1);
    if k + 1 < j {
      KeptFromSkipsCutFrom(s, p, k + 1, j);
    }
  }

  /** From a position that is not cut, the scan keeps exactly the characters that are
      not cut. */
  lemma {:induction false} ShortenFromKept(s: string, i: nat)
    requires i <= |s|
    requires i < |s| ==> !Cut(s, i)
    ensures ShortenFrom(s, i) == KeptFrom(s, i)
    decreases |s| - i
  {
    if i < |s| {
      if MatchesAt(s, i) {
        var j := WordEnd(s, i + 1);
        KeptFromSkipsCutFrom(s, i, i + 1, j);
        ShortenFromKept(s, j);
      } else {
        ShortenFromKept(s, i + 1);
      }
    }
  }

  /** The replacement keeps every character outside the cut part of a match, digits
      and underscores included, in order, and removes the rest. */
  lemma ShortenKeepsUncut(s: string)
    ensures Shorten(s) == Kept(s)
  {
    ShortenFromKept(s, 0);
  }

  /** The example the shortener exists for: "4 hrs 3 mins" becomes "4 h 3 m". */
  lemma ShortenExample()
    ensures ShortenTimeLabel(Some("4 hrs 3 mins")) == "4 h 3 m"
  {
    var s := "4 hrs 3 mins";
    assert WordEnd(s, 9) == 12;
    assert ShortenFrom(s, 8) == "m";
    assert ShortenFrom(s, 5) == " 3 m";
    assert WordEnd(s, 3) == 5;
    assert ShortenFrom(s, 2) == "h 3 m";
    assert ShortenFrom(s, 0) == "4 h 3 m";
  }
}
