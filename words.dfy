/**
 * `countWords` (server.js): `text.trim().split(/\s+/).length`, proved against
 * an independent count of the maximal non-whitespace runs of the text.
 */
module WordCount {
  import opened Text

  /**
   * `s.split(/\s+/)`: the pieces between maximal whitespace runs. A run at
   * either end leaves an empty piece there, and the empty string is `[""]`.
   */
  function SplitWs(s: string): (r: seq<string>)
    ensures |r| >= 1
    decreases |s|
  {
    if s == [] then [""]
    else if IsWs(s[0]) then [""] + SplitWs(TrimStart(s[1..]))
    else
      var rest := SplitWs(s[1..]);
      [[s[0]] + rest[0]] + rest[1..]
  }

  /** No piece holds whitespace. */
  lemma {:induction false} SplitWsPiecesLackWs(s: string)
    ensures forall i :: 0 <= i < |SplitWs(s)| ==> NoWs(SplitWs(s)[i])
    decreases |s|
  {
    if s != [] {
      if IsWs(s[0]) {
        SplitWsPiecesLackWs(TrimStart(s[1..]));
      } else {
        SplitWsPiecesLackWs(s[1..]);
      }
    }
  }

  /** `countWords(text)` */
  function CountWords(text: string): (n: nat)
    ensures n >= 1
  {
    |SplitWs(Trim(text))|
  }

  /**
   * The number of positions of `s` that start a non-whitespace run; `prevWs`
   * says whether the character before `s` was whitespace.
   */
  function RunStarts(s: string, prevWs: bool): nat {
    if s == [] then 0
    else (if prevWs && !IsWs(s[0]) then 1 else 0) + RunStarts(s[1..], IsWs(s[0]))
  }

  /** The number of maximal non-whitespace runs: the words of `s`. */
  function Words(s: string): nat {
    RunStarts(s, true)
  }

  /** The number of positions of `s` that start a whitespace run. */
  ghost function GapStarts(s: string, prevWs: bool): nat {
    if s == [] then 0
    else (if !prevWs && IsWs(s[0]) then 1 else 0) + GapStarts(s[1..], IsWs(s[0]))
  }

  /** Whether the last character seen, after `s`, is whitespace. */
  ghost function EndsWs(s: string, prevWs: bool): bool {
    if s == [] then prevWs else IsWs(s[|s| - 1])
  }

  /** Word runs and whitespace runs alternate. */
  lemma {:induction false} RunsAlternate(s: string, prevWs: bool)
    ensures RunStarts(s, prevWs) + (if prevWs then 0 else 1)
         == GapStarts(s, prevWs) + (if EndsWs(s, prevWs) then 0 else 1)
  {
    if s != [] {
      RunsAlternate(s[1..], IsWs(s[0]));
      assert |s[1..]| > 0 ==> s[1..][|s[1..]| - 1] == s[|s| - 1];
    }
  }

  lemma {:induction false} GapStartsAfterWs(w: string, u: string)
    requires AllWs(w)
    ensures GapStarts(w + u, true) == GapStarts(u, true)
  {
    if w != [] {
      assert (w + u)[1..] == w[1..] + u;
      GapStartsAfterWs(w[1..], u);
    } else {
      assert w + u == u;
    }
  }

  /** The pieces are one more than the whitespace runs. */
  lemma {:induction false} SplitWsLength(s: string)
    ensures |SplitWs(s)| == 1 + GapStarts(s, false)
    decreases |s|
  {
    if s != [] {
      if IsWs(s[0]) {
        var t := s[1..];
        var u := TrimStart(t);
        SplitWsLength(u);
        var k := |t| - |u|;
        TrimStartSpec(t);
        assert t == t[..k] + u;
        GapStartsAfterWs(t[..k], u);
      } else {
        SplitWsLength(s[1..]);
      }
    }
  }

  lemma {:induction false} RunStartsAfterWs(w: string, x: string)
    requires AllWs(w)
    ensures RunStarts(w + x, true) == RunStarts(x, true)
  {
    if w != [] {
      assert (w + x)[1..] == w[1..] + x;
      RunStartsAfterWs(w[1..], x);
    } else {
      assert w + x == x;
    }
  }

  lemma {:induction false} RunStartsOfWs(w: string, prevWs: bool)
    requires AllWs(w)
    ensures RunStarts(w, prevWs) == 0
  {
    if w != [] {
      RunStartsOfWs(w[1..], true);
    }
  }

  lemma {:induction false} RunStartsBeforeWs(x: string, w: string, prevWs: bool)
    requires AllWs(w)
    ensures RunStarts(x + w, prevWs) == RunStarts(x, prevWs)
  {
    if x == [] {
      assert x + w == w;
      RunStartsOfWs(w, prevWs);
    } else {
      assert (x + w)[1..] == x[1..] + w;
      RunStartsBeforeWs(x[1..], w, IsWs(x[0]));
    }
  }

  /** Surrounding whitespace adds no word. */
  lemma WordsOfPadded(lead: string, x: string, trail: string)
    requires AllWs(lead) && AllWs(trail)
    ensures Words(lead + x + trail) == Words(x)
  {
    assert lead + x + trail == lead + (x + trail);
    RunStartsAfterWs(lead, x + trail);
    RunStartsBeforeWs(x, trail, true);
  }

  /** Only whitespace-only text has no word. */
  lemma {:induction false} NoWordsIffAllWs(s: string)
    ensures Words(s) == 0 <==> AllWs(s)
  {
    if s != [] {
      if IsWs(s[0]) {
        NoWordsIffAllWs(s[1..]);
        assert AllWs(s) <==> AllWs(s[1..]);
      }
    }
  }

  /** Trimming keeps the words. */
  lemma WordsOfTrim(t: string)
    ensures Words(Trim(t)) == Words(t)
  {
    TrimSpec(t);
    var k := |t| - |TrimStart(t)|;
    var e := k + |Trim(t)|;
    assert t == t[..k] + Trim(t) + t[e..];
    WordsOfPadded(t[..k], Trim(t), t[e..]);
  }

  /**
   * `countWords` counts the words of the text, except that empty or
   * whitespace-only text counts as one word.
   */
  lemma CountWordsIsWords(t: string)
    ensures CountWords(t) >= 1
    ensures !AllWs(t) ==> CountWords(t) == Words(t)
    ensures AllWs(t) ==> CountWords(t) == 1
  {
    var u := Trim(t);
    TrimSpec(t);
    WordsOfTrim(t);
    NoWordsIffAllWs(t);
    TrimEmptyIffAllWs(t);
    if u != [] {
      SplitWsLength(u);
      RunsAlternate(u, true);
      assert GapStarts(u, false) == GapStarts(u, true);
    }
  }

  /** Adding whitespace before or after the text leaves the count unchanged. */
  lemma CountWordsIgnoresPadding(lead: string, t: string, trail: string)
    requires AllWs(lead) && AllWs(trail)
    ensures CountWords(lead + t + trail) == CountWords(t)
  {
    var s := lead + t + trail;
    CountWordsIsWords(s);
    CountWordsIsWords(t);
    WordsOfPadded(lead, t, trail);
    NoWordsIffAllWs(s);
    NoWordsIffAllWs(t);
  }

  lemma {:induction false} RunStartsWiderGap(x: string, c: char, d: char, y: string, prevWs: bool)
    requires IsWs(c) && IsWs(d)
    ensures RunStarts(x + [c, d] + y, prevWs) == RunStarts(x + [c] + y, prevWs)
  {
    if x == [] {
      assert (x + [c, d] + y)[1..] == [d] + y;
      assert ([d] + y)[1..] == y;
      assert (x + [c] + y)[1..] == y;
    } else {
      assert (x + [c, d] + y)[1..] == x[1..] + [c, d] + y;
      assert (x + [c] + y)[1..] == x[1..] + [c] + y;
      RunStartsWiderGap(x[1..], c, d, y, IsWs(x[0]));
    }
  }

  /** Lengthening a whitespace run inside the text leaves the count unchanged. */
  lemma CountWordsIgnoresGapWidth(x: string, c: char, d: char, y: string)
    requires IsWs(c) && IsWs(d)
    ensures CountWords(x + [c, d] + y) == CountWords(x + [c] + y)
  {
    var wide, narrow := x + [c, d] + y, x + [c] + y;
    CountWordsIsWords(wide);
    CountWordsIsWords(narrow);
    RunStartsWiderGap(x, c, d, y, true);
    NoWordsIffAllWs(wide);
    NoWordsIffAllWs(narrow);
  }
}
