/**
 * The JavaScript string built-ins the server relies on: the whitespace class
 * shared by `String.prototype.trim` and the regular-expression escape `\s`,
 * `trim` itself, and `split` with a one-character separator.
 */
module Text {

  /** ECMAScript WhiteSpace and LineTerminator code points: what `trim` strips and `\s` matches. */
  predicate IsWs(c: char) {
    || c == '\t' || c == '\n' || c == '\U{000B}' || c == '\U{000C}' || c == '\r' || c == ' '
    || c == '\U{00A0}' || c == '\U{1680}' || ('\U{2000}' <= c <= '\U{200A}')
    || c == '\U{2028}' || c == '\U{2029}' || c == '\U{202F}' || c == '\U{205F}'
    || c == '\U{3000}' || c == '\U{FEFF}'
  }

  predicate AllWs(s: string) {
    forall i :: 0 <= i < |s| ==> IsWs(s[i])
  }

  predicate NoWs(s: string) {
    forall i :: 0 <= i < |s| ==> !IsWs(s[i])
  }

  /** Neither end is whitespace: the shape `trim` leaves behind. */
  predicate Trimmed(s: string) {
    s == [] || (!IsWs(s[0]) && !IsWs(s[|s| - 1]))
  }

  /** Drops the leading whitespace run. */
  function TrimStart(s: string): (r: string)
    ensures |r| <= |s|
  {
    if s != [] && IsWs(s[0]) then TrimStart(s[1..]) else s
  }

  /** Drops the trailing whitespace run. */
  function TrimEnd(s: string): (r: string)
    ensures |r| <= |s|
  {
    if s != [] && IsWs(s[|s| - 1]) then TrimEnd(s[..|s| - 1]) else s
  }

  /** `s.trim()` */
  function Trim(s: string): (r: string)
    ensures |r| <= |s|
  {
    TrimEnd(TrimStart(s))
  }

  /** `TrimStart` keeps a suffix, drops only whitespace, and stops at a non-whitespace character. */
  lemma {:induction false} TrimStartSpec(s: string)
    ensures var r := TrimStart(s);
            r == s[|s| - |r|..] && AllWs(s[..|s| - |r|]) && (r == [] || !IsWs(r[0]))
  {
    if s != [] && IsWs(s[0]) {
      TrimStartSpec(s[1..]);
      var r := TrimStart(s);
      assert s[|s| - |r|..] == s[1..][|s| - 1 - |r|..];
      assert s[..|s| - |r|] == [s[0]] + s[1..][..|s| - 1 - |r|];
    }
  }

  /** `TrimEnd` keeps a prefix, drops only whitespace, and stops at a non-whitespace character. */
  lemma {:induction false} TrimEndSpec(s: string)
    ensures var r := TrimEnd(s);
            r == s[..|r|] && AllWs(s[|r|..]) && (r == [] || !IsWs(r[|r| - 1]))
  {
    if s != [] && IsWs(s[|s| - 1]) {
      var s' := s[..|s| - 1];
      TrimEndSpec(s');
      var r := TrimEnd(s);
      assert s[..|r|] == s'[..|r|];
      assert s[|r|..] == s'[|r|..] + [s[|s| - 1]];
    }
  }

  /**
   * `trim` leaves no whitespace at either end, and every string is its
   * trimmed form with a whitespace run on either side.
   */
  lemma TrimSpec(s: string)
    ensures Trimmed(Trim(s))
    ensures var k := |s| - |TrimStart(s)|;
            k + |Trim(s)| <= |s| && s[k..k + |Trim(s)|] == Trim(s)
            && AllWs(s[..k]) && AllWs(s[k + |Trim(s)|..])
  {
    var u := TrimStart(s);
    TrimStartSpec(s);
    TrimEndSpec(u);
    InfixOfSuffixPrefix(s, u, TrimEnd(u));
  }

  /** A prefix `r` of a suffix `u` of `s` sits in `s` between the two dropped parts. */
  lemma InfixOfSuffixPrefix(s: string, u: string, r: string)
    requires |u| <= |s| && u == s[|s| - |u|..] && AllWs(s[..|s| - |u|]) && (u == [] || !IsWs(u[0]))
    requires |r| <= |u| && r == u[..|r|] && AllWs(u[|r|..]) && (r == [] || !IsWs(r[|r| - 1]))
    ensures Trimmed(r)
    ensures var k := |s| - |u|;
            k + |r| <= |s| && s[k..k + |r|] == r && AllWs(s[..k]) && AllWs(s[k + |r|..])
  {
    var k := |s| - |u|;
    assert s[k..k + |r|] == r;
    assert s[k + |r|..] == u[|r|..];
  }

  lemma {:induction false} TrimStartOfPadded(w: string, m: string)
    requires AllWs(w) && (m == [] || !IsWs(m[0]))
    ensures TrimStart(w + m) == m
  {
    if w == [] {
      assert w + m == m;
    } else {
      assert (w + m)[1..] == w[1..] + m;
      TrimStartOfPadded(w[1..], m);
    }
  }

  lemma {:induction false} TrimEndOfPadded(m: string, w: string)
    requires AllWs(w) && (m == [] || !IsWs(m[|m| - 1]))
    ensures TrimEnd(m + w) == m
    decreases |w|
  {
    if w == [] {
      assert m + w == m;
    } else {
      var w' := w[..|w| - 1];
      assert (m + w)[..|m + w| - 1] == m + w';
      TrimEndOfPadded(m, w');
    }
  }

  /** `trim` returns exactly the part between the surrounding whitespace runs. */
  lemma TrimOfPadded(lead: string, m: string, trail: string)
    requires AllWs(lead) && AllWs(trail) && Trimmed(m)
    ensures Trim(lead + m + trail) == m
  {
    if m == [] {
      var w := lead + trail;
      assert lead + m + trail == w + [];
      TrimStartOfPadded(w, []);
      TrimEndOfPadded([], []);
    } else {
      assert lead + m + trail == lead + (m + trail);
      TrimStartOfPadded(lead, m + trail);
      TrimEndOfPadded(m, trail);
    }
  }

  /** A string with no whitespace at either end is its own trimmed form. */
  lemma TrimOfTrimmed(m: string)
    requires Trimmed(m)
    ensures Trim(m) == m
  {
    var none: string := [];
    assert none + m + none == m;
    TrimOfPadded(none, m, none);
  }

  /** Trimming twice is trimming once. */
  lemma TrimIdempotent(s: string)
    ensures Trim(Trim(s)) == Trim(s)
  {
    TrimSpec(s);
    TrimOfTrimmed(Trim(s));
  }

  /** `trim` yields the empty string exactly on whitespace-only input. */
  lemma TrimEmptyIffAllWs(s: string)
    ensures Trim(s) == [] <==> AllWs(s)
  {
    TrimSpec(s);
    var k := |s| - |TrimStart(s)|;
    assert s == s[..k] + s[k..];
    AllWsConcat(s[..k], s[k..]);
    if AllWs(s) {
      var none: string := [];
      assert s + none + none == s;
      TrimOfPadded(s, none, none);
    }
  }

  lemma AllWsConcat(a: string, b: string)
    ensures AllWs(a + b) <==> AllWs(a) && AllWs(b)
  {
    if AllWs(a) && AllWs(b) {
      forall i | 0 <= i < |a + b|
        ensures IsWs((a + b)[i])
      {
        if i >= |a| {
          assert (a + b)[i] == b[i - |a|];
        }
      }
    }
    if AllWs(a + b) {
      forall i | 0 <= i < |b|
        ensures IsWs(b[i])
      {
        assert (a + b)[|a| + i] == b[i];
      }
      forall i | 0 <= i < |a|
        ensures IsWs(a[i])
      {
        assert (a + b)[i] == a[i];
      }
    }
  }

  /** `s.split(sep)` for a one-character separator: the empty string splits into `[""]`. */
  function Split(s: string, sep: char): (r: seq<string>)
    ensures |r| >= 1
  {
    if s == [] then [""]
    else
      var rest := Split(s[1..], sep);
      if s[0] == sep then [""] + rest
      else [[s[0]] + rest[0]] + rest[1..]
  }

  /** No piece contains the separator. */
  lemma {:induction false} SplitPiecesLackSep(s: string, sep: char)
    ensures forall i :: 0 <= i < |Split(s, sep)| ==> sep !in Split(s, sep)[i]
  {
    if s != [] {
      SplitPiecesLackSep(s[1..], sep);
    }
  }

  /** `parts.join(sep)` */
  function Join(parts: seq<string>, sep: char): string
    requires |parts| >= 1
  {
    if |parts| == 1 then parts[0] else parts[0] + [sep] + Join(parts[1..], sep)
  }

  /** Joining the pieces with the separator gives back the original string. */
  lemma {:induction false} SplitJoin(s: string, sep: char)
    ensures Join(Split(s, sep), sep) == s
  {
    if s != [] {
      var rest := Split(s[1..], sep);
      SplitJoin(s[1..], sep);
      if s[0] == sep {
        assert Split(s, sep)[1..] == rest;
        assert s == [sep] + s[1..];
      } else {
        var r := Split(s, sep);
        assert r[1..] == rest[1..];
        if |rest| == 1 {
          assert s == [s[0]] + rest[0];
        } else {
          assert Join(rest, sep) == rest[0] + [sep] + Join(rest[1..], sep);
          assert s == [s[0]] + s[1..];
        }
      }
    }
  }

  /** A string without the separator is a single piece. */
  lemma {:induction false} SplitWithoutSep(s: string, sep: char)
    requires sep !in s
    ensures Split(s, sep) == [s]
  {
    if s != [] {
      SplitWithoutSep(s[1..], sep);
      assert s == [s[0]] + s[1..];
    }
  }

  /** Splitting around one separator concatenates the pieces of either side. */
  lemma {:induction false} SplitAround(a: string, b: string, sep: char)
    ensures Split(a + [sep] + b, sep) == Split(a, sep) + Split(b, sep)
  {
    var s := a + [sep] + b;
    if a == [] {
      assert s[1..] == b;
    } else {
      assert s[1..] == a[1..] + [sep] + b;
      SplitAround(a[1..], b, sep);
    }
  }
}
