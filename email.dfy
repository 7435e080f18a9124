/**
 * `isValidEmail` and `validateMultipleEmails` (server.js). The regular
 * expression `^[^\s@]+@[^\s@]+\.[^\s@]+$` is modelled by its matching
 * semantics: an anchored match is a choice of the position of the `@` and of
 * the escaped `.`, with the three runs between them non-empty and free of
 * whitespace and `@`.
 */
module Email {
  import opened Text

  /** The character class `[^\s@]`. */
  predicate AddrChar(c: char) {
    !IsWs(c) && c != '@'
  }

  predicate AddrChars(s: string) {
    forall i :: 0 <= i < |s| ==> AddrChar(s[i])
  }

  /** The pattern matches `s` with its `@` at `at` and its literal `.` at `dot`. */
  predicate MatchesAt(s: string, at: int, dot: int) {
    && 0 < at && at + 1 < dot && dot + 1 < |s|
    && s[at] == '@' && s[dot] == '.'
    && AddrChars(s[..at]) && AddrChars(s[at + 1..dot]) && AddrChars(s[dot + 1..])
  }

  /** `isValidEmail(s)`: the anchored pattern matches somewhere, i.e. matches all of `s`. */
  predicate IsValidEmail(s: string) {
    exists at, dot | 0 <= at < |s| && 0 <= dot < |s| :: MatchesAt(s, at, dot)
  }

  /** A `.` strictly inside `d`: neither its first nor its last character. */
  predicate HasInnerDot(d: string) {
    exists i | 1 <= i <= |d| - 2 :: d[i] == '.'
  }

  /**
   * Splitting at the first `@`: the address is valid iff the local part is
   * non-empty, no part holds whitespace or a further `@`, and the domain has a
   * `.` that is neither its first nor its last character.
   */
  lemma EmailShape(local: string, domain: string)
    requires '@' !in local
    ensures IsValidEmail(local + "@" + domain)
        <==> local != [] && AddrChars(local) && AddrChars(domain) && HasInnerDot(domain)
  {
    if IsValidEmail(local + "@" + domain) {
      EmailShapeOnlyIf(local, domain);
    }
    if local != [] && AddrChars(local) && AddrChars(domain) && HasInnerDot(domain) {
      EmailShapeIf(local, domain);
    }
  }

  lemma EmailShapeOnlyIf(local: string, domain: string)
    requires '@' !in local
    requires IsValidEmail(local + "@" + domain)
    ensures local != [] && AddrChars(local) && AddrChars(domain) && HasInnerDot(domain)
  {
    var s := local + "@" + domain;
    var k := |local|;
    var at, dot :| 0 <= at < |s| && 0 <= dot < |s| && MatchesAt(s, at, dot);
    assert forall i :: 0 <= i < at ==> s[i] != '@' by {
      forall i | 0 <= i < at ensures s[i] != '@' {
        assert s[i] == s[..at][i];
      }
    }
    assert forall i :: 0 <= i < k ==> s[i] != '@' by {
      forall i | 0 <= i < k ensures s[i] != '@' {
        assert s[i] == local[i];
      }
    }
    assert s[k] == '@';
    assert at == k;
    assert s[..k] == local;
    var i := dot - k - 1;
    assert domain[i] == s[dot];
    forall j | 0 <= j < |domain|
      ensures AddrChar(domain[j])
    {
      if j < i {
        assert domain[j] == s[at + 1..dot][j];
      } else if j > i {
        assert domain[j] == s[dot + 1..][j - i - 1];
      }
    }
  }

  lemma EmailShapeIf(local: string, domain: string)
    requires local != [] && AddrChars(local) && AddrChars(domain) && HasInnerDot(domain)
    ensures IsValidEmail(local + "@" + domain)
  {
    var s := local + "@" + domain;
    var k := |local|;
    var i :| 1 <= i <= |domain| - 2 && domain[i] == '.';
    var dot := k + 1 + i;
    assert s[..k] == local;
    assert s[k + 1..dot] == domain[..i];
    assert s[dot + 1..] == domain[i + 1..];
    assert MatchesAt(s, k, dot);
  }

  /** A valid address contains an `@` and no whitespace at all. */
  lemma ValidEmailHasAtAndNoWs(s: string)
    ensures IsValidEmail(s) ==> '@' in s && NoWs(s)
  {
    if IsValidEmail(s) {
      var at, dot :| 0 <= at < |s| && 0 <= dot < |s| && MatchesAt(s, at, dot);
      forall i | 0 <= i < |s|
        ensures !IsWs(s[i])
      {
        if i < at {
          assert s[i] == s[..at][i];
        } else if at < i < dot {
          assert s[i] == s[at + 1..dot][i - at - 1];
        } else if dot < i {
          assert s[i] == s[dot + 1..][i - dot - 1];
        }
      }
    }
  }

  /** `parts.map(email => email.trim())` */
  function TrimEach(parts: seq<string>): (r: seq<string>)
    ensures |r| == |parts|
    ensures forall i :: 0 <= i < |parts| ==> r[i] == Trim(parts[i])
  {
    if parts == [] then [] else [Trim(parts[0])] + TrimEach(parts[1..])
  }

  /** `addresses.every(isValidEmail)` */
  predicate EveryValid(addresses: seq<string>) {
    forall i :: 0 <= i < |addresses| ==> IsValidEmail(addresses[i])
  }

  /** `validateMultipleEmails(s)`: split on `,`, trim every piece, and every piece is valid. */
  predicate ValidateMultipleEmails(emails: string) {
    EveryValid(TrimEach(Split(emails, ',')))
  }

  lemma TrimEachConcat(p: seq<string>, q: seq<string>)
    ensures TrimEach(p + q) == TrimEach(p) + TrimEach(q)
  {
  }

  lemma EveryValidConcat(p: seq<string>, q: seq<string>)
    ensures EveryValid(p + q) <==> EveryValid(p) && EveryValid(q)
  {
    if EveryValid(p) && EveryValid(q) {
      forall i | 0 <= i < |p + q|
        ensures IsValidEmail((p + q)[i])
      {
        if i >= |p| {
          assert (p + q)[i] == q[i - |p|];
        }
      }
    }
    if EveryValid(p + q) {
      forall i | 0 <= i < |p|
        ensures IsValidEmail(p[i])
      {
        assert (p + q)[i] == p[i];
      }
      forall i | 0 <= i < |q|
        ensures IsValidEmail(q[i])
      {
        assert (p + q)[|p| + i] == q[i];
      }
    }
  }

  /** A list is valid iff both lists on either side of a comma are. */
  lemma MultipleEmailsAroundComma(a: string, b: string)
    ensures ValidateMultipleEmails(a + "," + b)
        <==> ValidateMultipleEmails(a) && ValidateMultipleEmails(b)
  {
    assert a + "," + b == a + [','] + b;
    SplitAround(a, b, ',');
    TrimEachConcat(Split(a, ','), Split(b, ','));
    EveryValidConcat(TrimEach(Split(a, ',')), TrimEach(Split(b, ',')));
  }

  /** Without a comma the list is the one trimmed address. */
  lemma SingleAddress(s: string)
    requires ',' !in s
    ensures ValidateMultipleEmails(s) == IsValidEmail(Trim(s))
  {
    SplitWithoutSep(s, ',');
  }

  /** The empty string is no list: `split` turns it into one empty piece. */
  lemma EmptyListRejected()
    ensures !ValidateMultipleEmails("")
  {
    SingleAddress("");
  }

  /** A trailing comma leaves an empty last piece, which is rejected. */
  lemma TrailingCommaRejected(a: string)
    ensures !ValidateMultipleEmails(a + ",")
  {
    EmptyListRejected();
    assert a + "," + "" == a + ",";
    MultipleEmailsAroundComma(a, "");
  }

  /** A leading comma leaves an empty first piece, which is rejected. */
  lemma LeadingCommaRejected(b: string)
    ensures !ValidateMultipleEmails("," + b)
  {
    EmptyListRejected();
    var none: string := [];
    assert none + "," + b == "," + b;
    MultipleEmailsAroundComma(none, b);
  }

  /** Two adjacent commas leave an empty piece between them, which is rejected. */
  lemma DoubledCommaRejected(a: string, b: string)
    ensures !ValidateMultipleEmails(a + ",," + b)
  {
    TrailingCommaRejected(a);
    assert (a + ",") + "," + b == a + ",," + b;
    MultipleEmailsAroundComma(a + ",", b);
  }

  /**
   * Author addresses are trimmed and the submitter address is not: leading
   * whitespace before a valid address passes as an author list and fails as a
   * submitter address.
   */
  lemma AuthorListTrimsSubmitterDoesNot(w: string, e: string)
    requires w != [] && AllWs(w) && IsValidEmail(e) && ',' !in e
    ensures ValidateMultipleEmails(w + e)
    ensures !IsValidEmail(w + e)
  {
    var s := w + e;
    ValidEmailHasAtAndNoWs(e);
    assert Trim(s) == e by {
      assert e != [] && Trimmed(e);
      assert s == w + e + [];
      TrimOfPadded(w, e, []);
    }
    assert ',' !in s by {
      assert forall i :: 0 <= i < |w| ==> w[i] != ',';
    }
    SingleAddress(s);
    ValidEmailHasAtAndNoWs(s);
    assert !NoWs(s) by {
      assert IsWs(s[0]);
    }
  }

  /** The concrete instance: `" a@b.co"`. */
  lemma LeadingSpaceExample()
    ensures ValidateMultipleEmails(" a@b.co")
    ensures !IsValidEmail(" a@b.co")
  {
    var e := "a@b.co";
    assert MatchesAt(e, 1, 3) by {
      assert e[..1] == "a" && e[2..3] == "b" && e[4..] == "co";
    }
    assert AllWs(" ");
    assert " " + e == " a@b.co";
    AuthorListTrimsSubmitterDoesNot(" ", e);
  }
}
