/**
 * The decision part of `GET /modify/:id` (server.js): a storage error, a
 * missing row and a passed deadline turn the request away, in that order;
 * otherwise the edit form is rendered from the row. The deadline test is
 * JavaScript's `>` on two strings, a lexicographic comparison, not a date
 * comparison.
 */
module Modification {
  import opened Wrappers
  import Submission

  /** JavaScript's `a < b` on strings: lexicographic order, a proper prefix coming first. */
  predicate StrLess(a: string, b: string) {
    if a == [] then b != []
    else if b == [] then false
    else a[0] < b[0] || (a[0] == b[0] && StrLess(a[1..], b[1..]))
  }

  lemma {:induction false} StrLessIrreflexive(a: string)
    ensures !StrLess(a, a)
  {
    if a != [] {
      StrLessIrreflexive(a[1..]);
    }
  }

  lemma {:induction false} StrLessTransitive(a: string, b: string, c: string)
    requires StrLess(a, b) && StrLess(b, c)
    ensures StrLess(a, c)
  {
    if a != [] && a[0] == b[0] && b[0] == c[0] {
      StrLessTransitive(a[1..], b[1..], c[1..]);
    }
  }

  /** Any two different strings are ordered one way or the other, never both. */
  lemma {:induction false} StrLessTotal(a: string, b: string)
    ensures a == b || StrLess(a, b) || StrLess(b, a)
    ensures !(StrLess(a, b) && StrLess(b, a))
  {
    if a != [] && b != [] && a[0] == b[0] {
      StrLessTotal(a[1..], b[1..]);
      if a[1..] == b[1..] {
        assert a == [a[0]] + a[1..] && b == [b[0]] + b[1..];
      }
    }
  }

  /** A string comes before every proper extension of it. */
  lemma {:induction false} PrefixComesFirst(a: string, ext: string)
    requires ext != []
    ensures StrLess(a, a + ext)
  {
    if a != [] {
      assert (a + ext)[1..] == a[1..] + ext;
      PrefixComesFirst(a[1..], ext);
    }
  }

  /** The result of `db.get`: whether it reported an error, and the row if one was found. */
  datatype Lookup = Lookup(failed: bool, row: Option<Submission.Row>)

  datatype ModifyReply =
    | LookupError
    | NotFound
    | DeadlinePassed
    | EditForm(abstractTitle: string)

  /** The HTTP status of each reply. */
  function Status(r: ModifyReply): nat {
    match r
    case LookupError => 500
    case NotFound => 404
    case DeadlinePassed => 403
    case EditForm(_) => 200
  }

  /** The plain-text body of each refusal; the edit form, an HTML page, has none here. */
  function RefusalText(r: ModifyReply): (t: Option<string>)
    ensures t.None? <==> Status(r) == 200
  {
    match r
    case LookupError => Some("Error: Could not retrieve the submission.")
    case NotFound => Some("Error: Submission not found.")
    case DeadlinePassed => Some("Error: Deadline for modification has passed.")
    case EditForm(_) => None
  }

  /** `GET /modify/:id`, with `now` standing for `new Date().toISOString()`. */
  function Modify(lookup: Lookup, now: string): (r: ModifyReply)
    ensures Status(r) == 500 <==> lookup.failed
    ensures Status(r) == 404 <==> !lookup.failed && lookup.row.None?
    ensures Status(r) == 403 <==> !lookup.failed && lookup.row.Some? && StrLess(lookup.row.value.deadline, now)
    ensures r.EditForm? ==> lookup.row.Some? && r.abstractTitle == lookup.row.value.abstractTitle
  {
    if lookup.failed then LookupError
    else if lookup.row.None? then NotFound
    else if StrLess(lookup.row.value.deadline, now) then DeadlinePassed
    else EditForm(lookup.row.value.abstractTitle)
  }

  /** A found row may be edited exactly while `now` is at or before its deadline, as strings. */
  lemma EditableIffNotPastDeadline(row: Submission.Row, now: string)
    ensures Modify(Lookup(false, Some(row)), now).EditForm?
        <==> now == row.deadline || StrLess(now, row.deadline)
  {
    StrLessTotal(now, row.deadline);
    StrLessIrreflexive(now);
  }

  /** Once the deadline has passed it stays passed for every later `now`. */
  lemma StaysClosed(lookup: Lookup, now: string, later: string)
    requires Modify(lookup, now) == DeadlinePassed
    requires StrLess(now, later)
    ensures Modify(lookup, later) == DeadlinePassed
  {
    StrLessTransitive(lookup.row.value.deadline, now, later);
  }

  /**
   * An ISO timestamp that extends the stored deadline, such as the deadline's
   * own last second with milliseconds and a zone appended, is already past it.
   */
  lemma ExtendedDeadlineRejected(row: Submission.Row, ext: string)
    requires ext != []
    ensures Modify(Lookup(false, Some(row)), row.deadline + ext) == DeadlinePassed
  {
    PrefixComesFirst(row.deadline, ext);
  }

  /** The deadline every submission receives, against two ISO times of its last seconds. */
  lemma DeadlineExamples(row: Submission.Row)
    requires row.deadline == Submission.Deadline
    ensures Modify(Lookup(false, Some(row)), "2024-12-15T23:59:59.123Z") == DeadlinePassed
    ensures Modify(Lookup(false, Some(row)), "2024-12-15T23:59:58.999Z").EditForm?
  {
    assert "2024-12-15T23:59:59.123Z" == Submission.Deadline + ".123Z";
    ExtendedDeadlineRejected(row, ".123Z");
    var early := "2024-12-15T23:59:58.999Z";
    assert early == "2024-12-15T23:59:5" + ("8.999Z");
    assert Submission.Deadline == "2024-12-15T23:59:5" + "9";
    CommonPrefixThenLess("2024-12-15T23:59:5", "8.999Z", "9");
    EditableIffNotPastDeadline(row, early);
  }

  lemma {:induction false} CommonPrefixThenLess(p: string, a: string, b: string)
    requires a != [] && b != [] && a[0] < b[0]
    ensures StrLess(p + a, p + b)
  {
    if p != [] {
      assert (p + a)[1..] == p[1..] + a;
      assert (p + b)[1..] == p[1..] + b;
      CommonPrefixThenLess(p[1..], a, b);
    }
  }
}
