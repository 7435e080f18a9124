/**
 * The decision part of `POST /submit` (server.js): the presence, submitter
 * address, author addresses and word-count checks, in that order, and the
 * row the handler goes on to insert once every check passes.
 */
module Submission {
  import opened Wrappers
  import Email
  import WordCount
  import Decimal

  /** The largest accepted number of words in an abstract. */
  const WordLimit: nat := 350

  /** The deadline stored with every new submission. */
  const Deadline: string := "2024-12-15T23:59:59"

  /** The twelve request-body fields; `None` when the body lacks one. */
  datatype Form = Form(
    submitterName: Option<string>,
    submitterEmail: Option<string>,
    abstractTitle: Option<string>,
    abstractType: Option<string>,
    theme: Option<string>,
    company: Option<string>,
    discipline: Option<string>,
    abstractContent: Option<string>,
    authorNames: Option<string>,
    authorEmails: Option<string>,
    authorPositions: Option<string>,
    authorContact: Option<string>)

  /** The fields in the order the handler tests them. */
  function Fields(f: Form): (fs: seq<Option<string>>)
    ensures |fs| == 12
  {
    [f.submitterName, f.submitterEmail, f.abstractTitle, f.abstractType, f.theme, f.company,
     f.discipline, f.abstractContent, f.authorNames, f.authorEmails, f.authorPositions,
     f.authorContact]
  }

  /** `!x` is false: the field is present and is not the empty string. */
  predicate Given(x: Option<string>) {
    x.Some? && x.value != ""
  }

  predicate AllGiven(f: Form) {
    && Given(f.submitterName) && Given(f.submitterEmail) && Given(f.abstractTitle)
    && Given(f.abstractType) && Given(f.theme) && Given(f.company) && Given(f.discipline)
    && Given(f.abstractContent) && Given(f.authorNames) && Given(f.authorEmails)
    && Given(f.authorPositions) && Given(f.authorContact)
  }

  /** The text of a field; an absent field reads as the empty string. */
  function FieldText(x: Option<string>): string {
    if x.Some? then x.value else ""
  }

  /** The texts of the fields, in the same order. */
  function FieldTexts(f: Form): seq<string> {
    [FieldText(f.submitterName), FieldText(f.submitterEmail), FieldText(f.abstractTitle),
     FieldText(f.abstractType), FieldText(f.theme), FieldText(f.company), FieldText(f.discipline),
     FieldText(f.abstractContent), FieldText(f.authorNames), FieldText(f.authorEmails),
     FieldText(f.authorPositions), FieldText(f.authorContact)]
  }

  /** Why a submission is turned away with status 400. */
  datatype Rejection =
    | MissingField
    | InvalidSubmitterEmail
    | InvalidAuthorEmails
    | AbstractTooLong(wordCount: nat)

  /** The position of the check that produces a rejection. */
  function Rank(e: Rejection): (k: nat)
    ensures k < 4
  {
    match e
    case MissingField => 0
    case InvalidSubmitterEmail => 1
    case InvalidAuthorEmails => 2
    case AbstractTooLong(_) => 3
  }

  /** Whether check number `k` fails, each check judged on its own. */
  predicate Fails(f: Form, k: nat) {
    if k == 0 then !AllGiven(f)
    else if k == 1 then !Email.IsValidEmail(FieldText(f.submitterEmail))
    else if k == 2 then !Email.ValidateMultipleEmails(FieldText(f.authorEmails))
    else k == 3 && WordCount.CountWords(FieldText(f.abstractContent)) > WordLimit
  }

  /**
   * The handler's cascade of early returns. It reports the first check that
   * fails and only that one; nothing is reported when all four pass.
   */
  function FirstFailure(f: Form): (r: Option<Rejection>)
    ensures r.None? <==> forall k | 0 <= k < 4 :: !Fails(f, k)
    ensures r.Some? ==> Fails(f, Rank(r.value)) && forall k | 0 <= k < Rank(r.value) :: !Fails(f, k)
    ensures r.Some? && r.value.AbstractTooLong? ==>
              r.value.wordCount == WordCount.CountWords(FieldText(f.abstractContent))
  {
    if !AllGiven(f) then assert Fails(f, 0); Some(MissingField)
    else if !Email.IsValidEmail(f.submitterEmail.value) then
      assert Fails(f, 1); Some(InvalidSubmitterEmail)
    else if !Email.ValidateMultipleEmails(f.authorEmails.value) then
      assert Fails(f, 2); Some(InvalidAuthorEmails)
    else
      var wordCount := WordCount.CountWords(f.abstractContent.value);
      if wordCount > WordLimit then assert Fails(f, 3); Some(AbstractTooLong(wordCount)) else None
  }

  /** A field is missing exactly when it is absent or the empty string; whitespace is not missing. */
  lemma MissingIffAbsentOrEmpty(f: Form)
    ensures FirstFailure(f) == Some(MissingField) <==> None in Fields(f) || Some("") in Fields(f)
  {
  }

  /** The 400 response body for each rejection. */
  function Message(e: Rejection): string {
    match e
    case MissingField => "Error: All fields are required."
    case InvalidSubmitterEmail => "Error: Invalid submitter email address."
    case InvalidAuthorEmails => "Error: One or more author email addresses are invalid."
    case AbstractTooLong(n) =>
      "Error: Abstract exceeds the 350-word limit. Current word count: " + Decimal.Render(n) + "."
  }

  /** The message lengths differ between kinds: 31, 39 and 54 characters, and over 64 for the count. */
  lemma MessageLength(e: Rejection)
    ensures |Message(e)| == match e
      case MissingField => 31
      case InvalidSubmitterEmail => 39
      case InvalidAuthorEmails => 54
      case AbstractTooLong(n) => 65 + |Decimal.Render(n)|
  {
  }

  /** Different rejections have different messages; in particular the message names the count. */
  lemma MessagesDistinct(d: Rejection, e: Rejection)
    ensures Message(d) == Message(e) ==> d == e
  {
    if Message(d) == Message(e) {
      MessageLength(d);
      MessageLength(e);
      if d.AbstractTooLong? && e.AbstractTooLong? {
        var prefix := "Error: Abstract exceeds the 350-word limit. Current word count: ";
        var md, me := Decimal.Render(d.wordCount), Decimal.Render(e.wordCount);
        assert prefix + md + "." == prefix + me + ".";
        assert |md| == |me|;
        assert md == (prefix + md + ".")[|prefix|..|prefix| + |md|];
        assert me == (prefix + me + ".")[|prefix|..|prefix| + |me|];
        Decimal.RenderInjective(d.wordCount, e.wordCount);
      }
    }
  }

  /** One stored submission: the twelve fields, the creation time and the deadline. */
  datatype Row = Row(
    submitterName: string,
    submitterEmail: string,
    abstractTitle: string,
    abstractType: string,
    theme: string,
    company: string,
    discipline: string,
    abstractContent: string,
    authorNames: string,
    authorEmails: string,
    authorPositions: string,
    authorContact: string,
    submittedAt: string,
    deadline: string)

  /** The twelve submitted columns of a row, in form order. */
  function Columns(r: Row): seq<string> {
    [r.submitterName, r.submitterEmail, r.abstractTitle, r.abstractType, r.theme, r.company,
     r.discipline, r.abstractContent, r.authorNames, r.authorEmails, r.authorPositions,
     r.authorContact]
  }

  /**
   * `POST /submit` up to the insert: either the rejection answered with 400,
   * or the row handed to the database, stamped with `now` and the deadline.
   */
  function Submit(f: Form, now: string): (r: Result<Row, Rejection>)
    ensures r.Success? <==>
              && AllGiven(f)
              && Email.IsValidEmail(FieldText(f.submitterEmail))
              && Email.ValidateMultipleEmails(FieldText(f.authorEmails))
              && WordCount.CountWords(FieldText(f.abstractContent)) <= WordLimit
    ensures r.Success? ==>
              && Columns(r.value) == FieldTexts(f)
              && r.value.submittedAt == now && r.value.deadline == Deadline
    ensures r.Failure? ==> Some(r.error) == FirstFailure(f)
  {
    match FirstFailure(f)
    case Some(e) => Failure(e)
    case None =>
      Success(Row(
        f.submitterName.value, f.submitterEmail.value, f.abstractTitle.value,
        f.abstractType.value, f.theme.value, f.company.value, f.discipline.value,
        f.abstractContent.value, f.authorNames.value, f.authorEmails.value,
        f.authorPositions.value, f.authorContact.value, now, Deadline))
  }

  /** The count 351 renders as the text "351". */
  lemma Render351()
    ensures Decimal.Render(351) == "351"
  {
    assert Decimal.Render(3) == "3";
    assert Decimal.Render(35) == "35";
  }

  /**
   * The word limit is inclusive: with every other check passing, an abstract
   * of 350 words is accepted and one of 351 is rejected with a message
   * reporting 351.
   */
  lemma WordLimitBoundary(f: Form, now: string)
    requires AllGiven(f)
    requires Email.IsValidEmail(FieldText(f.submitterEmail))
    requires Email.ValidateMultipleEmails(FieldText(f.authorEmails))
    ensures WordCount.Words(FieldText(f.abstractContent)) == 350 ==> Submit(f, now).Success?
    ensures WordCount.Words(FieldText(f.abstractContent)) == 351 ==>
              && Submit(f, now) == Failure(AbstractTooLong(351))
              && Message(AbstractTooLong(351))
                 == "Error: Abstract exceeds the 350-word limit. Current word count: 351."
  {
    var t := FieldText(f.abstractContent);
    WordCount.CountWordsIsWords(t);
    WordCount.NoWordsIffAllWs(t);
    Render351();
  }
}
