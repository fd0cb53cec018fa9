/**
 * Validation of a report request before any job is created: required
 * credentials, the MM/DD/YYYY shape of both dates, and their order.
 */
module Validation {
  import opened Wrappers

  /** The request fields the validator looks at; None when a field is absent. */
  datatype Payload = Payload(
    username: Option<string>,
    password: Option<string>,
    startDate: Option<string>,
    endDate: Option<string>)

  /** The validation errors, declared in the order the checks run. */
  datatype Problem = MissingUsername | MissingPassword | BadStartDate | BadEndDate | StartAfterEnd

  /** The message the client is shown for each error. */
  function MessageOf(e: Problem): string {
    match e
    case MissingUsername => "Username is required."
    case MissingPassword => "Password is required."
    case BadStartDate => "Start date must be in MM/DD/YYYY format."
    case BadEndDate => "End date must be in MM/DD/YYYY format."
    case StartAfterEnd => "Start date must be on or before end date."
  }

  /** Different errors are shown with different messages. */
  lemma {:induction false} MessageOfInjective(x: Problem, y: Problem)
    ensures MessageOf(x) == MessageOf(y) <==> x == y
  {
    if x != y {
      assert MessageOf(MissingUsername)[0] == 'U' && MessageOf(MissingPassword)[0] == 'P';
      assert MessageOf(BadStartDate)[0] == 'S' && MessageOf(BadEndDate)[0] == 'E';
      assert MessageOf(StartAfterEnd)[0] == 'S';
      assert MessageOf(BadStartDate)[19] == 'i' && MessageOf(StartAfterEnd)[19] == 'o';
    }
  }

  /** The messages of a list of errors, in the same order: the texts the client receives. */
  function Messages(errors: seq<Problem>): (r: seq<string>)
    ensures |r| == |errors| && forall i :: 0 <= i < |errors| ==> r[i] == MessageOf(errors[i])
  {
    seq(|errors|, i requires 0 <= i < |errors| => MessageOf(errors[i]))
  }

  /** The messages a client receives determine the errors behind them. */
  lemma {:induction false} MessagesDetermineErrors(a: seq<Problem>, b: seq<Problem>)
    ensures Messages(a) == Messages(b) <==> a == b
  {
    if Messages(a) == Messages(b) {
      forall i | 0 <= i < |a|
        ensures a[i] == b[i]
      {
        MessageOfInjective(a[i], b[i]);
      }
    }
  }

  /** Where an error stands in the order the checks run. */
  function Rank(e: Problem): int {
    match e
    case MissingUsername => 0
    case MissingPassword => 1
    case BadStartDate => 2
    case BadEndDate => 3
    case StartAfterEnd => 4
  }

  /** An absent field reads as the empty string. */
  function FieldText(field: Option<string>): string {
    if field.Some? then field.value else ""
  }

  // ---------------------------------------------------------------------------
  // Whitespace stripping

  /** The characters Python's str.strip() removes by default (str.isspace()). */
  predicate IsSpace(c: char) {
    var x := c as int;
    (0x09 <= x <= 0x0D) || (0x1C <= x <= 0x20) || x == 0x85 || x == 0xA0 || x == 0x1680 ||
    (0x2000 <= x <= 0x200A) || x == 0x2028 || x == 0x2029 || x == 0x202F || x == 0x205F || x == 0x3000
  }

  /** s without its leading whitespace. */
  function TrimStart(s: string): (r: string)
    ensures |r| <= |s| && r == s[|s| - |r|..]
    ensures forall i :: 0 <= i < |s| - |r| ==> IsSpace(s[i])
    ensures r == [] || !IsSpace(r[0])
  {
    if s != [] && IsSpace(s[0]) then TrimStart(s[1..]) else s
  }

  /** s without its trailing whitespace. */
  function TrimEnd(s: string): (r: string)
    ensures |r| <= |s| && r == s[..|r|]
    ensures forall i :: |r| <= i < |s| ==> IsSpace(s[i])
    ensures r == [] || !IsSpace(r[|r| - 1])
  {
    if s != [] && IsSpace(s[|s| - 1]) then TrimEnd(s[..|s| - 1]) else s
  }

  /** r is s[a..a + |r|] and everything of s around it is whitespace. */
  ghost predicate KeptBetweenSpaces(s: string, r: string, a: int)
    requires 0 <= a <= |s|
  {
    a + |r| <= |s| && r == s[a..a + |r|] &&
    (forall i :: 0 <= i < a ==> IsSpace(s[i])) &&
    (forall i :: a + |r| <= i < |s| ==> IsSpace(s[i]))
  }

  /**
   * s with whitespace removed at both ends: a slice of s with only
   * whitespace around it, empty exactly when s is all whitespace.
   */
  function Strip(s: string): (r: string)
    ensures |r| <= |s|
    ensures exists a :: 0 <= a <= |s| && KeptBetweenSpaces(s, r, a)
    ensures r == [] <==> forall i :: 0 <= i < |s| ==> IsSpace(s[i])
    ensures r == [] || (!IsSpace(r[0]) && !IsSpace(r[|r| - 1]))
  {
    var t := TrimStart(s);
    if t == [] then
      assert KeptBetweenSpaces(s, t, |s|);
      t
    else
      assert t[0] == s[|s| - |t|];
      var r := TrimEnd(t);
      TrimmedBothEnds(s, t, r);
      r
  }

  /** Trimming the front and then the back of s keeps a slice of s with only whitespace around it. */
  lemma TrimmedBothEnds(s: string, t: string, r: string)
    requires |t| <= |s| && t == s[|s| - |t|..] && forall i :: 0 <= i < |s| - |t| ==> IsSpace(s[i])
    requires |r| <= |t| && r == t[..|r|] && forall i :: |r| <= i < |t| ==> IsSpace(t[i])
    ensures KeptBetweenSpaces(s, r, |s| - |t|)
  {
    var a := |s| - |t|;
    assert forall i :: a + |r| <= i < |s| ==> s[i] == t[i - a];
    assert r == s[a..a + |r|];
  }

  // ---------------------------------------------------------------------------
  // The MM/DD/YYYY pattern

  predicate IsDigit(c: char) { '0' <= c <= '9' }

  function DigitValue(c: char): int
    requires IsDigit(c)
  {
    c as int - '0' as int
  }

  /** Month field: 0 followed by 1-9, or 1 followed by 0-2. */
  predicate MonthField(a: char, b: char) {
    (a == '0' && '1' <= b <= '9') || (a == '1' && '0' <= b <= '2')
  }

  /** Day field: 0 followed by 1-9, 1 or 2 followed by a digit, or 3 followed by 0-1. */
  predicate DayField(a: char, b: char) {
    (a == '0' && '1' <= b <= '9') || ((a == '1' || a == '2') && IsDigit(b)) || (a == '3' && (b == '0' || b == '1'))
  }

  /** The whole text is month/day/year with a four-digit year, alternative by alternative. */
  predicate MatchesDatePattern(s: string) {
    |s| == 10 && MonthField(s[0], s[1]) && s[2] == '/' && DayField(s[3], s[4]) && s[5] == '/' &&
    IsDigit(s[6]) && IsDigit(s[7]) && IsDigit(s[8]) && IsDigit(s[9])
  }

  /** Ten characters, slashes at 2 and 5, digits elsewhere. */
  predicate DateShaped(s: string) {
    |s| == 10 && s[2] == '/' && s[5] == '/' &&
    forall i :: 0 <= i < 10 && i != 2 && i != 5 ==> IsDigit(s[i])
  }

  function Month(s: string): int
    requires DateShaped(s)
  {
    10 * DigitValue(s[0]) + DigitValue(s[1])
  }

  function Day(s: string): int
    requires DateShaped(s)
  {
    10 * DigitValue(s[3]) + DigitValue(s[4])
  }

  function Year(s: string): int
    requires DateShaped(s)
  {
    1000 * DigitValue(s[6]) + 100 * DigitValue(s[7]) + 10 * DigitValue(s[8]) + DigitValue(s[9])
  }

  /** The pattern accepts exactly the digit-shaped texts whose month is 1-12 and whose day is 1-31. */
  lemma {:induction false} DatePatternIff(s: string)
    ensures MatchesDatePattern(s) <==> DateShaped(s) && 1 <= Month(s) <= 12 && 1 <= Day(s) <= 31
  {
    if DateShaped(s) {
      assert IsDigit(s[0]) && IsDigit(s[1]) && IsDigit(s[3]) && IsDigit(s[4]);
      assert IsDigit(s[6]) && IsDigit(s[7]) && IsDigit(s[8]) && IsDigit(s[9]);
    }
    if MatchesDatePattern(s) {
      assert DateShaped(s);
    }
  }

  // ---------------------------------------------------------------------------
  // Calendar dates

  predicate IsLeapYear(y: int) {
    y % 4 == 0 && (y % 100 != 0 || y % 400 == 0)
  }

  function DaysInMonth(m: int, y: int): (d: int)
    requires 1 <= m <= 12
    ensures 28 <= d <= 31
  {
    if m == 2 then (if IsLeapYear(y) then 29 else 28)
    else if m == 4 || m == 6 || m == 9 || m == 11 then 30
    else 31
  }

  /** A pattern-valid date that is also a real date: year 1 or later, day within its month. */
  predicate IsCalendarDate(s: string)
    requires MatchesDatePattern(s)
  {
    DatePatternIff(s);
    1 <= Year(s) && Day(s) <= DaysInMonth(Month(s), Year(s))
  }

  /** a is a later date than b, comparing year, then month, then day. */
  predicate IsAfter(a: string, b: string)
    requires DateShaped(a) && DateShaped(b)
  {
    Year(a) > Year(b) ||
    (Year(a) == Year(b) && (Month(a) > Month(b) || (Month(a) == Month(b) && Day(a) > Day(b))))
  }

  /** A date the parser rejects although it has the MM/DD/YYYY shape. */
  datatype DateRejected = DateRejected(date: string)

  function StartText(p: Payload): string { Strip(FieldText(p.startDate)) }
  function EndText(p: Payload): string { Strip(FieldText(p.endDate)) }

  /** The four field checks, each on its own. */
  /** The stripped username is non-empty, i.e. the username is not all whitespace (see Strip). */
  predicate HasUsername(p: Payload) { Strip(FieldText(p.username)) != [] }
  predicate HasPassword(p: Payload) { FieldText(p.password) != [] }
  predicate StartWellFormed(p: Payload) { MatchesDatePattern(StartText(p)) }
  predicate EndWellFormed(p: Payload) { MatchesDatePattern(EndText(p)) }

  predicate FieldChecksPass(p: Payload) {
    HasUsername(p) && HasPassword(p) && StartWellFormed(p) && EndWellFormed(p)
  }

  /** Both dates are real calendar dates. */
  predicate DatesOnCalendar(p: Payload)
    requires FieldChecksPass(p)
  {
    IsCalendarDate(StartText(p)) && IsCalendarDate(EndText(p))
  }

  /** The start date is after the end date. */
  predicate DatesReversed(p: Payload)
    requires FieldChecksPass(p)
  {
    DatePatternIff(StartText(p));
    DatePatternIff(EndText(p));
    IsAfter(StartText(p), EndText(p))
  }

  /** Each error ranks strictly before every error after it. */
  ghost predicate InCheckOrder(errors: seq<Problem>) {
    forall i, k :: 0 <= i < k < |errors| ==> Rank(errors[i]) < Rank(errors[k])
  }

  /** The outcomes of the four field checks, true for a check that passed. */
  datatype FieldChecks = FieldChecks(hasUsername: bool, hasPassword: bool, startOk: bool, endOk: bool)

  /** The single error e when its check failed, nothing otherwise. */
  function ErrorIf(failed: bool, e: Problem): (r: seq<Problem>)
    ensures |r| <= 1 && (forall x :: x in r <==> failed && x == e)
  {
    if failed then [e] else []
  }

  /** The errors of the two credential checks, in check order. */
  function CredentialErrors(c: FieldChecks): (r: seq<Problem>)
    ensures MissingUsername in r <==> !c.hasUsername
    ensures MissingPassword in r <==> !c.hasPassword
    ensures r == [] <==> c.hasUsername && c.hasPassword
    ensures forall i :: 0 <= i < |r| ==> 0 <= Rank(r[i]) <= 1
    ensures InCheckOrder(r)
  {
    ErrorIf(!c.hasUsername, MissingUsername) + ErrorIf(!c.hasPassword, MissingPassword)
  }

  /** The errors of the two date-shape checks, in check order. */
  function DateErrors(c: FieldChecks): (r: seq<Problem>)
    ensures BadStartDate in r <==> !c.startOk
    ensures BadEndDate in r <==> !c.endOk
    ensures r == [] <==> c.startOk && c.endOk
    ensures forall i :: 0 <= i < |r| ==> 2 <= Rank(r[i]) <= 3
    ensures InCheckOrder(r)
  {
    ErrorIf(!c.startOk, BadStartDate) + ErrorIf(!c.endOk, BadEndDate)
  }

  /** The errors of the failed field checks, in check order. */
  function FieldErrors(c: FieldChecks): (r: seq<Problem>)
    ensures MissingUsername in r <==> !c.hasUsername
    ensures MissingPassword in r <==> !c.hasPassword
    ensures BadStartDate in r <==> !c.startOk
    ensures BadEndDate in r <==> !c.endOk
    ensures StartAfterEnd !in r
    ensures r == [] <==> c.hasUsername && c.hasPassword && c.startOk && c.endOk
    ensures InCheckOrder(r)
  {
    var credentials := CredentialErrors(c);
    var dates := DateErrors(c);
    assert forall x :: x in credentials + dates <==> x in credentials || x in dates;
    credentials + dates
  }

  /** The outcomes of the four field checks on a payload. */
  function ChecksOf(p: Payload): (c: FieldChecks)
    ensures c.hasUsername == HasUsername(p) && c.hasPassword == HasPassword(p)
    ensures c.startOk == StartWellFormed(p) && c.endOk == EndWellFormed(p)
  {
    FieldChecks(HasUsername(p), HasPassword(p), StartWellFormed(p), EndWellFormed(p))
  }

  /**
   * The validation errors, in check order; or, when all four field checks
   * pass but a date is not on the calendar, the date the parser rejects
   * (the start date is parsed first).
   */
  function ValidatePayload(p: Payload): (r: Result<seq<Problem>, DateRejected>)
    ensures r.Failure? <==> FieldChecksPass(p) && !DatesOnCalendar(p)
    ensures r.Failure? ==> r.error.date == if IsCalendarDate(StartText(p)) then EndText(p) else StartText(p)
    ensures r.Success? ==>
      (MissingUsername in r.value <==> !HasUsername(p)) &&
      (MissingPassword in r.value <==> !HasPassword(p)) &&
      (BadStartDate in r.value <==> !StartWellFormed(p)) &&
      (BadEndDate in r.value <==> !EndWellFormed(p)) &&
      (StartAfterEnd in r.value <==> FieldChecksPass(p) && DatesReversed(p))
    ensures r.Success? ==> InCheckOrder(r.value)
    ensures r.Success? && StartAfterEnd in r.value ==> r.value == [StartAfterEnd]
    ensures r == Success([]) <==> FieldChecksPass(p) && DatesOnCalendar(p) && !DatesReversed(p)
  {
    var errors := FieldErrors(ChecksOf(p));
    if errors != [] then Success(errors)
    else if !IsCalendarDate(StartText(p)) then Failure(DateRejected(StartText(p)))
    else if !IsCalendarDate(EndText(p)) then Failure(DateRejected(EndText(p)))
    else if DatesReversed(p) then Success([StartAfterEnd])
    else Success([])
  }
}
