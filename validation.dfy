/** `validateReservation`: the cumulative checks a reservation payload must
    pass, in their fixed order, and the email pattern it uses. */
module Validation {
  import opened Options
  import opened JsText
  import opened Calendar
  import opened Dates

  /** A decoded request body: field name to field text. */
  type Payload = map<string, string>

  const MinLeadDays: int := 2

  const RequiredFields: seq<string> :=
    ["owner-name", "email", "hamster-name", "check-in", "check-out"]

  /** The errors the validator reports, one per message it pushes; a
      lead-time error carries the earliest allowed check-in as printed. */
  datatype ValidationError =
    | Required(field: string)
    | InvalidCheckIn
    | InvalidCheckOut
    | TooSoon(earliest: string)
    | CheckOutNotAfterCheckIn
    | InvalidEmail

  function Message(e: ValidationError): string {
    match e
    case Required(f) => f + " is required."
    case InvalidCheckIn => "Check-in must be a valid date."
    case InvalidCheckOut => "Check-out must be a valid date."
    case TooSoon(earliest) =>
      "Check-in must be at least " + IntToString(MinLeadDays) + " days from today ("
      + earliest + " or later)."
    case CheckOutNotAfterCheckIn => "Check-out must be after check-in."
    case InvalidEmail => "Email must be valid."
  }

  function Messages(es: seq<ValidationError>): (ms: seq<string>)
    ensures |ms| == |es| && forall i :: 0 <= i < |es| ==> ms[i] == Message(es[i])
  {
    seq(|es|, i requires 0 <= i < |es| => Message(es[i]))
  }

  /** `String(data[name] || "")`: an absent field reads as empty. */
  function Field(data: Payload, name: string): string {
    if name in data then data[name] else ""
  }

  // ---------------------------------------------------------------------
  // The email pattern /^[^\s@]+@[^\s@]+\.[^\s@]+$/

  /** `[^\s@]` */
  predicate PlainEmailChar(c: char) {
    !IsWhitespace(c) && c != '@'
  }

  /** `[^\s@]+` */
  predicate PlainRun(s: string) {
    |s| > 0 && forall i :: 0 <= i < |s| ==> PlainEmailChar(s[i])
  }

  function EmailText(local: string, host: string, tld: string): string {
    local + "@" + host + "." + tld
  }

  /** The strings the email pattern matches: three runs of characters other
      than whitespace and `@`, joined by `@` and by `.`. */
  ghost predicate EmailPattern(s: string) {
    exists a, b, c {:trigger EmailText(a, b, c)} ::
      PlainRun(a) && PlainRun(b) && PlainRun(c) && s == EmailText(a, b, c)
  }

  /** A `.` that is neither the first nor the last character. */
  predicate DotInside(s: string) {
    exists j :: 0 < j < |s| - 1 && s[j] == '.'
  }

  predicate NoWhitespace(s: string) {
    forall i :: 0 <= i < |s| ==> !IsWhitespace(s[i])
  }

  /** A direct test for the email pattern: no whitespace, exactly one `@`
      with text before it, and an inner `.` after it. */
  predicate EmailMatches(s: string) {
    && NoWhitespace(s)
    && var parts := Split(s, '@');
       |parts| == 2 && parts[0] != [] && DotInside(parts[1])
  }

  /** The direct test accepts exactly the strings of the pattern. */
  lemma EmailMatchesIffPattern(s: string)
    ensures EmailMatches(s) <==> EmailPattern(s)
  {
    if EmailMatches(s) {
      MatchesHasPattern(s);
    }
    if EmailPattern(s) {
      var a, b, c :| PlainRun(a) && PlainRun(b) && PlainRun(c) && s == EmailText(a, b, c);
      PatternMatches(a, b, c);
    }
  }

  lemma NoWhitespaceSlice(s: string, lo: int, hi: int)
    requires NoWhitespace(s) && 0 <= lo <= hi <= |s|
    ensures NoWhitespace(s[lo..hi])
  {
    assert forall i :: 0 <= i < hi - lo ==> s[lo..hi][i] == s[lo + i];
  }

  lemma NoWhitespaceAppend(x: string, y: string)
    ensures NoWhitespace(x + y) <==> NoWhitespace(x) && NoWhitespace(y)
  {
    if NoWhitespace(x + y) {
      assert x == (x + y)[..|x|] && y == (x + y)[|x|..];
      NoWhitespaceSlice(x + y, 0, |x|);
      NoWhitespaceSlice(x + y, |x|, |x + y|);
    }
  }

  /** A non-empty piece of a text without whitespace and without `@` is a
      run of `[^\s@]`. */
  lemma PlainSlice(t: string, lo: int, hi: int)
    requires NoWhitespace(t) && '@' !in t && 0 <= lo < hi <= |t|
    ensures PlainRun(t[lo..hi])
  {
    forall i | 0 <= i < hi - lo ensures PlainEmailChar(t[lo..hi][i]) {
      assert t[lo..hi][i] == t[lo + i];
    }
  }

  lemma PlainRunParts(x: string)
    requires PlainRun(x)
    ensures NoWhitespace(x) && '@' !in x
  {
  }

  lemma MatchesHasPattern(s: string)
    requires EmailMatches(s)
    ensures EmailPattern(s)
  {
    var parts := Split(s, '@');
    var a, dom := parts[0], parts[1];
    AroundSeparator(s, '@');
    NoWhitespaceSlice(s, 0, |a|);
    NoWhitespaceSlice(s, |a| + 1, |s|);
    PlainSlice(a, 0, |a|);
    assert a[0..|a|] == a;
    var b, c := DomainRuns(dom);
    assert s == EmailText(a, b, c);
  }

  /** A text that splits into two pieces is the first piece, the separator
      and the second piece, and neither piece holds the separator. */
  lemma AroundSeparator(s: string, sep: char)
    requires |Split(s, sep)| == 2
    ensures var parts := Split(s, sep);
      && s == parts[0] + [sep] + parts[1]
      && sep !in parts[0] && sep !in parts[1]
      && parts[0] == s[..|parts[0]|] && parts[1] == s[|parts[0]| + 1..]
  {
    var parts := Split(s, sep);
    JoinOfSplit(s, sep);
    SplitPiecesPlain(s, sep);
    assert parts[1..] == [parts[1]];
  }

  /** A domain without whitespace and `@`, with an inner `.`, is two runs
      of the pattern joined by `.`. */
  lemma DomainRuns(dom: string) returns (b: string, c: string)
    requires NoWhitespace(dom) && '@' !in dom && DotInside(dom)
    ensures PlainRun(b) && PlainRun(c) && dom == b + "." + c
  {
    var j :| 0 < j < |dom| - 1 && dom[j] == '.';
    b, c := dom[..j], dom[j + 1..];
    assert dom == b + "." + c;
    PlainSlice(dom, 0, j);
    PlainSlice(dom, j + 1, |dom|);
  }

  lemma PatternMatches(a: string, b: string, c: string)
    requires PlainRun(a) && PlainRun(b) && PlainRun(c)
    ensures EmailMatches(EmailText(a, b, c))
  {
    var s := EmailText(a, b, c);
    var dom := b + "." + c;
    assert s == a + "@" + dom;
    PlainRunParts(a);
    PlainRunParts(b);
    PlainRunParts(c);
    NoWhitespaceAppend(b, ".");
    NoWhitespaceAppend(b + ".", c);
    NoWhitespaceAppend(a, "@");
    NoWhitespaceAppend(a + "@", dom);
    assert '@' !in dom;
    SplitOfJoin([a, dom], '@');
    assert [a, dom][1..] == [dom];
    assert Join([a, dom], '@') == s;
    assert dom[|b|] == '.';
    assert DotInside(dom);
  }

  // ---------------------------------------------------------------------
  // The validator

  /** One "is required." error per listed field whose text trims to
      nothing, in list order (the `forEach` over the required fields). */
  function MissingFieldErrors(data: Payload, fields: seq<string>): seq<ValidationError> {
    if fields == [] then []
    else
      var name := fields[|fields| - 1];
      MissingFieldErrors(data, fields[..|fields| - 1])
      + (if Trim(Field(data, name)) == [] then [Required(name)] else [])
  }

  /** `addDays(new Date(), MIN_LEAD_DAYS)`, with the clock's calendar day
      given as `today`. */
  function LeadDate(today: int): JsDate {
    AddDays(At(today), MinLeadDays)
  }

  /** The earliest allowed check-in as the lead-time message prints it. */
  function LeadText(today: int): string {
    FormatDateInputValue(LeadDate(today))
  }

  /** The date checks, in the order the validator makes them, given the
      parsed dates, the earliest allowed check-in and its printed form. */
  function DateErrors(checkIn: Option<JsDate>, checkOut: Option<JsDate>, lead: JsDate, earliest: string)
    : seq<ValidationError>
  {
    CheckInErrors(checkIn) + CheckOutErrors(checkOut) + LeadErrors(checkIn, lead, earliest)
    + OrderErrors(checkIn, checkOut)
  }

  function CheckInErrors(checkIn: Option<JsDate>): seq<ValidationError> {
    if checkIn.None? then [InvalidCheckIn] else []
  }

  function CheckOutErrors(checkOut: Option<JsDate>): seq<ValidationError> {
    if checkOut.None? then [InvalidCheckOut] else []
  }

  function LeadErrors(checkIn: Option<JsDate>, lead: JsDate, earliest: string): seq<ValidationError> {
    if checkIn.Some? && Before(checkIn.value, lead) then [TooSoon(earliest)] else []
  }

  function OrderErrors(checkIn: Option<JsDate>, checkOut: Option<JsDate>): seq<ValidationError> {
    if checkIn.Some? && checkOut.Some? && NotAfter(checkOut.value, checkIn.value)
    then [CheckOutNotAfterCheckIn] else []
  }

  function EmailErrors(email: string): seq<ValidationError> {
    if email != [] && !EmailMatches(email) then [InvalidEmail] else []
  }

  /** Every error `validateReservation(data)` reports on the calendar day
      `today`, in order. */
  function ValidationErrors(data: Payload, today: int): seq<ValidationError> {
    MissingFieldErrors(data, RequiredFields)
    + DateErrors(ParseDateValue(Field(data, "check-in")),
                 ParseDateValue(Field(data, "check-out")), LeadDate(today), LeadText(today))
    + EmailErrors(Field(data, "email"))
  }

  lemma TakeAll<T>(s: seq<T>)
    ensures s[..|s|] == s
  {
  }

  lemma MessagesAppend(a: seq<ValidationError>, b: seq<ValidationError>)
    ensures Messages(a + b) == Messages(a) + Messages(b)
  {
  }

  /** Reporting one more error adds its message at the end. */
  lemma MessagesPush(a: seq<ValidationError>, e: ValidationError)
    ensures Messages(a + [e]) == Messages(a) + [Message(e)]
  {
    MessagesAppend(a, [e]);
    assert Messages([e]) == [Message(e)];
  }

  /** Reporting at most one more error: its message, if any, is pushed. */
  lemma MessagesStep(reported: seq<ValidationError>, segment: seq<ValidationError>, errors: seq<string>)
    requires errors == Messages(reported) && |segment| <= 1
    ensures Messages(reported + segment)
      == errors + (if segment == [] then [] else [Message(segment[0])])
  {
    if segment == [] {
      assert reported + segment == reported;
    } else {
      assert segment == [segment[0]];
      MessagesPush(reported, segment[0]);
    }
  }

  /** The date checks of `validateReservation`, in order, given the parsed
      check-in and check-out, the earliest allowed check-in and its printed
      form. */
  method CheckDates(checkInDate: Option<JsDate>, checkOutDate: Option<JsDate>, leadDate: JsDate,
                    earliest: string)
    returns (errors: seq<string>)
    ensures errors == Messages(DateErrors(checkInDate, checkOutDate, leadDate, earliest))
  {
    var parsed := CheckParsed(checkInDate, checkOutDate);
    var compared := CheckCompared(checkInDate, checkOutDate, leadDate, earliest);
    errors := parsed + compared;
    var p := CheckInErrors(checkInDate) + CheckOutErrors(checkOutDate);
    var c := LeadErrors(checkInDate, leadDate, earliest) + OrderErrors(checkInDate, checkOutDate);
    MessagesAppend(p, c);
    assert DateErrors(checkInDate, checkOutDate, leadDate, earliest) == p + c;
  }

  /** The "must be a valid date" checks: check-in, then check-out. */
  method CheckParsed(checkInDate: Option<JsDate>, checkOutDate: Option<JsDate>)
    returns (errors: seq<string>)
    ensures errors == Messages(CheckInErrors(checkInDate) + CheckOutErrors(checkOutDate))
  {
    errors := [];
    MessagesStep([], CheckInErrors(checkInDate), errors);
    if checkInDate.None? {
      errors := errors + [Message(InvalidCheckIn)];
    }
    ghost var reported := CheckInErrors(checkInDate);
    assert [] + reported == reported;
    MessagesStep(reported, CheckOutErrors(checkOutDate), errors);
    if checkOutDate.None? {
      errors := errors + [Message(InvalidCheckOut)];
    }
  }

  /** The comparisons of the parsed dates: the lead time, then the order of
      check-in and check-out. */
  method CheckCompared(checkInDate: Option<JsDate>, checkOutDate: Option<JsDate>, leadDate: JsDate,
                       earliest: string)
    returns (errors: seq<string>)
    ensures errors == Messages(LeadErrors(checkInDate, leadDate, earliest)
                               + OrderErrors(checkInDate, checkOutDate))
  {
    errors := [];
    MessagesStep([], LeadErrors(checkInDate, leadDate, earliest), errors);
    if checkInDate.Some? && Before(checkInDate.value, leadDate) {
      errors := errors + [Message(TooSoon(earliest))];
    }
    ghost var reported := LeadErrors(checkInDate, leadDate, earliest);
    assert [] + reported == reported;
    MessagesStep(reported, OrderErrors(checkInDate, checkOutDate), errors);
    if checkInDate.Some? && checkOutDate.Some? && NotAfter(checkOutDate.value, checkInDate.value) {
      errors := errors + [Message(CheckOutNotAfterCheckIn)];
    }
  }

  /** The required-field checks of `validateReservation`, in list order. */
  method CheckRequired(data: Payload) returns (errors: seq<string>)
    ensures errors == Messages(MissingFieldErrors(data, RequiredFields))
  {
    errors := [];
    ghost var reported: seq<ValidationError> := [];
    for i := 0 to |RequiredFields|
      invariant reported == MissingFieldErrors(data, RequiredFields[..i])
      invariant errors == Messages(reported)
    {
      var fieldName := RequiredFields[i];
      assert RequiredFields[..i + 1][..i] == RequiredFields[..i];
      if Trim(Field(data, fieldName)) == [] {
        MessagesPush(reported, Required(fieldName));
        errors := errors + [Message(Required(fieldName))];
        reported := reported + [Required(fieldName)];
      }
    }
    TakeAll(RequiredFields);
  }

  /** `validateReservation(data)`, with the clock's calendar day given as
      `today`: the messages of ValidationErrors, in order. */
  method ValidateReservation(data: Payload, today: int) returns (errors: seq<string>)
    ensures errors == Messages(ValidationErrors(data, today))
  {
    errors := CheckRequired(data);
    var checkInDate := ParseDateValue(Field(data, "check-in"));
    var checkOutDate := ParseDateValue(Field(data, "check-out"));
    var leadDate := AddDays(At(today), MinLeadDays);
    var dateErrors := CheckDates(checkInDate, checkOutDate, leadDate,
                                 FormatDateInputValue(leadDate));
    ghost var missing := MissingFieldErrors(data, RequiredFields);
    ghost var reported := missing
      + DateErrors(checkInDate, checkOutDate, leadDate, FormatDateInputValue(leadDate));
    MessagesAppend(missing, reported[|missing|..]);
    assert missing + reported[|missing|..] == reported;
    errors := errors + dateErrors;
    var email := Field(data, "email");
    MessagesStep(reported, EmailErrors(email), errors);
    if email != [] && !EmailMatches(email) {
      errors := errors + [Message(InvalidEmail)];
    }
    assert ValidationErrors(data, today) == reported + EmailErrors(email);
  }
}
