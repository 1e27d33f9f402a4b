/** What `validateReservation` promises about the errors it reports: which
    ones, how many, and in which order. */
module ValidationFacts {
  import opened Options
  import opened JsText
  import opened Calendar
  import opened Dates
  import opened Validation

  predicate Distinct(fields: seq<string>) {
    forall i, j :: 0 <= i < j < |fields| ==> fields[i] != fields[j]
  }

  /** The position of the first occurrence of `f` in `fields`. */
  function IndexOf(fields: seq<string>, f: string): (k: nat)
    requires f in fields
    ensures k < |fields| && fields[k] == f
  {
    if fields[0] == f then 0 else 1 + IndexOf(fields[1..], f)
  }

  /** In a list without repetitions a field's position is the one it sits at. */
  lemma {:induction false} IndexOfDistinct(fields: seq<string>, p: int)
    requires Distinct(fields) && 0 <= p < |fields|
    ensures IndexOf(fields, fields[p]) == p
  {
    if p > 0 {
      assert fields[0] != fields[p];
      IndexOfDistinct(fields[1..], p - 1);
    }
  }

  /** The "is required." errors name exactly the listed fields that are
      absent or hold only whitespace. */
  lemma {:induction false} MissingFieldsAreBlank(data: Payload, fields: seq<string>)
    ensures forall e :: e in MissingFieldErrors(data, fields) <==>
      e.Required? && e.field in fields && Blank(Field(data, e.field))
  {
    if fields != [] {
      var init := fields[..|fields| - 1];
      var name := fields[|fields| - 1];
      MissingFieldsAreBlank(data, init);
      TrimEmptyIffBlank(Field(data, name));
      assert fields == init + [name];
    }
  }

  /** Every error of `m` names a field of `fields`, and in the order of
      `fields`. */
  predicate InListOrder(m: seq<ValidationError>, fields: seq<string>) {
    && (forall i :: 0 <= i < |m| ==> m[i].Required? && m[i].field in fields)
    && (forall i, j :: 0 <= i < j < |m| ==>
          IndexOf(fields, m[i].field) < IndexOf(fields, m[j].field))
  }

  /** The "is required." errors follow the order of the list, so, in a list
      without repetitions, each field is reported at most once. */
  lemma {:induction false} MissingFieldsInOrder(data: Payload, fields: seq<string>)
    requires Distinct(fields)
    ensures InListOrder(MissingFieldErrors(data, fields), fields)
  {
    if fields != [] {
      var init := fields[..|fields| - 1];
      var name := fields[|fields| - 1];
      var extra := if Trim(Field(data, name)) == [] then [Required(name)] else [];
      MissingFieldsInOrder(data, init);
      assert fields == init + [name];
      OrderExtends(MissingFieldErrors(data, init), extra, init, name);
    }
  }

  /** Adding at most one error for a field that comes after all the others
      keeps the errors in list order. */
  lemma OrderExtends(m0: seq<ValidationError>, extra: seq<ValidationError>,
                     init: seq<string>, name: string)
    requires Distinct(init + [name]) && InListOrder(m0, init)
    requires extra == [] || extra == [Required(name)]
    ensures InListOrder(m0 + extra, init + [name])
  {
    var fields := init + [name];
    var m := m0 + extra;
    forall f | f in init ensures IndexOf(fields, f) == IndexOf(init, f)
    {
      var p := IndexOf(init, f);
      assert fields[p] == f;
      IndexOfDistinct(fields, p);
    }
    IndexOfDistinct(fields, |fields| - 1);
    forall i | 0 <= i < |m| ensures m[i].Required? && m[i].field in fields {
      if i < |m0| {
        assert m[i] == m0[i];
      } else {
        assert m[i] == Required(name);
      }
    }
    forall i, j | 0 <= i < j < |m|
      ensures IndexOf(fields, m[i].field) < IndexOf(fields, m[j].field)
    {
      assert m[i] == m0[i] && m0[i].field in init;
      if j < |m0| {
        assert m[j] == m0[j] && m0[j].field in init;
      } else {
        assert m[j] == Required(name);
      }
    }
  }

  lemma RequiredFieldsDistinct()
    ensures Distinct(RequiredFields)
  {
  }

  /** Errors that all name a required field, followed by errors that none
      do. */
  lemma RequiredPrefix(m: seq<ValidationError>, rest: seq<ValidationError>)
    requires forall e :: e in m ==> e.Required?
    requires forall e :: e in rest ==> !e.Required?
    ensures forall i :: 0 <= i < |m| ==> (m + rest)[i].Required?
    ensures forall i :: |m| <= i < |m + rest| ==> !(m + rest)[i].Required?
  {
    forall i | |m| <= i < |m + rest| ensures !(m + rest)[i].Required? {
      assert (m + rest)[i] == rest[i - |m|];
    }
  }

  /** The required-field errors come first, then the date errors, then the
      email error. */
  lemma RequiredComeFirst(data: Payload, today: int)
    ensures var errs := ValidationErrors(data, today);
      var k := |MissingFieldErrors(data, RequiredFields)|;
      k <= |errs|
      && (forall i :: 0 <= i < k ==> errs[i].Required?)
      && (forall i :: k <= i < |errs| ==> !errs[i].Required?)
  {
    var m := MissingFieldErrors(data, RequiredFields);
    var d := DateErrors(ParseDateValue(Field(data, "check-in")),
                        ParseDateValue(Field(data, "check-out")), LeadDate(today), LeadText(today));
    var em := EmailErrors(Field(data, "email"));
    assert ValidationErrors(data, today) == m + d + em;
    Regroup(m, d, em);
    MissingFieldsAreBlank(data, RequiredFields);
    DateChecks(ParseDateValue(Field(data, "check-in")),
               ParseDateValue(Field(data, "check-out")), LeadDate(today), LeadText(today));
    RequiredPrefix(m, d + em);
  }

  /** A field is reported as required exactly when it is one of the five
      required fields and is absent or whitespace only. */
  lemma RequiredError(data: Payload, today: int, f: string)
    ensures Required(f) in ValidationErrors(data, today) <==>
      f in RequiredFields && Blank(Field(data, f))
  {
    ErrorsByStage(data, today, Required(f));
    DateChecks(ParseDateValue(Field(data, "check-in")),
               ParseDateValue(Field(data, "check-out")), LeadDate(today), LeadText(today));
    MissingFieldsAreBlank(data, RequiredFields);
  }

  /** What each date check reports, and that a date that fails to parse
      turns off the checks that depend on it. */
  lemma DateChecks(checkIn: Option<JsDate>, checkOut: Option<JsDate>, lead: JsDate, earliest: string)
    ensures var d := DateErrors(checkIn, checkOut, lead, earliest);
      && (InvalidCheckIn in d <==> checkIn.None?)
      && (InvalidCheckOut in d <==> checkOut.None?)
      && (TooSoon(earliest) in d <==> checkIn.Some? && Before(checkIn.value, lead))
      && (CheckOutNotAfterCheckIn in d <==>
            checkIn.Some? && checkOut.Some? && NotAfter(checkOut.value, checkIn.value))
      && (forall e :: e in d ==> !e.Required? && e != InvalidEmail)
      && (forall e :: e in d && e.TooSoon? ==> e == TooSoon(earliest))
  {
    var a, b := CheckInErrors(checkIn), CheckOutErrors(checkOut);
    var c, o := LeadErrors(checkIn, lead, earliest), OrderErrors(checkIn, checkOut);
    assert DateErrors(checkIn, checkOut, lead, earliest) == a + b + c + o;
    InFour(a, b, c, o);
  }

  lemma Regroup<T>(a: seq<T>, b: seq<T>, c: seq<T>)
    ensures a + b + c == a + (b + c)
  {
  }

  /** An element of four sequences laid end to end is in one of them. */
  lemma InFour<T>(a: seq<T>, b: seq<T>, c: seq<T>, d: seq<T>)
    ensures forall e :: e in a + b + c + d <==> e in a || e in b || e in c || e in d
  {
  }

  /** The stage that produced an error can be read off its kind. */
  lemma ErrorsByStage(data: Payload, today: int, e: ValidationError)
    ensures e in ValidationErrors(data, today) <==>
      || e in MissingFieldErrors(data, RequiredFields)
      || e in DateErrors(ParseDateValue(Field(data, "check-in")),
                         ParseDateValue(Field(data, "check-out")), LeadDate(today), LeadText(today))
      || e in EmailErrors(Field(data, "email"))
    ensures e in MissingFieldErrors(data, RequiredFields) ==> e.Required?
    ensures e in EmailErrors(Field(data, "email")) ==> e == InvalidEmail
  {
    MissingFieldsAreBlank(data, RequiredFields);
  }

  /** A check-in or check-out that does not parse is reported as not a valid
      date, and then no lead-time or ordering error mentions it. */
  lemma InvalidDateError(data: Payload, today: int)
    ensures var errs := ValidationErrors(data, today);
      var checkIn := ParseDateValue(Field(data, "check-in"));
      var checkOut := ParseDateValue(Field(data, "check-out"));
      && (InvalidCheckIn in errs <==> checkIn.None?)
      && (InvalidCheckOut in errs <==> checkOut.None?)
      && (checkIn.None? ==> forall e :: e in errs ==> !e.TooSoon? && e != CheckOutNotAfterCheckIn)
      && (checkOut.None? ==> CheckOutNotAfterCheckIn !in errs)
  {
    var checkIn := ParseDateValue(Field(data, "check-in"));
    var checkOut := ParseDateValue(Field(data, "check-out"));
    ErrorsByStage(data, today, InvalidCheckIn);
    ErrorsByStage(data, today, InvalidCheckOut);
    ErrorsByStage(data, today, CheckOutNotAfterCheckIn);
    DateChecks(checkIn, checkOut, LeadDate(today), LeadText(today));
    forall e | e in ValidationErrors(data, today) && e.TooSoon?
      ensures checkIn.Some?
    {
      ErrorsByStage(data, today, e);
    }
  }

  /** With no check-in at all, the validator reports it twice: as required
      and as not a valid date. */
  lemma MissingCheckIn(data: Payload, today: int)
    requires "check-in" !in data
    ensures Required("check-in") in ValidationErrors(data, today)
    ensures InvalidCheckIn in ValidationErrors(data, today)
  {
    RequiredError(data, today, "check-in");
    InvalidDateError(data, today);
  }

  /** The earliest allowed check-in is today plus two days, and the date its
      message prints reads back as that day. */
  lemma LeadDateIsTwoDaysAhead(today: int)
    requires -MaxDays <= today && today + MinLeadDays <= MaxDays
    requires CivilOf(today).year >= 100
    ensures LeadDate(today) == At(today + MinLeadDays)
    ensures ParseDateValue(LeadText(today)) == Some(At(today + MinLeadDays))
  {
    var n := today + MinLeadDays;
    LeadDateShift(today);
    assert LeadText(today) == FormatDateInputValue(At(n));
    YearMonotone(today, n);
    ParseOfFormat(n);
  }

  /** Today's date shifted by the two lead days. */
  lemma LeadDateShift(today: int)
    requires -MaxDays <= today && today + MinLeadDays <= MaxDays
    requires CivilOf(today).year >= 100
    ensures LeadDate(today) == At(today + MinLeadDays)
  {
    AddDaysShifts(today, MinLeadDays);
  }

  /** The lead-time error is reported exactly when check-in parses to a day
      before today plus two days. */
  lemma LeadTimeError(data: Payload, today: int)
    requires -MaxDays <= today && today + MinLeadDays <= MaxDays
    requires CivilOf(today).year >= 100
    ensures var checkIn := ParseDateValue(Field(data, "check-in"));
      TooSoon(LeadText(today)) in ValidationErrors(data, today) <==>
        checkIn.Some? && checkIn.value.At? && checkIn.value.day < today + MinLeadDays
  {
    LeadDateIsTwoDaysAhead(today);
    var e := TooSoon(LeadText(today));
    ErrorsByStage(data, today, e);
    DateChecks(ParseDateValue(Field(data, "check-in")),
               ParseDateValue(Field(data, "check-out")), LeadDate(today), LeadText(today));
  }

  /** The ordering error is reported exactly when both dates parse to days
      and check-out is not after check-in, whatever the lead time. */
  lemma OrderingError(data: Payload, today: int)
    ensures var checkIn := ParseDateValue(Field(data, "check-in"));
      var checkOut := ParseDateValue(Field(data, "check-out"));
      CheckOutNotAfterCheckIn in ValidationErrors(data, today) <==>
        && checkIn.Some? && checkIn.value.At?
        && checkOut.Some? && checkOut.value.At?
        && checkOut.value.day <= checkIn.value.day
  {
    ErrorsByStage(data, today, CheckOutNotAfterCheckIn);
    DateChecks(ParseDateValue(Field(data, "check-in")),
               ParseDateValue(Field(data, "check-out")), LeadDate(today), LeadText(today));
  }

  /** A check-in before the lead date (today plus two, see
      LeadDateIsTwoDaysAhead) and a check-out not after it draw both the
      lead-time and the ordering error, lead time first, between the
      required errors and the email error. */
  lemma TooSoonAndOutOfOrderReported(data: Payload, today: int, lead: int, checkIn: int, checkOut: int)
    requires LeadDate(today) == At(lead)
    requires ParseDateValue(Field(data, "check-in")) == Some(At(checkIn))
    requires ParseDateValue(Field(data, "check-out")) == Some(At(checkOut))
    requires checkOut <= checkIn < lead
    ensures ValidationErrors(data, today)
      == MissingFieldErrors(data, RequiredFields) + [TooSoon(LeadText(today)), CheckOutNotAfterCheckIn]
         + EmailErrors(Field(data, "email"))
  {
    var earliest := LeadText(today);
    calc {
      ValidationErrors(data, today);
    ==
      MissingFieldErrors(data, RequiredFields)
      + DateErrors(Some(At(checkIn)), Some(At(checkOut)), At(lead), earliest)
      + EmailErrors(Field(data, "email"));
    == { BothLateErrors(checkIn, checkOut, lead, earliest); }
      MissingFieldErrors(data, RequiredFields) + [TooSoon(earliest), CheckOutNotAfterCheckIn]
      + EmailErrors(Field(data, "email"));
    }
  }

  /** The date errors of parsed dates that are too soon and out of order. */
  lemma BothLateErrors(checkIn: int, checkOut: int, lead: int, earliest: string)
    requires checkOut <= checkIn < lead
    ensures DateErrors(Some(At(checkIn)), Some(At(checkOut)), At(lead), earliest)
      == [TooSoon(earliest), CheckOutNotAfterCheckIn]
  {
  }

  /** The email error is reported exactly when the email is non-empty and
      does not have the `local@host.tld` shape. */
  lemma EmailError(data: Payload, today: int)
    ensures var email := Field(data, "email");
      InvalidEmail in ValidationErrors(data, today) <==> email != [] && !EmailPattern(email)
  {
    ErrorsByStage(data, today, InvalidEmail);
    DateChecks(ParseDateValue(Field(data, "check-in")),
               ParseDateValue(Field(data, "check-out")), LeadDate(today), LeadText(today));
    EmailMatchesIffPattern(Field(data, "email"));
  }

  /** An email of whitespace only is reported both as required and as
      invalid. */
  lemma BlankEmail(data: Payload, today: int)
    requires Field(data, "email") != [] && Blank(Field(data, "email"))
    ensures Required("email") in ValidationErrors(data, today)
    ensures InvalidEmail in ValidationErrors(data, today)
  {
    var email := Field(data, "email");
    RequiredError(data, today, "email");
    EmailError(data, today);
  }

  /** No date error exactly when both dates parse, check-in is not before the
      lead date and check-out is after check-in. */
  lemma NoDateErrors(checkIn: Option<JsDate>, checkOut: Option<JsDate>, lead: JsDate, earliest: string)
    ensures DateErrors(checkIn, checkOut, lead, earliest) == [] <==>
      && checkIn.Some? && checkOut.Some?
      && !Before(checkIn.value, lead)
      && !NotAfter(checkOut.value, checkIn.value)
  {
    DateChecks(checkIn, checkOut, lead, earliest);
  }

  /** No required-field error exactly when no listed field is blank. */
  lemma NoMissingFields(data: Payload, fields: seq<string>)
    ensures MissingFieldErrors(data, fields) == [] <==>
      forall f :: f in fields ==> !Blank(Field(data, f))
  {
    MissingFieldsAreBlank(data, fields);
    var m := MissingFieldErrors(data, fields);
    if m != [] {
      assert m[0] in m;
    } else {
      forall f | f in fields ensures !Blank(Field(data, f)) {
        assert Required(f) !in m;
      }
    }
  }

  /** A payload is accepted exactly when no required field is blank, both
      dates parse, check-in is not before the lead date, check-out is after
      check-in and the email has the expected shape. */
  lemma AcceptedIff(data: Payload, today: int)
    ensures ValidationErrors(data, today) == [] <==>
      && (forall f :: f in RequiredFields ==> !Blank(Field(data, f)))
      && DateErrors(ParseDateValue(Field(data, "check-in")),
                    ParseDateValue(Field(data, "check-out")), LeadDate(today), LeadText(today)) == []
      && EmailPattern(Field(data, "email"))
  {
    var email := Field(data, "email");
    var m := MissingFieldErrors(data, RequiredFields);
    var d := DateErrors(ParseDateValue(Field(data, "check-in")),
                        ParseDateValue(Field(data, "check-out")), LeadDate(today), LeadText(today));
    NoMissingFields(data, RequiredFields);
    EmailMatchesIffPattern(email);
    assert ValidationErrors(data, today) == m + d + EmailErrors(email);
    if m == [] {
      assert "email" in RequiredFields;
    }
  }

  /** A date text holds a `-`, so it is never blank. */
  lemma DateTextNotBlank(y: string, m: string, d: string)
    ensures !Blank(DateText(y, m, d))
  {
    assert DateText(y, m, d)[|y|] == '-';
  }

  /** The text `formatDateInputValue` prints is never blank. */
  lemma FormattedNotBlank(n: int)
    requires CivilOf(n).year >= 0
    ensures !Blank(FormatDateInputValue(At(n)))
  {
    var c := CivilOf(n);
    FormatIsDateText(n);
    DateTextNotBlank(NatToString(c.year), PadStart(NatToString(c.month), 2, '0'),
                     PadStart(NatToString(c.day), 2, '0'));
  }

  /** The five required fields, each filled in. */
  lemma NoneBlank(data: Payload)
    requires !Blank(Field(data, "owner-name")) && !Blank(Field(data, "email"))
    requires !Blank(Field(data, "hamster-name"))
    requires !Blank(Field(data, "check-in")) && !Blank(Field(data, "check-out"))
    ensures forall f :: f in RequiredFields ==> !Blank(Field(data, f))
  {
  }

  /** A booking whose dates are printed as the form prints them, with
      check-in at least two days ahead and check-out after it, whose names
      are filled in and whose email has the expected shape, is accepted. */
  lemma AcceptsWellFormedBooking(data: Payload, today: int, checkIn: int, checkOut: int,
                                 local: string, host: string, tld: string)
    requires -MaxDays <= today && CivilOf(today).year >= 100
    requires today + MinLeadDays <= checkIn < checkOut <= MaxDays
    requires !Blank(Field(data, "owner-name")) && !Blank(Field(data, "hamster-name"))
    requires PlainRun(local) && PlainRun(host) && PlainRun(tld)
    requires Field(data, "email") == EmailText(local, host, tld)
    requires Field(data, "check-in") == FormatDateInputValue(At(checkIn))
    requires Field(data, "check-out") == FormatDateInputValue(At(checkOut))
    ensures ValidationErrors(data, today) == []
  {
    BookingDatesPass(today, checkIn, checkOut);
    EmailTextPasses(local, host, tld);
    NoneBlank(data);
    AcceptedIff(data, today);
  }

  /** Dates printed as the form prints them, check-in at least two days
      ahead and check-out after it, draw no date error and are not blank. */
  lemma BookingDatesPass(today: int, checkIn: int, checkOut: int)
    requires -MaxDays <= today && CivilOf(today).year >= 100
    requires today + MinLeadDays <= checkIn < checkOut <= MaxDays
    ensures !Blank(FormatDateInputValue(At(checkIn))) && !Blank(FormatDateInputValue(At(checkOut)))
    ensures DateErrors(ParseDateValue(FormatDateInputValue(At(checkIn))),
                       ParseDateValue(FormatDateInputValue(At(checkOut))), LeadDate(today), LeadText(today)) == []
  {
    var inDate := ParseDateValue(FormatDateInputValue(At(checkIn)));
    var outDate := ParseDateValue(FormatDateInputValue(At(checkOut)));
    LeadDateShift(today);
    YearMonotone(today, checkIn);
    YearMonotone(today, checkOut);
    ParseOfFormat(checkIn);
    ParseOfFormat(checkOut);
    FormattedNotBlank(checkIn);
    FormattedNotBlank(checkOut);
    assert !Before(At(checkIn), LeadDate(today)) && !NotAfter(At(checkOut), At(checkIn));
    NoDateErrors(inDate, outDate, LeadDate(today), LeadText(today));
  }

  /** An address built from three runs of the pattern is not blank and
      matches the pattern. */
  lemma EmailTextPasses(local: string, host: string, tld: string)
    requires PlainRun(local) && PlainRun(host) && PlainRun(tld)
    ensures !Blank(EmailText(local, host, tld)) && EmailPattern(EmailText(local, host, tld))
  {
    assert EmailText(local, host, tld)[|local|] == '@';
  }

  /** The Invalid Date counts as a date: as check-in and check-out it draws
      no date error at all. */
  lemma InvalidDatesPass(lead: JsDate, earliest: string)
    ensures DateErrors(Some(InvalidDate), Some(InvalidDate), lead, earliest) == []
  {
    DateChecks(Some(InvalidDate), Some(InvalidDate), lead, earliest);
  }
}
