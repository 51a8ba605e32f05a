/** The Person entity, its per-property validation rules and its CSV class map
    (Models/Person.cs). */
module PersonModel {
  import opened Wrappers
  import opened Calendar

  /** A GUID as its 128-bit value; Guid.Empty is 0. */
  type Guid = n: nat | n < 0x1_0000_0000_0000_0000_0000_0000_0000_0000

  const EmptyGuid: Guid := 0

  /** C# decimal is an exact decimal number, modelled as a real. */
  type Decimal = real

  datatype Person = Person(
    personId: Guid,
    firstName: string,
    lastName: string,
    birthDate: DateOnly,
    income: Decimal,
    balance: Decimal)

  /** The boxed property value a custom validator receives as its Object? argument. */
  datatype Arg = Null | DateArg(date: DateOnly) | Dec(amount: Decimal) | Other

  /** The failure messages of the validators, one constructor per message. */
  datatype Message =
    | NullMessage
    | NotDateMessage
    | TooYoungMessage
    | NotDecimalMessage
    | NegativeMessage
    | TooShortMessage(field: string)
  {
    /** The text of the message. TooShortMessage is the framework's default
        message for [MinLength(1)]. */
    function Text(): string
    {
      match this
      case NullMessage => "Object cannot be null"
      case NotDateMessage => "Object must be DateOnly"
      case TooYoungMessage => "Age must be greater than 18 years"
      case NotDecimalMessage => "Object must be decimal"
      case NegativeMessage => "Number must be at least 0"
      case TooShortMessage(field) =>
        "The field " + field + " must be a string or array type with a minimum length of '1'."
    }
  }

  /** ValidationResult.Success (a null result) or a failure carrying its message. */
  datatype ValidationResult = Success | Failure(message: Message)

  /** The age, in years, a person must have reached. */
  const AdultAge := 18

  /** The minimum length of both name properties. */
  const MinNameLength := 1

  /** A clock reading for which DateTime.AddYears(-18) stays within DateTime's year range. */
  predicate IsClock(today: DateOnly)
  {
    today.year - AdultAge >= MinYear
  }

  /** The latest birth date accepted: today's date with the year moved back 18 years. */
  function Cutoff(today: DateOnly): (c: DateOnly)
    requires IsClock(today)
    ensures c.year == today.year - AdultAge && c.month == today.month
    ensures c.day == today.day || (today.month == 2 && today.day == 29 && c.day == 28 && !IsLeapYear(c.year))
  {
    AddYears(today, -AdultAge)
  }

  /** PersonValidator.ValidateBirthDate: null check, then type check, then
      rejection of a date that comes after the cutoff. */
  function ValidateBirthDate(birthDate: Arg, today: DateOnly): (r: ValidationResult)
    requires IsClock(today)
    ensures birthDate.Null? ==> r == Failure(NullMessage)
    ensures birthDate.Dec? || birthDate.Other? ==> r == Failure(NotDateMessage)
    ensures birthDate.DateArg? ==> (r == Success <==> !Precedes(Cutoff(today), birthDate.date))
    ensures birthDate.DateArg? && r != Success ==> r == Failure(TooYoungMessage)
  {
    match birthDate
    case Null => Failure(NullMessage)
    case Dec(_) => Failure(NotDateMessage)
    case Other => Failure(NotDateMessage)
    case DateArg(d) =>
      if CompareTo(d, Cutoff(today)) > 0 then Failure(TooYoungMessage) else Success
  }

  /** PersonValidator.ValidateNonNegativeDecimal: null check, then type check,
      then rejection of a negative amount. */
  function ValidateNonNegativeDecimal(number: Arg): (r: ValidationResult)
    ensures r == Success <==> number.Dec? && number.amount >= 0.0
    ensures number.Null? ==> r == Failure(NullMessage)
    ensures number.DateArg? || number.Other? ==> r == Failure(NotDecimalMessage)
    ensures number.Dec? && r != Success ==> r == Failure(NegativeMessage)
  {
    if number.Null? then Failure(NullMessage)
    else if !number.Dec? then Failure(NotDecimalMessage)
    else if number.amount < 0.0 then Failure(NegativeMessage)
    else Success
  }

  /** The [MinLength(1)] attribute on a string property. */
  function ValidateMinLength(field: string, value: string): (r: ValidationResult)
    ensures r == Success <==> |value| >= MinNameLength
  {
    if |value| >= MinNameLength then Success
    else Failure(TooShortMessage(field))
  }

  /** The result of every validation attribute of a person, in declaration order. */
  function PropertyResults(p: Person, today: DateOnly): (rs: seq<ValidationResult>)
    requires IsClock(today)
  {
    [ ValidateMinLength("FirstName", p.firstName),
      ValidateMinLength("LastName", p.lastName),
      ValidateBirthDate(DateArg(p.birthDate), today),
      ValidateNonNegativeDecimal(Dec(p.income)),
      ValidateNonNegativeDecimal(Dec(p.balance)) ]
  }

  /** The messages of the failed results, in order. */
  function Failures(results: seq<ValidationResult>): (messages: seq<Message>)
    ensures |messages| <= |results|
    ensures messages == [] <==> forall i :: 0 <= i < |results| ==> results[i] == Success
    ensures forall i :: 0 <= i < |results| && results[i].Failure? ==> results[i].message in messages
  {
    if results == [] then []
    else
      var rest := Failures(results[1..]);
      assert forall i :: 1 <= i < |results| ==> results[i] == results[1..][i - 1];
      match results[0]
      case Success => rest
      case Failure(m) => [m] + rest
  }

  /** The list Validator.TryValidateObject fills when every property is
      validated: the message of each rule the person breaks. */
  function ValidationErrors(p: Person, today: DateOnly): seq<Message>
    requires IsClock(today)
  {
    Failures(PropertyResults(p, today))
  }

  /** Both names are non-empty, the birth date is on or before the cutoff, and
      income and balance are non-negative. */
  predicate IsValidPerson(p: Person, today: DateOnly)
    requires IsClock(today)
  {
    |p.firstName| >= MinNameLength && |p.lastName| >= MinNameLength &&
    !Precedes(Cutoff(today), p.birthDate) &&
    p.income >= 0.0 && p.balance >= 0.0
  }

  /** Validator.TryValidateObject(person, context, results, true): true when
      every validation attribute of every property succeeds. */
  function TryValidateObject(p: Person, today: DateOnly): (ok: bool)
    requires IsClock(today)
    ensures ok <==> IsValidPerson(p, today)
  {
    ValidateMinLength("FirstName", p.firstName) == Success &&
    ValidateMinLength("LastName", p.lastName) == Success &&
    ValidateBirthDate(DateArg(p.birthDate), today) == Success &&
    ValidateNonNegativeDecimal(Dec(p.income)) == Success &&
    ValidateNonNegativeDecimal(Dec(p.balance)) == Success
  }

  /** The object is valid exactly when the list of validation errors it
      fills stays empty. */
  lemma ErrorsEmptyIffValid(p: Person, today: DateOnly)
    requires IsClock(today)
    ensures ValidationErrors(p, today) == [] <==> TryValidateObject(p, today)
  {
    var rs := PropertyResults(p, today);
    assert rs[0] == ValidateMinLength("FirstName", p.firstName);
    assert rs[1] == ValidateMinLength("LastName", p.lastName);
    assert rs[2] == ValidateBirthDate(DateArg(p.birthDate), today);
    assert rs[3] == ValidateNonNegativeDecimal(Dec(p.income));
    assert rs[4] == ValidateNonNegativeDecimal(Dec(p.balance));
  }

  /** A negative income or balance is reported with its own message, whatever
      the other properties hold. */
  lemma NegativeAmountReported(p: Person, today: DateOnly)
    requires IsClock(today)
    requires p.income < 0.0 || p.balance < 0.0
    ensures NegativeMessage in ValidationErrors(p, today)
    ensures !TryValidateObject(p, today)
  {
    var rs := PropertyResults(p, today);
    if p.income < 0.0 {
      assert rs[3] == Failure(NegativeMessage);
    } else {
      assert rs[4] == Failure(NegativeMessage);
    }
  }

  /** A birth date after the cutoff is reported as too young. */
  lemma TooYoungReported(p: Person, today: DateOnly)
    requires IsClock(today)
    requires Precedes(Cutoff(today), p.birthDate)
    ensures TooYoungMessage in ValidationErrors(p, today)
  {
    assert PropertyResults(p, today)[2] == Failure(TooYoungMessage);
  }

  /** A Person left with its default empty first or last name is rejected. */
  lemma DefaultNameRejected(p: Person, today: DateOnly)
    requires IsClock(today)
    requires p.firstName == "" || p.lastName == ""
    ensures |ValidationErrors(p, today)| >= 1
  {
    var rs := PropertyResults(p, today);
    if p.firstName == "" {
      assert rs[0].Failure?;
    } else {
      assert rs[1].Failure?;
    }
  }

  /** The cutoff itself is accepted: a person who turns 18 today is an adult. */
  lemma CutoffAccepted(today: DateOnly)
    requires IsClock(today)
    ensures ValidateBirthDate(DateArg(Cutoff(today)), today) == Success
  {
  }

  /** A person born today is rejected. */
  lemma BornTodayRejected(today: DateOnly)
    requires IsClock(today)
    ensures ValidateBirthDate(DateArg(today), today) == Failure(TooYoungMessage)
  {
  }

  /** Acceptance is downward closed: any date before an accepted one is accepted. */
  lemma BirthDateDownwardClosed(earlier: DateOnly, later: DateOnly, today: DateOnly)
    requires IsClock(today)
    requires Precedes(earlier, later)
    requires ValidateBirthDate(DateArg(later), today) == Success
    ensures ValidateBirthDate(DateArg(earlier), today) == Success
  {
  }

  /** An accepted birth date lies at least 18 calendar years back, and any date
      more than 18 calendar years back is accepted. */
  lemma BirthYearBounds(d: DateOnly, today: DateOnly)
    requires IsClock(today)
    ensures ValidateBirthDate(DateArg(d), today) == Success ==> d.year <= today.year - AdultAge
    ensures d.year < today.year - AdultAge ==> ValidateBirthDate(DateArg(d), today) == Success
  {
  }

  /** A row of the CSV file as CsvHelper reads it: the PersonId column may or
      may not be present. */
  datatype CsvRecord = CsvRecord(
    personIdColumn: Option<Guid>,
    firstName: string,
    lastName: string,
    birthDate: DateOnly,
    income: Decimal,
    balance: Decimal)

  /** PersonMap: every property is mapped by name except PersonId, which is
      ignored, so a record read from a file keeps the default Guid.Empty. */
  function PersonMapRead(rec: CsvRecord): (p: Person)
    ensures p.personId == EmptyGuid
  {
    Person(EmptyGuid, rec.firstName, rec.lastName, rec.birthDate, rec.income, rec.balance)
  }

  /** The PersonId column of a file has no effect on the person read from it. */
  lemma IdColumnIgnored(rec: CsvRecord, column: Option<Guid>)
    ensures PersonMapRead(rec.(personIdColumn := column)) == PersonMapRead(rec)
  {
  }
}
