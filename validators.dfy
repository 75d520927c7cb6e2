/**
 * The form's field validators (script.js:44-74) and `validateForm`
 * (script.js:105-108). Each validator maps the field's raw value to its
 * error message, "" when the value passes; each regular expression is
 * written out as a predicate over the characters.
 */
module Validators {
  import opened Wrappers
  import opened Text
  import opened Dates

  predicate IsAsciiLetter(c: char) {
    'a' <= c <= 'z' || 'A' <= c <= 'Z'
  }

  /** `/^[a-zA-Z\s]+$/`: one or more letters and whitespace, nothing else. */
  predicate MatchesName(v: string) {
    |v| >= 1 && forall i :: 0 <= i < |v| ==> IsAsciiLetter(v[i]) || IsWhitespace(v[i])
  }

  /** `/^\d{10}$/`: exactly ten ASCII digits. */
  predicate MatchesMobile(v: string) {
    |v| == 10 && AllDigits(v)
  }

  /** `[^\s@]`: neither whitespace nor '@'. */
  predicate IsEmailChar(c: char) {
    !IsWhitespace(c) && c != '@'
  }

  predicate AllEmailChars(s: string) {
    forall k :: 0 <= k < |s| ==> IsEmailChar(s[k])
  }

  /**
   * `/^[^\s@]+@[^\s@]+\.[^\s@]+$/`: an '@' at i and a '.' at j with at
   * least one character before i, between them and after j, and every
   * other character neither whitespace nor '@'.
   */
  predicate MatchesEmail(v: string) {
    exists i, j :: 0 < i && i + 1 < j && j + 1 < |v| && v[i] == '@' && v[j] == '.'
      && forall k :: 0 <= k < |v| && k != i ==> IsEmailChar(v[k])
  }

  function FullNameError(value: string): string {
    if Trim(value) == [] then "Full Name is required"
    else if !MatchesName(value) then "Full Name must contain only alphabets"
    else ""
  }

  function AddressError(value: string): string {
    if Trim(value) == [] then "Address is required" else ""
  }

  function MobileError(value: string): string {
    if Trim(value) == [] then "Mobile Number is required"
    else if !MatchesMobile(value) then "Mobile Number must be exactly 10 digits"
    else ""
  }

  function EmailError(value: string): string {
    if Trim(value) == [] then "Email ID is required"
    else if !MatchesEmail(value) then "Please enter a valid email address"
    else ""
  }

  /** The gender validator asks whether some radio button is checked. */
  function GenderError(checked: seq<bool>): string {
    if exists i :: 0 <= i < |checked| && checked[i] then "" else "Please select a gender"
  }

  /**
   * The dob validator sees the ISO text of `selectedDate`, or "" when there
   * is none; the ISO text of a date is never empty, so only the absence of a
   * selection fails.
   */
  function DobError(selected: Option<Date>): string {
    if selected.None? then "Date of Birth is required" else ""
  }

  /** What the form holds when it is validated. */
  datatype FormInput = FormInput(
    fullName: string,
    address: string,
    mobile: string,
    email: string,
    genderChecked: seq<bool>,
    dob: Option<Date>)

  datatype Field = FullName | Address | Mobile | Email | Gender | Dob

  /** The order in which `validateForm` visits the fields. */
  const FormFields: seq<Field> := [FullName, Address, Mobile, Email, Gender, Dob]

  /** `validators[field]` applied to the value `validateField` reads for it. */
  function FieldError(input: FormInput, f: Field): string {
    match f
    case FullName => FullNameError(input.fullName)
    case Address => AddressError(input.address)
    case Mobile => MobileError(input.mobile)
    case Email => EmailError(input.email)
    case Gender => GenderError(input.genderChecked)
    case Dob => DobError(input.dob)
  }

  /** `fields.every(field => validateField(field))`. */
  function Every(input: FormInput, fields: seq<Field>): bool
    decreases |fields|
  {
    fields == [] || (FieldError(input, fields[0]) == "" && Every(input, fields[1..]))
  }

  /** The fields `every` actually calls `validateField` on: up to and including the first that fails. */
  function FieldsVisited(input: FormInput, fields: seq<Field>): seq<Field>
    decreases |fields|
  {
    if fields == [] then []
    else if FieldError(input, fields[0]) != "" then [fields[0]]
    else [fields[0]] + FieldsVisited(input, fields[1..])
  }

  function ValidateForm(input: FormInput): bool {
    Every(input, FormFields)
  }

  // ---------------------------------------------------------------------
  // Lemmas
  // ---------------------------------------------------------------------

  /** `every` is true exactly when no field of the list has an error. */
  lemma {:induction false} EveryIff(input: FormInput, fields: seq<Field>)
    ensures Every(input, fields) <==> forall k :: 0 <= k < |fields| ==> FieldError(input, fields[k]) == ""
    decreases |fields|
  {
    if fields != [] {
      EveryIff(input, fields[1..]);
      assert forall k :: 1 <= k < |fields| ==> fields[k] == fields[1..][k - 1];
    }
  }

  /**
   * `every` stops at the first failing field: the visited fields are a
   * prefix of the list, all of them but the last pass, and the last fails
   * unless the whole list passed, in which case every field was visited.
   */
  lemma {:induction false} FieldsVisitedPrefix(input: FormInput, fields: seq<Field>)
    ensures var v := FieldsVisited(input, fields);
      && |v| <= |fields| && v == fields[..|v|]
      && (forall k :: 0 <= k < |v| - 1 ==> FieldError(input, v[k]) == "")
      && (Every(input, fields) ==> v == fields)
      && (!Every(input, fields) ==> |v| >= 1 && FieldError(input, v[|v| - 1]) != "")
    decreases |fields|
  {
    if fields != [] && FieldError(input, fields[0]) == "" {
      FieldsVisitedPrefix(input, fields[1..]);
      var rest := FieldsVisited(input, fields[1..]);
      assert FieldsVisited(input, fields) == [fields[0]] + rest;
      assert fields == [fields[0]] + fields[1..];
    }
  }

  /** `validateForm` holds exactly when all six validators pass. */
  lemma ValidateFormIff(input: FormInput)
    ensures ValidateForm(input) <==> forall f: Field :: FieldError(input, f) == ""
  {
    EveryIff(input, FormFields);
    if ValidateForm(input) {
      forall f: Field
        ensures FieldError(input, f) == ""
      {
        assert FormFields[FieldIndex(f)] == f;
      }
    } else {
      var k :| 0 <= k < |FormFields| && FieldError(input, FormFields[k]) != "";
      var f := FormFields[k];
      assert FieldError(input, f) != "";
    }
  }

  /** The position of a field in FormFields. */
  function FieldIndex(f: Field): (k: int)
    ensures 0 <= k < |FormFields|
  {
    match f
    case FullName => 0
    case Address => 1
    case Mobile => 2
    case Email => 3
    case Gender => 4
    case Dob => 5
  }

  /** A full name passes exactly when it has a letter and only letters and whitespace. */
  lemma FullNameAccepted(value: string)
    ensures FullNameError(value) == "" <==>
      (exists i :: 0 <= i < |value| && IsAsciiLetter(value[i]))
      && forall i :: 0 <= i < |value| ==> IsAsciiLetter(value[i]) || IsWhitespace(value[i])
    ensures FullNameError(value) == "Full Name is required" <==> AllWhitespace(value)
  {
    TrimEmptyIff(value);
    if !AllWhitespace(value) && MatchesName(value) {
      var i :| 0 <= i < |value| && !IsWhitespace(value[i]);
      assert IsAsciiLetter(value[i]);
    }
  }

  /** An address passes exactly when it is not all whitespace. */
  lemma AddressAccepted(value: string)
    ensures AddressError(value) == "" <==> !AllWhitespace(value)
  {
    TrimEmptyIff(value);
  }

  /** A mobile number passes exactly when it is ten ASCII digits, with no surrounding spaces. */
  lemma MobileAccepted(value: string)
    ensures MobileError(value) == "" <==> |value| == 10 && AllDigits(value)
    ensures MobileError(value) == "Mobile Number is required" <==> AllWhitespace(value)
  {
    TrimEmptyIff(value);
    if |value| == 10 && AllDigits(value) {
      assert !IsWhitespace(value[0]);
    }
  }

  /** An email passes exactly when it matches the pattern; blank text gets the "required" message instead. */
  lemma EmailAccepted(value: string)
    ensures EmailError(value) == "" <==> MatchesEmail(value)
    ensures EmailError(value) == "Email ID is required" <==> AllWhitespace(value)
  {
    TrimEmptyIff(value);
    if MatchesEmail(value) {
      var i, j :| 0 < i && i + 1 < j && j + 1 < |value| && value[i] == '@' && value[j] == '.'
        && forall k :: 0 <= k < |value| && k != i ==> IsEmailChar(value[k]);
      assert !IsWhitespace(value[0]);
    }
  }

  /** Any local part, domain and suffix free of whitespace and '@' make a matching address. */
  lemma EmailFromParts(a: string, b: string, c: string)
    requires |a| >= 1 && |b| >= 1 && |c| >= 1
    requires AllEmailChars(a) && AllEmailChars(b) && AllEmailChars(c)
    ensures MatchesEmail(a + "@" + b + "." + c)
  {
    var v := a + "@" + b + "." + c;
    var i, j := |a|, |a| + 1 + |b|;
    assert v[i] == '@' && v[j] == '.';
    forall k | 0 <= k < |v| && k != i
      ensures IsEmailChar(v[k])
    {
      if k < i {
        assert v[k] == a[k];
      } else if k < j {
        assert v[k] == b[k - i - 1];
      } else if k > j {
        assert v[k] == c[k - j - 1];
      }
    }
  }

  /** A matching address splits at its only '@' and at a later '.' into three such parts. */
  lemma EmailToParts(v: string) returns (a: string, b: string, c: string)
    requires MatchesEmail(v)
    ensures v == a + "@" + b + "." + c
    ensures |a| >= 1 && |b| >= 1 && |c| >= 1
    ensures AllEmailChars(a) && AllEmailChars(b) && AllEmailChars(c)
    ensures forall k :: 0 <= k < |v| && v[k] == '@' ==> k == |a|
  {
    var i, j :| 0 < i && i + 1 < j && j + 1 < |v| && v[i] == '@' && v[j] == '.'
      && forall k :: 0 <= k < |v| && k != i ==> IsEmailChar(v[k]);
    a, b, c := v[..i], v[i + 1..j], v[j + 1..];
    var w := a + "@" + b + "." + c;
    forall k | 0 <= k < |v|
      ensures w[k] == v[k]
    {
      if k < i {
        assert w[k] == a[k];
      } else if i < k < j {
        assert w[k] == b[k - i - 1];
      } else if j < k {
        assert w[k] == c[k - j - 1];
      }
    }
    assert w == v;
  }

  /** The gender check passes exactly when some option is checked. */
  lemma GenderAccepted(checked: seq<bool>)
    ensures GenderError(checked) == "" <==> true in checked
  {
    if true in checked {
      var i :| 0 <= i < |checked| && checked[i] == true;
    }
  }

  /** Five digits are too few. */
  lemma MobileTooShort()
    ensures MobileError("12345") == "Mobile Number must be exactly 10 digits"
  {
    TrimOfTrimmed("12345");
  }

  /** Ten digits pass. */
  lemma MobileTenDigits()
    ensures MobileError("9876543210") == ""
  {
    TrimOfTrimmed("9876543210");
    assert AllDigits("9876543210");
  }

  lemma EmailWithSuffix()
    ensures EmailError("a@b.co") == ""
  {
    TrimOfTrimmed("a@b.co");
    EmailFromParts("a", "b", "co");
    assert "a" + "@" + "b" + "." + "co" == "a@b.co";
  }

  /** Without a '.' after the '@' the address is refused. */
  lemma EmailWithoutDot()
    ensures EmailError("a@b") == "Please enter a valid email address"
  {
    TrimOfTrimmed("a@b");
  }

  /** A digit in a name is refused. */
  lemma FullNameWithDigit()
    ensures FullNameError("John3") == "Full Name must contain only alphabets"
  {
    TrimOfTrimmed("John3");
    assert !IsAsciiLetter("John3"[4]) && !IsWhitespace("John3"[4]);
  }
}
