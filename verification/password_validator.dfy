/** The password-strength rule and its message formatter
    (src/app/validators/password.validator.ts). */
module PasswordValidator {
  import opened Common
  import Text

  const RequiredLength: nat := 6

  /** The value stored under the `minLength` key. */
  datatype MinLengthError = MinLengthError(requiredLength: nat, actualLength: nat)

  /** A `ValidationErrors` object, restricted to the keys the formatter
      reads. `required` comes from Angular's `Validators.required`, never
      from the strength rule. Keys the formatter does not read are not
      represented: an object holding only such keys is a value with every
      field unset. */
  datatype ValidationErrors = ValidationErrors(
    required: bool,
    minLength: Option<MinLengthError>,
    noUppercase: bool,
    noLowercase: bool,
    noNumber: bool)

  /** The three character classes the rule searches for. */
  datatype CharClass = Uppercase | Lowercase | Number {
    predicate Matches(c: char) {
      match this
      case Uppercase => IsUpper(c)
      case Lowercase => IsLower(c)
      case Number => IsDigit(c)
    }
  }

  /** Some character of `s` is in class `k`. */
  ghost predicate Occurs(k: CharClass, s: string) {
    exists i :: 0 <= i < |s| && k.Matches(s[i])
  }

  /** `/[A-Z]/.test(s)` and its two siblings: a left-to-right scan. */
  function Test(k: CharClass, s: string): (found: bool)
    ensures found <==> Occurs(k, s)
  {
    if |s| == 0 then false
    else if k.Matches(s[0]) then true
    else
      var found := Test(k, s[1..]);
      assert found <==> Occurs(k, s) by {
        if Occurs(k, s) {
          var i :| 0 <= i < |s| && k.Matches(s[i]);
          assert i > 0 && k.Matches(s[1..][i - 1]);
        }
      }
      found
  }

  /** A password is strong when it has at least six characters and at
      least one uppercase letter, one lowercase letter and one digit. */
  ghost predicate Strong(s: string) {
    |s| >= RequiredLength && Occurs(Uppercase, s) && Occurs(Lowercase, s) && Occurs(Number, s)
  }

  /** The validator `passwordStrengthValidator()` returns, applied to the
      control's value; `None` is `null`. A `null` or `undefined` control
      value behaves as the empty string. */
  function Strength(value: string): (r: Option<ValidationErrors>)
    ensures |value| == 0 ==> r.None?
    ensures |value| > 0 ==> (r.None? <==> Strong(value))
    ensures r.Some? ==> !r.value.required
    ensures r.Some? ==> (r.value.minLength.Some? <==> |value| < RequiredLength)
    ensures r.Some? && r.value.minLength.Some? ==>
              r.value.minLength.value == MinLengthError(RequiredLength, |value|)
    ensures r.Some? ==> (r.value.noUppercase <==> !Occurs(Uppercase, value))
    ensures r.Some? ==> (r.value.noLowercase <==> !Occurs(Lowercase, value))
    ensures r.Some? ==> (r.value.noNumber <==> !Occurs(Number, value))
  {
    if |value| == 0 then None
    else
      var errors := ValidationErrors(
        false,
        if |value| < RequiredLength then Some(MinLengthError(RequiredLength, |value|)) else None,
        !Test(Uppercase, value),
        !Test(Lowercase, value),
        !Test(Number, value));
      if errors.minLength.Some? || errors.noUppercase || errors.noLowercase || errors.noNumber
      then Some(errors)
      else None
  }

  const RequiredMessage: string := "La contraseña es requerida"
  const MessageHead: string := "La contraseña debe contener: "
  const MinLengthText: string := "mínimo 6 caracteres"
  const UppercaseText: string := "al menos una letra mayúscula"
  const LowercaseText: string := "al menos una letra minúscula"
  const NumberText: string := "al menos un número"

  /** Which of the four rules a set of errors reports. */
  datatype Reported = Reported(minLength: bool, uppercase: bool, lowercase: bool, number: bool) {
    predicate Any() { minLength || uppercase || lowercase || number }
  }

  function ReportedBy(e: ValidationErrors): Reported {
    Reported(e.minLength.Some?, e.noUppercase, e.noLowercase, e.noNumber)
  }

  /** The fragments of the reported rules, in the fixed order the
      formatter pushes them. */
  function Fragments(f: Reported): (r: seq<string>)
    ensures |r| <= 4
    ensures |r| > 0 <==> f.Any()
    ensures forall i :: 0 <= i < |r| ==> r[i] in [MinLengthText, UppercaseText, LowercaseText, NumberText]
  {
    (if f.minLength then [MinLengthText] else [])
    + (if f.uppercase then [UppercaseText] else [])
    + (if f.lowercase then [LowercaseText] else [])
    + (if f.number then [NumberText] else [])
  }

  /** `getPasswordErrorMessage(errors)`. */
  function ErrorMessage(errors: Option<ValidationErrors>): (m: string)
    ensures errors.None? ==> m == ""
    ensures errors.Some? && errors.value.required ==> m == RequiredMessage
    ensures errors.Some? && !errors.value.required ==>
              (m == "" <==> !ReportedBy(errors.value).Any())
  {
    match errors
    case None => ""
    case Some(e) =>
      if e.required then RequiredMessage
      else
        var parts := Fragments(ReportedBy(e));
        if |parts| > 0 then MessageHead + Text.Join(parts) else ""
  }

  /** Reads a message back into the rules it reports: the independent
      reading a user makes of the sentence. */
  function ReadMessage(m: string): Reported {
    if |m| >= |MessageHead| && m[..|MessageHead|] == MessageHead then
      var parts := Text.Split(m[|MessageHead|..]);
      Reported(MinLengthText in parts, UppercaseText in parts, LowercaseText in parts, NumberText in parts)
    else
      Reported(false, false, false, false)
  }

  lemma FragmentsHaveNoSeparator()
    ensures Text.NoSeparator(MinLengthText)
    ensures Text.NoSeparator(UppercaseText)
    ensures Text.NoSeparator(LowercaseText)
    ensures Text.NoSeparator(NumberText)
  {
  }

  lemma FragmentsDistinct()
    ensures MinLengthText != UppercaseText && MinLengthText != LowercaseText && MinLengthText != NumberText
    ensures UppercaseText != LowercaseText && UppercaseText != NumberText
    ensures LowercaseText != NumberText
  {
    assert UppercaseText[20] != LowercaseText[20];
  }

  /** Each fragment is listed exactly when its rule is reported. */
  lemma FragmentListed(f: Reported)
    ensures MinLengthText in Fragments(f) <==> f.minLength
    ensures UppercaseText in Fragments(f) <==> f.uppercase
    ensures LowercaseText in Fragments(f) <==> f.lowercase
    ensures NumberText in Fragments(f) <==> f.number
  {
    FragmentsDistinct();
  }

  /** A formatted list of fragments starts with the fixed head, the rest
      splits on ", " into exactly the fragments in their fixed order, and
      reading it back gives the reported rules. */
  lemma ReadFormatted(f: Reported)
    requires f.Any()
    ensures var m := MessageHead + Text.Join(Fragments(f));
      && m[..|MessageHead|] == MessageHead
      && Text.Split(m[|MessageHead|..]) == Fragments(f)
      && ReadMessage(m) == f
  {
    var parts := Fragments(f);
    FragmentsHaveNoSeparator();
    assert forall i :: 0 <= i < |parts| ==> Text.NoSeparator(parts[i]);
    var m := MessageHead + Text.Join(parts);
    assert m[..|MessageHead|] == MessageHead;
    assert m[|MessageHead|..] == Text.Join(parts);
    Text.SplitJoin(parts);
    FragmentListed(f);
  }

  /** The message names exactly the rules the errors report: reading it
      back recovers every flag, so no two different sets of violations
      share a message. */
  lemma MessageNamesReportedRules(e: ValidationErrors)
    requires !e.required
    ensures ReadMessage(ErrorMessage(Some(e))) == ReportedBy(e)
  {
    if ReportedBy(e).Any() {
      ReadFormatted(ReportedBy(e));
    }
  }

  /** Validator and formatter agree: the message for the rule's own result
      is empty exactly when the rule accepts the value, and so for a
      non-empty value exactly when the password is strong. */
  lemma MessageEmptyIffAccepted(value: string)
    ensures ErrorMessage(Strength(value)) == "" <==> Strength(value).None?
    ensures |value| > 0 ==> (ErrorMessage(Strength(value)) == "" <==> Strong(value))
  {
  }

  /** `required` wins over every other flag. */
  lemma RequiredTakesPriority(e: ValidationErrors)
    requires e.required
    ensures ErrorMessage(Some(e)) == RequiredMessage
    ensures ReadMessage(ErrorMessage(Some(e))) == Reported(false, false, false, false)
  {
    assert |RequiredMessage| < |MessageHead|;
  }

  /** The cases the unit tests pin down: a valid password, one of
      exactly six characters, a short one and a weak one. */
  lemma AcceptsValidExamples()
    ensures Strength("Test123") == None
    ensures Strength("Test12") == None
  {
    assert Uppercase.Matches("Test123"[0]) && Lowercase.Matches("Test123"[1]) && Number.Matches("Test123"[4]);
    assert Uppercase.Matches("Test12"[0]) && Lowercase.Matches("Test12"[1]) && Number.Matches("Test12"[4]);
  }

  lemma ShortExample()
    ensures Strength("Te1") == Some(ValidationErrors(false, Some(MinLengthError(6, 3)), false, false, false))
  {
    assert Uppercase.Matches("Te1"[0]) && Lowercase.Matches("Te1"[1]) && Number.Matches("Te1"[2]);
  }

  lemma WeakExample()
    ensures Strength("test") == Some(ValidationErrors(false, Some(MinLengthError(6, 4)), true, false, true))
  {
    var w := "test";
    assert Lowercase.Matches(w[0]);
    assert forall i :: 0 <= i < |w| ==> w[i] in {'t', 'e', 's'};
  }
}
