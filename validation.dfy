/**
 * The form validators (`Validaciones`): e-mail and phone shape, required and length checks,
 * the per-field rule order of `validarCampo` and the whole-form walk of `validarFormulario`.
 */
module Validation {
  import opened Wrappers
  import opened Text
  import opened Sequences

  // ---------------------------------------------------------------- e-mail

  /** A character of the class `[^\s@]`. */
  predicate Plain(c: char) {
    !IsSpace(c) && c != '@'
  }

  predicate AllPlain(t: string) {
    forall k | 0 <= k < |t| :: Plain(t[k])
  }

  /** `t` has a '.' with at least one character on each side. */
  predicate HasInnerDot(t: string) {
    exists j | 0 < j < |t| - 1 :: t[j] == '.'
  }

  /** The first position of `c` in `s`, if any: where the e-mail pattern splits at its '@'. */
  function IndexOfChar(s: string, c: char): (r: Option<nat>)
    ensures r.None? ==> forall k :: 0 <= k < |s| ==> s[k] != c
    ensures r.Some? ==> r.value < |s| && s[r.value] == c && forall k :: 0 <= k < r.value ==> s[k] != c
  {
    if s == [] then None
    else if s[0] == c then Some(0)
    else match IndexOfChar(s[1..], c)
      case None => None
      case Some(k) => Some(k + 1)
  }

  /** `email`: a matcher for `^[^\s@]+@[^\s@]+\.[^\s@]+$` that splits at the first '@'. */
  predicate Email(s: string) {
    match IndexOfChar(s, '@')
    case None => false
    case Some(i) => i > 0 && AllPlain(s[..i]) && AllPlain(s[i + 1..]) && HasInnerDot(s[i + 1..])
  }

  /** The regular expression read literally: three non-empty `[^\s@]+` runs separated by '@' and '.'. */
  ghost predicate EmailPattern(s: string) {
    exists i, j :: 0 < i && i + 1 < j && j + 1 < |s| && s[i] == '@' && s[j] == '.' &&
      AllPlain(s[..i]) && AllPlain(s[i + 1..j]) && AllPlain(s[j + 1..])
  }

  lemma AllPlainSlice(t: string, lo: int, hi: int)
    requires AllPlain(t) && 0 <= lo <= hi <= |t|
    ensures AllPlain(t[lo..hi])
  {
    forall k | 0 <= k < hi - lo ensures Plain(t[lo..hi][k]) {
      assert t[lo..hi][k] == t[lo + k];
    }
  }

  lemma AllPlainConcat(a: string, b: string)
    requires AllPlain(a) && AllPlain(b)
    ensures AllPlain(a + b)
  {
    forall k | 0 <= k < |a + b| ensures Plain((a + b)[k]) {
      if k >= |a| {
        assert (a + b)[k] == b[k - |a|];
      }
    }
  }

  /** Every string the matcher accepts matches the regular expression. */
  lemma EmailSound(s: string)
    requires Email(s)
    ensures EmailPattern(s)
  {
    var i := IndexOfChar(s, '@').value;
    var d := s[i + 1..];
    var j :| 0 < j < |d| - 1 && d[j] == '.';
    assert s[i + 1 + j] == '.';
    assert s[i + 1..i + 1 + j] == d[..j];
    assert s[i + 1 + j + 1..] == d[j + 1..];
    AllPlainSlice(d, 0, j);
    AllPlainSlice(d, j + 1, |d|);
    assert 0 < i && i + 1 < i + 1 + j && i + 1 + j + 1 < |s|;
  }

  /** The first occurrence of `c` is at `i` when `s[i] == c` and no earlier character is `c`. */
  lemma IndexOfCharAt(s: string, c: char, i: int)
    requires 0 <= i < |s| && s[i] == c
    requires forall k :: 0 <= k < i ==> s[k] != c
    ensures IndexOfChar(s, c) == Some(i)
  {
  }

  /** A domain made of two `[^\s@]+` runs around a '.' is one run with an inner dot. */
  lemma DomainShape(s: string, i: int, j: int)
    requires 0 <= i && i + 1 < j && j + 1 < |s| && s[j] == '.'
    requires AllPlain(s[i + 1..j]) && AllPlain(s[j + 1..])
    ensures AllPlain(s[i + 1..]) && HasInnerDot(s[i + 1..])
  {
    var d := s[i + 1..];
    forall k | 0 <= k < |d| ensures Plain(d[k]) {
      if k < j - i - 1 {
        assert d[k] == s[i + 1..j][k];
      } else if k > j - i - 1 {
        assert d[k] == s[j + 1..][k - (j - i)];
      }
    }
    assert d[j - i - 1] == '.';
  }

  /** Every string the regular expression matches is accepted by the matcher. */
  lemma EmailComplete(s: string)
    requires EmailPattern(s)
    ensures Email(s)
  {
    var i, j :| 0 < i && i + 1 < j && j + 1 < |s| && s[i] == '@' && s[j] == '.' &&
      AllPlain(s[..i]) && AllPlain(s[i + 1..j]) && AllPlain(s[j + 1..]);
    forall k | 0 <= k < i ensures s[k] != '@' {
      assert s[k] == s[..i][k];
    }
    IndexOfCharAt(s, '@', i);
    DomainShape(s, i, j);
  }

  /** The matcher accepts exactly the strings the regular expression matches. */
  lemma EmailMatchesPattern(s: string)
    ensures Email(s) <==> EmailPattern(s)
  {
    if Email(s) {
      EmailSound(s);
    }
    if EmailPattern(s) {
      EmailComplete(s);
    }
  }

  /** An accepted address has exactly one '@', with no whitespace anywhere. */
  lemma EmailSingleAt(s: string, k: int)
    requires Email(s) && 0 <= k < |s|
    ensures !IsSpace(s[k])
    ensures s[k] == '@' <==> k == IndexOfChar(s, '@').value
  {
    var i := IndexOfChar(s, '@').value;
    if k < i {
      assert s[k] == s[..i][k];
    } else if k > i {
      assert s[k] == s[i + 1..][k - i - 1];
    }
  }

  /** A plain address passes. */
  lemma EmailAcceptsExample()
    ensures Email("a@b.co")
  {
    var s := "a@b.co";
    IndexOfCharAt(s, '@', 1);
    assert s[2..] == "b.co";
    assert "b.co"[1] == '.';
  }

  /** A domain without a dot, a space and an empty local part are each rejected. */
  lemma EmailRejectsExamples()
    ensures !Email("a@b") && !Email("a b@c.com") && !Email("@b.com")
  {
    IndexOfCharAt("a@b", '@', 1);
    assert "a@b"[2..] == "b";
    var t := "a b@c.com";
    IndexOfCharAt(t, '@', 3);
    assert t[..3][1] == ' ';
    IndexOfCharAt("@b.com", '@', 0);
  }

  // ---------------------------------------------------------------- phone

  /** `s.replace(/\D/g, '')`. */
  function Digits(s: string): string {
    Select(s, IsDigit)
  }

  /** `/^[0-9]{10}$/`. */
  predicate TenDigits(t: string) {
    |t| == 10 && forall k :: 0 <= k < |t| ==> IsDigit(t[k])
  }

  /** `telefono`. */
  predicate Phone(s: string) {
    TenDigits(Digits(s))
  }

  /** A phone number is valid exactly when it holds ten digits, whatever else it holds. */
  lemma PhoneIff(s: string)
    ensures Phone(s) <==> Count(s, IsDigit) == 10
  {
    SelectCount(s, IsDigit);
    SelectAllSatisfy(s, IsDigit);
  }

  /** Separators (anything but a digit) can be added anywhere without changing the verdict. */
  lemma PhoneIgnoresSeparators(a: string, c: char, b: string)
    requires !IsDigit(c)
    ensures Phone(a + [c] + b) <==> Phone(a + b)
  {
    SelectConcat(a + [c], b, IsDigit);
    SelectConcat(a, [c], IsDigit);
    SelectConcat(a, b, IsDigit);
    assert Select([c], IsDigit) == [] by {
      assert [c][1..] == [];
    }
    assert Digits(a + [c] + b) == Digits(a) + Digits(b);
    assert Digits(a + b) == Digits(a) + Digits(b);
  }

  predicate AllDigits(s: string) {
    forall k :: 0 <= k < |s| ==> IsDigit(s[k])
  }

  /** Three groups of digits joined by dashes are accepted exactly when they hold ten digits together. */
  lemma PhoneDashed(a: string, b: string, c: string)
    requires AllDigits(a) && AllDigits(b) && AllDigits(c)
    ensures Phone(a + "-" + b + "-" + c) <==> |a| + |b| + |c| == 10
  {
    PhoneIgnoresSeparators(a + b, '-', c);
    PhoneIgnoresSeparators(a, '-', b + "-" + c);
    assert a + "-" + (b + "-" + c) == a + "-" + b + "-" + c;
    assert a + (b + "-" + c) == a + b + "-" + c;
    var plain := a + b + c;
    forall k | 0 <= k < |plain| ensures IsDigit(plain[k]) {
      if k < |a| {
        assert plain[k] == a[k];
      } else if k < |a| + |b| {
        assert plain[k] == b[k - |a|];
      } else {
        assert plain[k] == c[k - |a| - |b|];
      }
    }
    SelectEverything(plain, IsDigit);
  }

  lemma PhoneAcceptsDashes()
    ensures Phone("555-123-4567")
  {
    PhoneDashed("555", "123", "4567");
    assert "555" + "-" + "123" + "-" + "4567" == "555-123-4567";
  }

  /** Five digits are too few. */
  lemma PhoneRejectsShort()
    ensures !Phone("12345")
  {
    assert |Digits("12345")| <= 5;
  }

  // ---------------------------------------------------------------- required, lengths

  /** `requerido`: not `null`/`undefined` (`None`) and not blank after trimming. */
  predicate Required(v: Option<string>) {
    v.Some? && Trim(v.value) != ""
  }

  /** A value is present exactly when it has a character that is not whitespace. */
  lemma RequiredIff(v: Option<string>)
    ensures Required(v) <==> v.Some? && exists k :: 0 <= k < |v.value| && !IsSpace(v.value[k])
  {
    if v.Some? {
      TrimEmptyIff(v.value);
    }
  }

  /** `longitudMinima`: an empty value is falsy and fails. */
  predicate MinLength(s: string, min: int) {
    s != "" && |s| >= min
  }

  /** `longitudMaxima`: an empty value is falsy and fails. */
  predicate MaxLength(s: string, max: int) {
    s != "" && |s| <= max
  }

  /** An empty value fails both length checks, whatever the bound; a non-empty one is compared by length. */
  lemma LengthChecks(s: string, min: int, max: int)
    ensures s == "" ==> !MinLength(s, min) && !MaxLength(s, max)
    ensures s != "" ==> (MinLength(s, min) <==> |s| >= min) && (MaxLength(s, max) <==> |s| <= max)
    ensures s != "" && min <= max ==> (MinLength(s, min) && MaxLength(s, max) <==> min <= |s| <= max)
  {
  }

  // ---------------------------------------------------------------- fields and forms

  /**
   * A form control as `validarCampo` reads it: its value, its `type`, whether it carries
   * `required`, and its `minLength` / `maxLength` (0 or negative when absent).
   */
  datatype Field = Field(value: string, kind: string, required: bool, minLength: int, maxLength: int)

  datatype FieldError = Missing | BadEmail | BadPhone | TooShort(min: int) | TooLong(max: int)

  /** The text shown under the field. */
  function Message(e: FieldError): string {
    match e
    case Missing => "Este campo es obligatorio"
    case BadEmail => "Ingresa un correo electrónico válido"
    case BadPhone => "Ingresa un teléfono válido de 10 dígitos"
    case TooShort(min) => "Mínimo " + IntText(min) + " caracteres"
    case TooLong(max) => "Máximo " + IntText(max) + " caracteres"
  }

  /** `validarCampo`: the first failing check, or `None` (`null`) when all pass. */
  function ValidateField(f: Field): Option<FieldError> {
    if f.required && !Required(Some(f.value)) then Some(Missing)
    else if f.value != "" && f.kind == "email" && !Email(f.value) then Some(BadEmail)
    else if f.value != "" && f.kind == "tel" && !Phone(f.value) then Some(BadPhone)
    else if f.value != "" && f.minLength > 0 && !MinLength(f.value, f.minLength) then Some(TooShort(f.minLength))
    else if f.value != "" && f.maxLength > 0 && !MaxLength(f.value, f.maxLength) then Some(TooLong(f.maxLength))
    else None
  }

  /** The number of checks a field goes through. */
  const RuleCount := 5

  /** Check `k` of the list required, e-mail, phone, minimum length, maximum length fails for `f`. */
  predicate RuleFails(f: Field, k: int) {
    if k == 0 then f.required && !Required(Some(f.value))
    else if k == 1 then f.kind == "email" && f.value != "" && !Email(f.value)
    else if k == 2 then f.kind == "tel" && f.value != "" && !Phone(f.value)
    else if k == 3 then f.minLength > 0 && f.value != "" && |f.value| < f.minLength
    else if k == 4 then f.maxLength > 0 && f.value != "" && |f.value| > f.maxLength
    else false
  }

  /** The error check `k` reports. */
  function RuleError(f: Field, k: int): FieldError {
    if k == 0 then Missing
    else if k == 1 then BadEmail
    else if k == 2 then BadPhone
    else if k == 3 then TooShort(f.minLength)
    else TooLong(f.maxLength)
  }

  /** A field is accepted exactly when none of the five checks fails. */
  lemma ValidateFieldPasses(f: Field)
    ensures ValidateField(f).None? <==> forall k :: 0 <= k < RuleCount ==> !RuleFails(f, k)
  {
    if ValidateField(f).Some? {
      assert exists k :: 0 <= k < RuleCount && RuleFails(f, k) by {
        if RuleFails(f, 0) {} else if RuleFails(f, 1) {} else if RuleFails(f, 2) {} else if RuleFails(f, 3) {}
        else { assert RuleFails(f, 4); }
      }
    }
  }

  /** A rejected field reports the error of the first check that fails, in the order the checks are listed. */
  lemma ValidateFieldFirstFailing(f: Field, k: int)
    requires 0 <= k < RuleCount && RuleFails(f, k)
    requires forall j :: 0 <= j < k ==> !RuleFails(f, j)
    ensures ValidateField(f) == Some(RuleError(f, k))
  {
    assert !RuleFails(f, 0) ==> !(f.required && !Required(Some(f.value)));
    if k > 0 { assert !RuleFails(f, 0); }
    if k > 1 { assert !RuleFails(f, 1); }
    if k > 2 { assert !RuleFails(f, 2); }
    if k > 3 { assert !RuleFails(f, 3); }
  }

  /** An empty value passes every check unless the field is required. */
  lemma EmptyOptionalPasses(f: Field)
    requires !f.required && f.value == ""
    ensures ValidateField(f).None?
  {
  }

  /** Three characters of each message that tell the kinds of error apart. */
  lemma MessageMarks(e: FieldError)
    ensures |Message(e)| > 11
    ensures var m := Message(e);
      match e
      case Missing => m[0] == 'E'
      case BadEmail => m[0] == 'I' && m[11] == 'c'
      case BadPhone => m[0] == 'I' && m[11] == 't'
      case TooShort(_) => m[0] == 'M' && m[1] == 'í'
      case TooLong(_) => m[0] == 'M' && m[1] == 'á'
  {
    match e
    case TooShort(n) =>
      var p := "Mínimo ";
      assert (p + IntText(n) + " caracteres")[..2] == p[..2];
    case TooLong(n) =>
      var p := "Máximo ";
      assert (p + IntText(n) + " caracteres")[..2] == p[..2];
    case _ =>
  }

  /** Different errors are reported with different messages. */
  lemma MessageInjective(a: FieldError, b: FieldError)
    requires Message(a) == Message(b)
    ensures a == b
  {
    var m := Message(a);
    if a.TooShort? && b.TooShort? {
      var n := |m| - |" caracteres"|;
      assert m[7..n] == IntText(a.min) && m[7..n] == IntText(b.min);
      IntTextInjective(a.min, b.min);
    } else if a.TooLong? && b.TooLong? {
      var n := |m| - |" caracteres"|;
      assert m[7..n] == IntText(a.max) && m[7..n] == IntText(b.max);
      IntTextInjective(a.max, b.max);
    } else {
      MessageMarks(a);
      MessageMarks(b);
    }
  }

  /** `validarFormulario`: every control is checked (so every one is marked), and the form passes iff all pass. */
  method ValidateForm(fields: seq<Field>) returns (ok: bool, errors: seq<Option<FieldError>>)
    ensures |errors| == |fields|
    ensures forall k :: 0 <= k < |fields| ==> errors[k] == ValidateField(fields[k])
    ensures ok <==> forall k :: 0 <= k < |fields| ==> ValidateField(fields[k]).None?
  {
    ok := true;
    errors := [];
    var i := 0;
    while i < |fields|
      invariant 0 <= i <= |fields|
      invariant |errors| == i
      invariant forall k :: 0 <= k < i ==> errors[k] == ValidateField(fields[k])
      invariant ok <==> forall k :: 0 <= k < i ==> ValidateField(fields[k]).None?
    {
      var error := ValidateField(fields[i]);
      if error.Some? {
        ok := false;
      }
      errors := errors + [error];
      i := i + 1;
    }
  }
}
