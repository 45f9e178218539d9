/**
 * The three-step registration wizard: name, then e-mail, then password and its confirmation.
 * The form controls hold strings; their validators are the predicates below.
 */
module RegisterPage {
  import opened Wrappers

  // ----- Password strength -----

  const SPECIAL_CHARS: string := "!@#$%^&*(),.?\":{}|<>"
  const MIN_PASSWORD_LENGTH: nat := 8

  /** `/[A-Z]/.test(p)` */
  predicate HasUpperCase(p: string) {
    exists i :: 0 <= i < |p| && 'A' <= p[i] <= 'Z'
  }

  /** `/[a-z]/.test(p)` */
  predicate HasLowerCase(p: string) {
    exists i :: 0 <= i < |p| && 'a' <= p[i] <= 'z'
  }

  /** `/[0-9]/.test(p)` */
  predicate HasNumber(p: string) {
    exists i :: 0 <= i < |p| && '0' <= p[i] <= '9'
  }

  /** `/[!@#$%^&*(),.?":{}|<>]/.test(p)` */
  predicate HasSpecialChar(p: string) {
    exists i :: 0 <= i < |p| && p[i] in SPECIAL_CHARS
  }

  /** The `passwordStrength` error object: a flag per missing character class. */
  datatype StrengthErrors = StrengthErrors(uppercase: bool, lowercase: bool, number: bool, specialChar: bool)

  /** `passwordStrengthValidator`: `None` is `null`, no error. */
  function PasswordStrength(value: string): (r: Option<StrengthErrors>)
    ensures value == "" ==> r == None
    ensures value != "" ==>
      (r == None <==> HasUpperCase(value) && HasLowerCase(value) && HasNumber(value) && HasSpecialChar(value))
    ensures r.Some? ==>
      (r.value.uppercase != HasUpperCase(value) && r.value.lowercase != HasLowerCase(value) &&
       r.value.number != HasNumber(value) && r.value.specialChar != HasSpecialChar(value))
  {
    if value == "" then None
    else
      var errors := StrengthErrors(!HasUpperCase(value), !HasLowerCase(value), !HasNumber(value), !HasSpecialChar(value));
      if errors.uppercase || errors.lowercase || errors.number || errors.specialChar then Some(errors) else None
  }

  // ----- Password confirmation -----

  datatype MatchError = PasswordMismatch

  /** `passwordMatchValidator` on the group's two controls, `None` where a control is absent. */
  function PasswordMatch(password: Option<string>, confirmPassword: Option<string>): (r: Option<MatchError>)
    ensures password.None? || confirmPassword.None? ==> r == None
    ensures password.Some? && confirmPassword.Some? ==>
      (r == None <==> password.value == confirmPassword.value) && (r != None ==> r == Some(PasswordMismatch))
  {
    match (password, confirmPassword)
    case (Some(p), Some(c)) => if p == c then None else Some(PasswordMismatch)
    case _ => None
  }

  // ----- Password error message -----

  const REQUIRED_MESSAGE: string := "Le mot de passe est requis"
  const MIN_LENGTH_MESSAGE: string := "Le mot de passe doit contenir au moins 8 caractères"
  const STRENGTH_PREFIX: string := "Le mot de passe doit contenir "
  const SEPARATOR: string := ", "

  /** The four labels, in the order the message lists them. */
  const LABELS: seq<string> := ["une majuscule", "une minuscule", "un chiffre", "un caractère spécial"]

  /** The flags of an error object, in the order of `LABELS`. */
  function Flags(e: StrengthErrors): seq<bool> {
    [e.uppercase, e.lowercase, e.number, e.specialChar]
  }

  /** The labels whose flag is set, keeping their order. */
  function Selected(labels: seq<string>, flags: seq<bool>): seq<string>
    requires |labels| == |flags|
  {
    if labels == [] then []
    else (if flags[0] then [labels[0]] else []) + Selected(labels[1..], flags[1..])
  }

  /** `Array.prototype.join(separator)`. */
  function Join(items: seq<string>, separator: string): string {
    if items == [] then ""
    else if |items| == 1 then items[0]
    else items[0] + separator + Join(items[1..], separator)
  }

  // ----- The component -----

  class Register {
    var step: int
    var showPassword: bool
    var showConfirmPassword: bool
    var name: string
    var email: string
    var password: string
    var confirmPassword: string
    /** Angular's `Validators.email` pattern test; the pattern itself is not part of this model. */
    const isEmailAddress: string -> bool

    constructor (isEmailAddress: string -> bool)
      ensures step == 0 && !showPassword && !showConfirmPassword
      ensures name == "" && email == "" && password == "" && confirmPassword == ""
      ensures this.isEmailAddress == isEmailAddress
    {
      step := 0;
      showPassword := false;
      showConfirmPassword := false;
      name := "";
      email := "";
      password := "";
      confirmPassword := "";
      this.isEmailAddress := isEmailAddress;
    }

    /** The wizard's steps are 0, 1 and 2. */
    predicate Valid()
      reads this
    {
      0 <= step <= 2
    }

    /** `name`: `Validators.required`. */
    predicate NameValid()
      reads this
    {
      name != ""
    }

    /** `email`: `Validators.required` and `Validators.email`. */
    predicate EmailValid()
      reads this
    {
      email != "" && isEmailAddress(email)
    }

    /** `password`: required, `Validators.minLength(8)` and the strength validator. */
    predicate PasswordValid()
      reads this
    {
      password != "" && |password| >= MIN_PASSWORD_LENGTH && PasswordStrength(password) == None
    }

    /** `confirmPassword`: `Validators.required`. */
    predicate ConfirmPasswordValid()
      reads this
    {
      confirmPassword != ""
    }

    /** The form-level `passwordMismatch` error; both controls always exist. */
    predicate HasMismatch()
      reads this
    {
      PasswordMatch(Some(password), Some(confirmPassword)) == Some(PasswordMismatch)
    }

    /** `canGoToNextStep`: the fields of the current step are valid. */
    function CanGoToNextStep(): (r: bool)
      reads this
      ensures !(0 <= step <= 2) ==> !r
      ensures step == 0 ==> (r <==> name != "")
      ensures step == 1 ==> (r <==> email != "" && isEmailAddress(email))
      ensures step == 2 ==>
        (r <==>
          (password == confirmPassword && |password| >= MIN_PASSWORD_LENGTH &&
           HasUpperCase(password) && HasLowerCase(password) && HasNumber(password) && HasSpecialChar(password)))
    {
      match step
      case 0 => NameValid()
      case 1 => EmailValid()
      case 2 => PasswordValid() && ConfirmPasswordValid() && !HasMismatch()
      case _ => false
    }

    /** `nextStep`: advance while the current step is valid and the last one is not reached. */
    method NextStep()
      modifies this`step
      ensures step == (if old(CanGoToNextStep()) && old(step) < 2 then old(step) + 1 else old(step))
      ensures old(Valid()) ==> Valid()
      ensures step == old(step) + 1 && old(step) == 0 ==> NameValid()
      ensures step == old(step) + 1 && old(step) == 1 ==> EmailValid()
    {
      if CanGoToNextStep() && step < 2 {
        step := step + 1;
      }
    }

    /** `previousStep`: go back unless on the first step. */
    method PreviousStep()
      modifies this`step
      ensures step == (if old(step) > 0 then old(step) - 1 else old(step))
      ensures old(Valid()) ==> Valid()
    {
      if step > 0 {
        step := step - 1;
      }
    }

    method TogglePasswordVisibility()
      modifies this`showPassword
      ensures showPassword == !old(showPassword)
    {
      showPassword := !showPassword;
    }

    method ToggleConfirmPasswordVisibility()
      modifies this`showConfirmPassword
      ensures showConfirmPassword == !old(showConfirmPassword)
    {
      showConfirmPassword := !showConfirmPassword;
    }

    /**
     * `getPasswordErrorMessage`: the first of the required, minimum-length and strength errors,
     * the last listing the missing classes in a fixed order.
     */
    method GetPasswordErrorMessage() returns (message: string)
      ensures password == "" ==> message == REQUIRED_MESSAGE
      ensures 0 < |password| < MIN_PASSWORD_LENGTH ==> message == MIN_LENGTH_MESSAGE
      ensures |password| >= MIN_PASSWORD_LENGTH && PasswordStrength(password).Some? ==>
        message == STRENGTH_PREFIX + Join(Selected(LABELS, Flags(PasswordStrength(password).value)), SEPARATOR)
      ensures PasswordValid() <==> message == ""
    {
      if password == "" {
        return REQUIRED_MESSAGE;
      }
      if |password| < MIN_PASSWORD_LENGTH {
        return MIN_LENGTH_MESSAGE;
      }
      var strength := PasswordStrength(password);
      if strength.Some? {
        var errors := strength.value;
        var missing: seq<string> := [];
        if errors.uppercase { missing := missing + [LABELS[0]]; }
        if errors.lowercase { missing := missing + [LABELS[1]]; }
        if errors.number { missing := missing + [LABELS[2]]; }
        if errors.specialChar { missing := missing + [LABELS[3]]; }
        SelectedOfLabels(errors);
        assert missing == Selected(LABELS, Flags(errors));
        return STRENGTH_PREFIX + Join(missing, SEPARATOR);
      }
      return "";
    }
  }

  // ----- Proofs -----

  /** The four pushes build exactly the selected labels. */
  lemma SelectedOfLabels(e: StrengthErrors)
    ensures Selected(LABELS, Flags(e)) ==
      (if e.uppercase then [LABELS[0]] else []) + (if e.lowercase then [LABELS[1]] else []) +
      (if e.number then [LABELS[2]] else []) + (if e.specialChar then [LABELS[3]] else [])
  {
    var f := Flags(e);
    var l1, l2, l3 := LABELS[1..], LABELS[2..], LABELS[3..];
    assert l1[1..] == l2 && l2[1..] == l3 && l3[1..] == [];
    assert f[1..][1..] == f[2..] && f[2..][1..] == f[3..] && f[3..][1..] == [];
    assert Selected(l3, f[3..]) == (if e.specialChar then [LABELS[3]] else []);
    assert Selected(l2, f[2..]) == (if e.number then [LABELS[2]] else []) + Selected(l3, f[3..]);
    assert Selected(l1, f[1..]) == (if e.lowercase then [LABELS[1]] else []) + Selected(l2, f[2..]);
  }

  /** A label is listed exactly when its flag is set. */
  lemma {:induction false} SelectedIff(labels: seq<string>, flags: seq<bool>, k: nat)
    requires |labels| == |flags| && k < |labels|
    requires forall i, j :: 0 <= i < j < |labels| ==> labels[i] != labels[j]
    ensures labels[k] in Selected(labels, flags) <==> flags[k]
    decreases |labels|
  {
    var rest := Selected(labels[1..], flags[1..]);
    assert Selected(labels, flags) == (if flags[0] then [labels[0]] else []) + rest;
    if k == 0 {
      SelectedFrom(labels[1..], flags[1..]);
      assert labels[0] !in labels[1..] by {
        forall i | 0 <= i < |labels[1..]| ensures labels[1..][i] != labels[0] {
          assert labels[1..][i] == labels[i + 1];
        }
      }
    } else {
      assert labels[1..][k - 1] == labels[k];
      assert labels[k] != labels[0];
      SelectedIff(labels[1..], flags[1..], k - 1);
    }
  }

  /** What is selected comes from the list. */
  lemma {:induction false} SelectedFrom(labels: seq<string>, flags: seq<bool>)
    requires |labels| == |flags|
    ensures forall x :: x in Selected(labels, flags) ==> x in labels
    decreases |labels|
  {
    if labels != [] {
      SelectedFrom(labels[1..], flags[1..]);
    }
  }

  /** The strength message names exactly the missing character classes. */
  lemma StrengthMessageNamesMissing(password: string)
    requires PasswordStrength(password).Some?
    ensures var listed := Selected(LABELS, Flags(PasswordStrength(password).value));
      (LABELS[0] in listed <==> !HasUpperCase(password)) &&
      (LABELS[1] in listed <==> !HasLowerCase(password)) &&
      (LABELS[2] in listed <==> !HasNumber(password)) &&
      (LABELS[3] in listed <==> !HasSpecialChar(password))
    ensures Selected(LABELS, Flags(PasswordStrength(password).value)) != []
  {
    var e := PasswordStrength(password).value;
    SelectedIff(LABELS, Flags(e), 0);
    SelectedIff(LABELS, Flags(e), 1);
    SelectedIff(LABELS, Flags(e), 2);
    SelectedIff(LABELS, Flags(e), 3);
    SelectedOfLabels(e);
  }

  /** A lower-case letter is none of the special characters. */
  lemma LowerIsNotSpecial(c: char)
    requires 'a' <= c <= 'z'
    ensures c !in SPECIAL_CHARS
  {
  }

  /** A non-empty password of lower-case letters only misses the upper-case, digit and special classes. */
  lemma LowerCaseOnly(p: string)
    requires p != [] && forall i :: 0 <= i < |p| ==> 'a' <= p[i] <= 'z'
    ensures PasswordStrength(p) == Some(StrengthErrors(true, false, true, true))
  {
    assert 'a' <= p[0] <= 'z';
    forall i | 0 <= i < |p| ensures p[i] !in SPECIAL_CHARS {
      LowerIsNotSpecial(p[i]);
    }
  }

  /** Example: a lower-case password misses the upper-case, digit and special classes. */
  lemma LowerCaseOnlyStrength()
    ensures PasswordStrength("motdepasse") == Some(StrengthErrors(true, false, true, true))
  {
    LowerCaseOnly("motdepasse");
  }

  /** Example: the missing classes are listed in the fixed order, comma-separated. */
  lemma MissingThreeMessage()
    ensures Join(Selected(LABELS, Flags(StrengthErrors(true, false, true, true))), SEPARATOR) ==
      LABELS[0] + SEPARATOR + LABELS[2] + SEPARATOR + LABELS[3]
  {
    var e := StrengthErrors(true, false, true, true);
    SelectedOfLabels(e);
    var listed := [LABELS[0], LABELS[2], LABELS[3]];
    assert Selected(LABELS, Flags(e)) == listed;
    assert listed[1..][1..] == [LABELS[3]];
    assert Join(listed[1..], SEPARATOR) == LABELS[2] + SEPARATOR + LABELS[3];
  }

  /** Example: a password with all four classes passes. */
  lemma StrongPasswordPasses()
    ensures PasswordStrength("Secur1ty!") == None
  {
    var p := "Secur1ty!";
    assert 'A' <= p[0] <= 'Z' && 'a' <= p[1] <= 'z' && '0' <= p[5] <= '9' && p[8] in SPECIAL_CHARS;
  }
}
