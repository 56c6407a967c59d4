/** The username settings form: a local validator for proposed usernames and
    the small state machine of the form (what is typed, what it lowers to,
    whether it differs from the saved name, what the validator said, whether
    save was pressed), with the save button's enable rule and the choice of
    alert shown under the field. */
module Username {
  import opened Wrappers

  /** The validator's verdict; `error` is JavaScript's `null` when `None`. */
  datatype Validation = Validation(valid: bool, error: Option<string>)

  const InvalidCharsMessage := "Username contains invalid characters"
  const TooShortMessage := "Username is too short"

  const InvalidCharError := Validation(false, Some(InvalidCharsMessage))
  const ValidationSuccess := Validation(true, None)
  const UsernameTooShort := Validation(false, Some(TooShortMessage))
  /** What the form holds before anything has been typed. */
  const InitialValidation := Validation(false, None)

  // ---------------------------------------------------------------------
  // Characters

  /** JavaScript's `\s`: white space and line terminators. */
  predicate IsJsWhitespace(c: char)
    ensures IsAsciiChar(c) ==> (IsJsWhitespace(c) <==> c == ' ' || '\t' <= c <= '\r')
  {
    var n := c as int;
    (9 <= n <= 13) || n == 0x20 || n == 0xA0 || n == 0x1680 || (0x2000 <= n <= 0x200A) ||
    n == 0x2028 || n == 0x2029 || n == 0x202F || n == 0x205F || n == 0x3000 || n == 0xFEFF
  }

  /** The characters the pattern lists one by one: all of them printable
      ASCII punctuation. */
  predicate IsListedInvalidChar(c: char)
    ensures IsListedInvalidChar(c) ==>
              0x21 <= c as int <= 0x7E && !('a' <= c <= 'z' || 'A' <= c <= 'Z' || '0' <= c <= '9')
  {
    c == '/' || c == '?' || c == ':' || c == '@' || c == '=' || c == '&' || c == '"' || c == '\'' ||
    c == '<' || c == '>' || c == '#' || c == '%' || c == '{' || c == '}' || c == '|' || c == '\\' ||
    c == '^' || c == '~' || c == '[' || c == ']' || c == '`' || c == ',' || c == '.' || c == ';' ||
    c == '!' || c == '*' || c == '(' || c == ')' || c == '$'
  }

  /** A character the invalid-characters pattern matches. */
  predicate IsInvalidChar(c: char)
    ensures ('a' <= c <= 'z' || 'A' <= c <= 'Z' || '0' <= c <= '9' || c == '+' || c == '-' || c == '_') ==>
              !IsInvalidChar(c)
  {
    IsJsWhitespace(c) || IsListedInvalidChar(c)
  }

  /** `test`: the pattern is tried at each position from the left; it
      matches when it matches somewhere in `s`. */
  predicate ContainsInvalidChar(s: string)
    ensures ContainsInvalidChar(s) <==> exists i :: 0 <= i < |s| && IsInvalidChar(s[i])
  {
    if s == [] then false
    else
      assert forall i :: 1 <= i < |s| ==> s[i] == s[1..][i - 1];
      IsInvalidChar(s[0]) || ContainsInvalidChar(s[1..])
  }

  predicate IsAsciiChar(c: char)
  {
    c as int < 128
  }

  /** The characters are checked from the left; the string passes when
      every character is in the 7-bit range. */
  predicate IsAscii(s: string)
    ensures IsAscii(s) <==> forall i :: 0 <= i < |s| ==> IsAsciiChar(s[i])
  {
    if s == [] then true
    else
      assert forall i :: 1 <= i < |s| ==> s[i] == s[1..][i - 1];
      IsAsciiChar(s[0]) && IsAscii(s[1..])
  }

  /** Length as JavaScript counts it, in UTF-16 code units: a character
      outside the Basic Multilingual Plane takes two. */
  function Utf16Length(s: string): (n: nat)
    ensures n >= |s|
    ensures IsAscii(s) ==> n == |s|
  {
    if s == [] then 0
    else (if s[0] as int > 0xFFFF then 2 else 1) + Utf16Length(s[1..])
  }

  /** Lower-casing of the Latin capitals; every other character is kept. */
  function LowerChar(c: char): (d: char)
    ensures IsAsciiChar(d) <==> IsAsciiChar(c)
    ensures d as int <= 0xFFFF <==> c as int <= 0xFFFF
    ensures IsInvalidChar(d) <==> IsInvalidChar(c)
    ensures !('A' <= d <= 'Z')
    ensures 'A' <= c <= 'Z' ==> d as int == c as int + 32
    ensures d != c ==> 'A' <= c <= 'Z'
  {
    if 'A' <= c <= 'Z' then (c as int + 32) as char else c
  }

  function Lower(s: string): (r: string)
    ensures |r| == |s| && forall i :: 0 <= i < |s| ==> r[i] == LowerChar(s[i])
  {
    seq(|s|, i requires 0 <= i < |s| => LowerChar(s[i]))
  }

  // ---------------------------------------------------------------------
  // The validator

  /** Length first, then the 7-bit range, then the pattern. */
  function ValidateFormInput(formValue: string): (r: Validation)
    ensures r.valid <==> r.error == None
    ensures r.error == None || r.error == Some(TooShortMessage) || r.error == Some(InvalidCharsMessage)
    ensures Utf16Length(formValue) < 3 ==> r == UsernameTooShort
    ensures Utf16Length(formValue) >= 3 && !IsAscii(formValue) ==> r == InvalidCharError
    ensures Utf16Length(formValue) >= 3 && ContainsInvalidChar(formValue) ==> r == InvalidCharError
    ensures r.valid <==> Utf16Length(formValue) >= 3 && forall i :: 0 <= i < |formValue| ==> AllowedChar(formValue[i])
  {
    if Utf16Length(formValue) < 3 then UsernameTooShort
    else if !IsAscii(formValue) then InvalidCharError
    else if ContainsInvalidChar(formValue) then InvalidCharError
    else ValidationSuccess
  }

  /** A character a valid username may hold. */
  predicate AllowedChar(c: char)
  {
    IsAsciiChar(c) && !IsInvalidChar(c)
  }

  /** The allowed characters, listed independently of the pattern: ASCII
      letters and digits, `+`, `-`, `_`, and the control characters that are
      not white space. */
  predicate InUsernameAlphabet(c: char)
  {
    ('a' <= c <= 'z') || ('A' <= c <= 'Z') || ('0' <= c <= '9') ||
    c == '+' || c == '-' || c == '_' ||
    (c as int < 0x20 && !(9 <= c as int <= 13)) || c as int == 0x7F
  }

  lemma AllowedCharIsAlphabet(c: char)
    ensures AllowedChar(c) <==> InUsernameAlphabet(c)
  {
  }

  /** A username is accepted exactly when it is at least three characters
      long and drawn from the alphabet above. */
  lemma ValidIffAlphabet(s: string)
    ensures ValidateFormInput(s).valid <==>
            |s| >= 3 && forall i :: 0 <= i < |s| ==> InUsernameAlphabet(s[i])
  {
    forall i | 0 <= i < |s| ensures AllowedChar(s[i]) <==> InUsernameAlphabet(s[i]) {
      AllowedCharIsAlphabet(s[i]);
    }
    if forall i :: 0 <= i < |s| ==> AllowedChar(s[i]) {
      assert IsAscii(s);
    }
  }

  /** A character outside the Basic Multilingual Plane is two code units,
      any other one. */
  lemma Utf16LengthChar(c: char)
    ensures Utf16Length([c]) == if c as int > 0xFFFF then 2 else 1
  {
    assert [c][1..] == [];
  }

  /** Code units add up over concatenation. */
  lemma {:induction false} Utf16LengthAppend(a: string, b: string)
    ensures Utf16Length(a + b) == Utf16Length(a) + Utf16Length(b)
    decreases |a|
  {
    if a == [] {
      assert a + b == b;
    } else {
      assert (a + b)[0] == a[0];
      assert (a + b)[1..] == a[1..] + b;
      Utf16LengthAppend(a[1..], b);
    }
  }

  lemma {:induction false} Utf16LengthLower(s: string)
    ensures Utf16Length(Lower(s)) == Utf16Length(s)
  {
    if s != [] {
      Utf16LengthLower(s[1..]);
      assert Lower(s)[1..] == Lower(s[1..]);
    }
  }

  /** Lower-casing never changes the verdict, so validating the lowered
      value judges what was typed. */
  lemma ValidateLower(s: string)
    ensures ValidateFormInput(Lower(s)) == ValidateFormInput(s)
  {
    Utf16LengthLower(s);
    var t := Lower(s);
    if ContainsInvalidChar(s) {
      var i :| 0 <= i < |s| && IsInvalidChar(s[i]);
      assert IsInvalidChar(t[i]);
    }
    if ContainsInvalidChar(t) {
      var i :| 0 <= i < |t| && IsInvalidChar(t[i]);
      assert IsInvalidChar(s[i]);
    }
  }

  lemma TooShortExample()
    ensures ValidateFormInput("ab") == UsernameTooShort
  {
  }

  lemma InvalidCharExamples()
    ensures ValidateFormInput("a b") == InvalidCharError
    ensures ValidateFormInput("no.dots") == InvalidCharError
  {
    assert IsAscii("a b") && IsAscii("no.dots");
    assert "a b"[1] == ' ' && IsInvalidChar("a b"[1]);
    assert "no.dots"[2] == '.' && IsInvalidChar("no.dots"[2]);
  }

  lemma NonAsciiExample()
    ensures ValidateFormInput("caf\U{E9}") == InvalidCharError
  {
    assert !IsAsciiChar("caf\U{E9}"[3]);
  }

  /** One letter and one emoji are three code units: long enough, but not
      7-bit. */
  lemma AstralExample()
    ensures ValidateFormInput("a\U{1F600}") == InvalidCharError
  {
    var s := "a\U{1F600}";
    assert s == ['a'] + ['\U{1F600}'];
    Utf16LengthChar('a');
    Utf16LengthChar('\U{1F600}');
    Utf16LengthAppend(['a'], ['\U{1F600}']);
    assert !IsAsciiChar(s[1]);
  }

  lemma AcceptedExample()
    ensures ValidateFormInput("camper_42") == ValidationSuccess
  {
    var s := "camper_42";
    assert s == ['c', 'a', 'm', 'p', 'e', 'r', '_', '4', '2'];
    forall i | 0 <= i < |s| ensures AllowedChar(s[i]) {
      AllowedCharIsAlphabet(s[i]);
    }
    assert IsAscii(s);
  }

  // ---------------------------------------------------------------------
  // Alerts

  /** The alert under the field. */
  datatype Alert = Danger(message: string) | NotAvailable | ValidatingName | Available

  /** JavaScript truthiness of `error`: `null` and `''` are false. */
  predicate Truthy(error: Option<string>)
  {
    error.Some? && error.value != ""
  }

  /** The first rule that applies: the validator's error, then "not
      available", then "validating", then "available". */
  function RenderAlerts(validating: bool, error: Option<string>, isValidUsername: bool): (r: Option<Alert>)
    ensures r.Some?
    ensures r.value.Danger? <==> !validating && Truthy(error)
    ensures r.value.Danger? ==> Some(r.value.message) == error
    ensures r.value == ValidatingName <==> validating
    ensures r.value == NotAvailable <==> !validating && !Truthy(error) && !isValidUsername
    ensures r.value == Available <==> !validating && !Truthy(error) && isValidUsername
  {
    if !validating && Truthy(error) then Some(Danger(error.value))
    else if !validating && !isValidUsername then Some(NotAvailable)
    else if validating then Some(ValidatingName)
    else if !validating && isValidUsername then Some(Available)
    else None
  }

  /** The save button's `disabled` attribute. */
  function SaveButtonDisabled(isValidUsername: bool, valid: bool, isFormPristine: bool, submitClicked: bool): (d: bool)
    ensures !d <==> isValidUsername && valid && !isFormPristine && !submitClicked
  {
    !(isValidUsername && valid && !isFormPristine) || submitClicked
  }

  // ---------------------------------------------------------------------
  // The form

  class UsernameSettings {
    var isFormPristine: bool
    var formValue: string
    var formDisplayValue: string
    var characterValidation: Validation
    var submitClicked: bool

    /** The validation held is either the initial one or the verdict on the
        lowered display value, which is what `formValue` holds. */
    predicate Valid()
      reads this
    {
      characterValidation == InitialValidation ||
      (formValue == Lower(formDisplayValue) && characterValidation == ValidateFormInput(formValue))
    }

    constructor(username: string, displayUsername: string)
      ensures Valid()
      ensures isFormPristine && formValue == username && formDisplayValue == displayUsername
      ensures characterValidation == InitialValidation && !submitClicked
    {
      isFormPristine := true;
      formValue := username;
      formDisplayValue := displayUsername;
      characterValidation := InitialValidation;
      submitClicked := false;
    }

    /** A keystroke: stores what was typed and its lowered form, compares it
        with the saved `username`, validates it, and asks for the remote
        availability check only when the value differs from the saved one
        and the validator found nothing wrong. */
    method HandleChange(username: string, newDisplayValue: string) returns (validateRequest: Option<string>)
      modifies this
      ensures Valid()
      ensures formDisplayValue == newDisplayValue && formValue == Lower(newDisplayValue)
      ensures isFormPristine == (username == Lower(newDisplayValue))
      ensures characterValidation == ValidateFormInput(Lower(newDisplayValue))
      ensures submitClicked == old(submitClicked)
      ensures validateRequest.Some? <==> !isFormPristine && characterValidation.valid
      ensures validateRequest.Some? ==> validateRequest.value == formValue
    {
      var newValue := Lower(newDisplayValue);
      formDisplayValue := newDisplayValue;
      formValue := newValue;
      isFormPristine := username == newValue;
      characterValidation := ValidateFormInput(newValue);
      if isFormPristine || Truthy(characterValidation.error) {
        validateRequest := None;
      } else {
        validateRequest := Some(formValue);
      }
    }

    /** Save: always marks the form as submitted; sends the display value
        (not the lowered one) only when the validator accepted it. */
    method HandleSubmit() returns (submitted: Option<string>)
      requires Valid()
      modifies this
      ensures Valid()
      ensures submitClicked
      ensures isFormPristine == old(isFormPristine) && formValue == old(formValue)
      ensures formDisplayValue == old(formDisplayValue) && characterValidation == old(characterValidation)
      ensures submitted.Some? <==> old(characterValidation).valid
      ensures submitted.Some? ==> submitted.value == formDisplayValue && ValidateFormInput(submitted.value).valid
    {
      var valid := characterValidation.valid;
      submitClicked := true;
      if valid {
        submitted := Some(formDisplayValue);
        ValidateLower(formDisplayValue);
      } else {
        submitted := None;
      }
    }

    /** After new props: when the saved `username` changed but the typed
        value did not, pristineness is recomputed and the submission flag is
        cleared; otherwise nothing changes. */
    method ComponentDidUpdate(prevUsername: string, username: string, prevFormValue: string)
      requires Valid()
      modifies this
      ensures Valid()
      ensures formValue == old(formValue) && formDisplayValue == old(formDisplayValue)
      ensures characterValidation == old(characterValidation)
      ensures prevUsername != username && prevFormValue == formValue ==>
                isFormPristine == (username == formValue) && !submitClicked
      ensures !(prevUsername != username && prevFormValue == formValue) ==>
                isFormPristine == old(isFormPristine) && submitClicked == old(submitClicked)
    {
      if prevUsername != username && prevFormValue == formValue {
        isFormPristine := username == formValue;
        submitClicked := false;
      }
    }

    /** The save button as rendered: enabled only for a changed value the
        validator accepted and the server reported available, and never
        again after a click until the saved name changes. */
    function SaveDisabled(isValidUsername: bool): (d: bool)
      requires Valid()
      reads this
      ensures submitClicked ==> d
      ensures isFormPristine ==> d
      ensures !d ==> isValidUsername && formValue == Lower(formDisplayValue) &&
                     ValidateFormInput(formDisplayValue).valid
    {
      ValidateLower(formDisplayValue);
      SaveButtonDisabled(isValidUsername, characterValidation.valid, isFormPristine, submitClicked)
    }

    /** The alert as rendered: none while the value equals the saved name;
        otherwise the first rule that applies. */
    function ShownAlert(validating: bool, isValidUsername: bool): (r: Option<Alert>)
      requires Valid()
      reads this
      ensures isFormPristine <==> r.None?
      ensures r.Some? && r.value.Danger? <==>
                !isFormPristine && !validating && characterValidation != InitialValidation &&
                !ValidateFormInput(formDisplayValue).valid
      ensures r.Some? && r.value.Danger? ==> Some(r.value.message) == ValidateFormInput(formDisplayValue).error
    {
      ValidateLower(formDisplayValue);
      if isFormPristine then None
      else RenderAlerts(validating, characterValidation.error, isValidUsername)
    }
  }

  /** Typing the saved name with capitals, such as "CamperBot" for
      "camperbot": the form stays pristine, no remote check is requested, no
      alert is shown and save stays disabled. */
  method RetypeSavedName(isValidUsername: bool)
    returns (request: Option<string>, alert: Option<Alert>, disabled: bool)
    ensures request == None && alert == None && disabled
  {
    var form := new UsernameSettings("camperbot", "camperbot");
    assert Lower("CamperBot") == "camperbot";
    request := form.HandleChange("camperbot", "CamperBot");
    alert := form.ShownAlert(false, isValidUsername);
    disabled := form.SaveDisabled(isValidUsername);
  }

  /** Typing a new valid name and pressing save submits exactly what was
      typed, and the button then stays disabled. */
  method TypeThenSave(username: string, displayUsername: string, typed: string, isValidUsername: bool)
    returns (request: Option<string>, submitted: Option<string>, disabledAfter: bool)
    requires ValidateFormInput(typed).valid && Lower(typed) != username
    ensures request == Some(Lower(typed))
    ensures submitted == Some(typed)
    ensures disabledAfter
  {
    var form := new UsernameSettings(username, displayUsername);
    ValidateLower(typed);
    request := form.HandleChange(username, typed);
    submitted := form.HandleSubmit();
    disabledAfter := form.SaveDisabled(isValidUsername);
  }
}
