/** `validateField` of QbixSolutions/static/js/main.js: the verdict on a
    form field's trimmed value, and the update of the field's `error` and
    `success` classes and of its error note. */
module FieldValidation {
  import opened Wrappers
  import opened Chars
  import opened Text

  /** A run that `[^\s@]+` matches: non-empty, no whitespace, no '@'. */
  predicate EmailAtom(t: string) {
    |t| > 0 && forall k :: 0 <= k < |t| ==> !JsSpace(t[k]) && t[k] != '@'
  }

  /** `/^[^\s@]+@[^\s@]+\.[^\s@]+$/.test(s)`, split at the '@' and the '.' the
      pattern's literals match. */
  predicate MatchesEmailPattern(s: string) {
    exists i, j :: 0 <= i < j < |s| && s[i] == '@' && s[j] == '.' &&
      EmailAtom(s[..i]) && EmailAtom(s[i + 1..j]) && EmailAtom(s[j + 1..])
  }

  /** The shape the email pattern accepts, in words: no whitespace, exactly
      one '@' with something before it, and a '.' in the domain that is
      neither its first nor its last character. */
  predicate EmailShape(s: string) {
    (forall k :: 0 <= k < |s| ==> !JsSpace(s[k])) &&
    exists i :: 0 < i < |s| && s[i] == '@' &&
      (forall k :: 0 <= k < |s| && s[k] == '@' ==> k == i) &&
      (exists j :: i + 1 < j < |s| - 1 && s[j] == '.')
  }

  lemma EmailPatternMeansShape(s: string)
    requires MatchesEmailPattern(s)
    ensures EmailShape(s)
  {
    var i, j :| 0 <= i < j < |s| && s[i] == '@' && s[j] == '.' &&
      EmailAtom(s[..i]) && EmailAtom(s[i + 1..j]) && EmailAtom(s[j + 1..]);
    forall k | 0 <= k < |s|
      ensures !JsSpace(s[k]) && (s[k] == '@' ==> k == i)
    {
      if k < i {
        assert s[k] == s[..i][k];
      } else if i < k < j {
        assert s[k] == s[i + 1..j][k - i - 1];
      } else if j < k {
        assert s[k] == s[j + 1..][k - j - 1];
      }
    }
    assert i + 1 < j < |s| - 1 && s[j] == '.';
  }

  lemma EmailShapeMeansPattern(s: string)
    requires EmailShape(s)
    ensures MatchesEmailPattern(s)
  {
    var i :| 0 < i < |s| && s[i] == '@' &&
      (forall k :: 0 <= k < |s| && s[k] == '@' ==> k == i) &&
      (exists j :: i + 1 < j < |s| - 1 && s[j] == '.');
    var j :| i + 1 < j < |s| - 1 && s[j] == '.';
    var local, host, top := s[..i], s[i + 1..j], s[j + 1..];
    assert EmailAtom(local) by {
      forall k | 0 <= k < |local| ensures !JsSpace(local[k]) && local[k] != '@' {
        assert local[k] == s[k];
      }
    }
    assert EmailAtom(host) by {
      forall k | 0 <= k < |host| ensures !JsSpace(host[k]) && host[k] != '@' {
        assert host[k] == s[i + 1 + k];
      }
    }
    assert EmailAtom(top) by {
      forall k | 0 <= k < |top| ensures !JsSpace(top[k]) && top[k] != '@' {
        assert top[k] == s[j + 1 + k];
      }
    }
  }

  /** The pattern accepts exactly the strings of the described shape. */
  lemma EmailPatternIff(s: string)
    ensures MatchesEmailPattern(s) <==> EmailShape(s)
  {
    if MatchesEmailPattern(s) { EmailPatternMeansShape(s); }
    if EmailShape(s) { EmailShapeMeansPattern(s); }
  }

  /** A character of the class `[\d\s\-\(\)]`. */
  predicate TelChar(c: char) {
    JsDigit(c) || JsSpace(c) || c == '-' || c == '(' || c == ')'
  }

  /** A run that `[\d\s\-\(\)]+` matches. */
  predicate TelRun(t: string) {
    |t| > 0 && forall k :: 0 <= k < |t| ==> TelChar(t[k])
  }

  /** `/^\+?[\d\s\-\(\)]+$/.test(s)`: either `\+?` takes a '+' and the run
      the rest, or it takes nothing and the run all of `s`. */
  predicate MatchesTelPattern(s: string) {
    (|s| > 0 && s[0] == '+' && TelRun(s[1..])) || TelRun(s)
  }

  /** The shape the phone pattern accepts: an optional leading '+', then one
      or more digits, whitespace, '-', '(' or ')'. */
  predicate TelShape(s: string) {
    |s| > 0 &&
    if s[0] == '+' then |s| > 1 && forall k :: 1 <= k < |s| ==> TelChar(s[k])
    else forall k :: 0 <= k < |s| ==> TelChar(s[k])
  }

  /** The pattern accepts exactly the strings of the described shape ('+' is
      outside the class, so the optional '+' is taken exactly when present). */
  lemma TelPatternIff(s: string)
    ensures MatchesTelPattern(s) <==> TelShape(s)
  {
    if |s| > 0 && s[0] == '+' {
      assert !TelChar(s[0]);
      assert TelRun(s[1..]) <==> |s| > 1 && forall k :: 1 <= k < |s| ==> TelChar(s[k]) by {
        if |s| > 1 && forall k :: 1 <= k < |s| ==> TelChar(s[k]) {
          forall k | 0 <= k < |s| - 1 ensures TelChar(s[1..][k]) { assert s[1..][k] == s[k + 1]; }
        }
        if TelRun(s[1..]) {
          forall k | 1 <= k < |s| ensures TelChar(s[k]) { assert s[k] == s[1..][k - 1]; }
        }
      }
    }
  }

  /** The outcome of `validateField`: valid, or invalid with the message shown. */
  datatype Verdict = Valid | Invalid(message: string)

  const RequiredMessage: string := "This field is required"
  const EmailMessage: string := "Please enter a valid email address"
  const PhoneMessage: string := "Please enter a valid phone number"

  /** The verdict `validateField` computes for a field of type `kind` holding
      `raw`, `required` when the field has the `required` attribute. */
  function Validate(raw: string, kind: string, required: bool): (v: Verdict)
    ensures var value := Trim(raw, JsSpace);
      && (required && value == [] ==> v == Invalid(RequiredMessage))
      && (!required && value == [] ==> v == Valid)
      && (kind != "email" && kind != "tel" ==> (v.Valid? <==> !(required && value == [])))
      && (kind == "email" && value != [] ==> (v.Valid? <==> EmailShape(value)))
      && (kind == "tel" && value != [] ==>
            (v.Valid? <==> TelShape(value) && |Keep(value, JsDigit)| >= 10))
      && (kind == "email" && value != [] && !EmailShape(value) ==> v == Invalid(EmailMessage))
      && (kind == "tel" && value != [] && !(TelShape(value) && |Keep(value, JsDigit)| >= 10) ==>
            v == Invalid(PhoneMessage))
  {
    var value := Trim(raw, JsSpace);
    EmailPatternIff(value);
    TelPatternIff(value);
    if required && value == [] then
      Invalid(RequiredMessage)
    else if kind == "email" && value != [] then
      if MatchesEmailPattern(value) then Valid else Invalid(EmailMessage)
    else if kind == "tel" && value != [] then
      if !MatchesTelPattern(value) || |Keep(value, JsDigit)| < 10 then Invalid(PhoneMessage) else Valid
    else
      Valid
  }

  /** A form control: its value, its `type` and `required` attributes, its
      class list, and the `.field-error` note shown beside it. */
  class FormField {
    var value: string
    const kind: string
    const required: bool
    var classes: set<string>
    var errorNote: Option<string>

    constructor (value: string, kind: string, required: bool, classes: set<string>)
      ensures this.value == value && this.kind == kind && this.required == required
      ensures this.classes == classes && errorNote == None
    {
      this.value, this.kind, this.required := value, kind, required;
      this.classes, errorNote := classes, None;
    }

    /** `validateField(field)`: afterwards exactly one of `error` and
        `success` is set, the note shows the message of an invalid field, and
        no other class changes. */
    method ValidateField() returns (isValid: bool)
      modifies this`classes, this`errorNote
      ensures isValid == Validate(value, kind, required).Valid?
      ensures ("error" in classes) != ("success" in classes)
      ensures "success" in classes <==> isValid
      ensures classes - {"error", "success"} == old(classes) - {"error", "success"}
      ensures errorNote == if isValid then None else Some(Validate(value, kind, required).message)
    {
      var verdict := Validate(value, kind, required);
      isValid := verdict.Valid?;
      if isValid {
        MarkSuccess();
      } else {
        MarkError(verdict.message);
      }
    }

    /** The valid branch: swap `error` for `success` and remove the note. */
    method MarkSuccess()
      modifies this`classes, this`errorNote
      ensures "success" in classes && "error" !in classes
      ensures classes - {"error", "success"} == old(classes) - {"error", "success"}
      ensures errorNote == None
    {
      assert "error" != "success" by { assert "error"[0] != "success"[0]; }
      classes := classes - {"error"};
      classes := classes + {"success"};
      errorNote := None;
    }

    /** The invalid branch: swap `success` for `error` and show `message` in
        a fresh note. */
    method MarkError(message: string)
      modifies this`classes, this`errorNote
      ensures "error" in classes && "success" !in classes
      ensures classes - {"error", "success"} == old(classes) - {"error", "success"}
      ensures errorNote == Some(message)
    {
      assert "error" != "success" by { assert "error"[0] != "success"[0]; }
      classes := classes - {"success"};
      classes := classes + {"error"};
      errorNote := None;
      errorNote := Some(message);
    }
  }
}
