/** How the browser's check of a phone field (`validateField` in
    static/js/main.js) relates to the server's (`clean_phone` in forms.py).
    The browser trims JavaScript whitespace and counts ASCII digits; Django's
    `CharField` strips Python whitespace before `clean_phone` counts Unicode
    decimal digits. The bridge is about a required control of type `tel`:
    the phone fields forms.py renders use `TextInput` (type `text`), and on
    those `validateField` only checks that the value is not blank, so a value
    such as "abc" passes the browser and is refused by `clean_phone`. */
module Consistency {
  import opened Chars
  import opened Text
  import opened FieldValidation
  import opened Forms

  /** A phone number the browser lets through in a required `tel` control is
      never refused by the server for having too few digits. */
  lemma BrowserAcceptedPhonePassesServer(raw: string)
    requires Trim(raw, JsSpace) != [] && Validate(raw, "tel", true).Valid?
    ensures ContactCleanPhone(Trim(raw, PySpace)).Ok?
    ensures CareerCleanPhone(Trim(raw, PySpace)).Ok?
    ensures ConsultationCleanPhone(Trim(raw, PySpace)).Ok?
  {
    var browser := Trim(raw, JsSpace);
    assert |Keep(browser, JsDigit)| >= 10;
    KeepTrim(raw, JsSpace, JsDigit);
    forall c | JsDigit(c) ensures PyDigit(c) { DigitClassesAgree(c); }
    KeepWider(raw, JsDigit, PyDigit);
    forall c | PySpace(c) ensures !PyDigit(c) { DigitClassesAgree(c); }
    KeepTrim(raw, PySpace, PyDigit);
  }
}
