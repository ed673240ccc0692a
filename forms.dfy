/** The `clean_*` hooks of QbixSolutions/forms.py. Each reads one cleaned
    field and either returns it unchanged or raises `ValidationError`, which
    the model returns as `ValidationError(message)`. */
module Forms {
  import opened Wrappers
  import opened Chars
  import opened Text
  import opened Models

  /** The digits `re.sub(r'\D', '', phone)` leaves (Python `\d` is Unicode-aware). */
  function PhoneDigits(phone: string): (r: string)
    ensures forall c :: c in r <==> c in phone && PyDigit(c)
  {
    Keep(phone, PyDigit)
  }

  /** The rule shared by the three `clean_phone` hooks: at least ten digits. */
  function CleanPhone(phone: string, message: string): (r: Result<string>)
    ensures r.Ok? <==> |PhoneDigits(phone)| >= 10
    ensures r.Ok? ==> r.value == phone
    ensures r.ValidationError? ==> r.message == message
  {
    if |PhoneDigits(phone)| < 10 then ValidationError(message) else Ok(phone)
  }

  /** The contact form words its phone error differently from the other two. */
  const ContactPhoneMessage: string := "Please enter a valid phone number with at least 10 digits."
  const FormPhoneMessage: string := "Please enter a valid phone number."

  /** `ContactForm.clean_phone`. */
  function ContactCleanPhone(phone: string): (r: Result<string>)
    ensures r.Ok? <==> |PhoneDigits(phone)| >= 10
    ensures r.Ok? ==> r.value == phone
    ensures r.ValidationError? ==> r.message == ContactPhoneMessage
  {
    CleanPhone(phone, ContactPhoneMessage)
  }

  /** `CareerApplicationForm.clean_phone`. */
  function CareerCleanPhone(phone: string): (r: Result<string>)
    ensures r.Ok? <==> |PhoneDigits(phone)| >= 10
    ensures r.Ok? ==> r.value == phone
    ensures r.ValidationError? ==> r.message == FormPhoneMessage
  {
    CleanPhone(phone, FormPhoneMessage)
  }

  /** `ConsultationForm.clean_phone`. */
  function ConsultationCleanPhone(phone: string): (r: Result<string>)
    ensures r.Ok? <==> |PhoneDigits(phone)| >= 10
    ensures r.Ok? ==> r.value == phone
    ensures r.ValidationError? ==> r.message == FormPhoneMessage
  {
    CleanPhone(phone, FormPhoneMessage)
  }

  /** The three forms accept and reject the same phone numbers. */
  lemma PhoneRuleShared(phone: string)
    ensures ContactCleanPhone(phone).Ok? == CareerCleanPhone(phone).Ok?
    ensures CareerCleanPhone(phone).Ok? == ConsultationCleanPhone(phone).Ok?
  {
  }

  /** Inserting a character that is not a digit (a space, a dash, a bracket)
      anywhere never changes the verdict. */
  lemma PhoneIgnoresNonDigits(a: string, c: char, b: string)
    requires !PyDigit(c)
    ensures ContactCleanPhone(a + [c] + b).Ok? == ContactCleanPhone(a + b).Ok?
  {
    KeepIgnoresOthers(a, c, b, PyDigit);
  }

  /** `ContactForm.clean_name`: at least two characters (code points). */
  function CleanName(name: string): (r: Result<string>)
    ensures r.Ok? <==> |name| >= 2
    ensures r.Ok? ==> r.value == name
    ensures r.ValidationError? ==> r.message == NameMessage
  {
    if |name| < 2 then ValidationError(NameMessage) else Ok(name)
  }

  const NameMessage: string := "Name must be at least 2 characters long."


  /** An uploaded file: its name and its size in bytes. */
  datatype UploadedFile = UploadedFile(name: string, size: nat)

  /** Largest accepted resume, 5 MiB. */
  const MaxResumeSize: nat := 5 * 1024 * 1024

  const AllowedExtensions: seq<string> := ["pdf", "doc", "docx"]

  const SizeMessage: string := "Resume file size must not exceed 5MB."
  const ExtensionMessage: string := "Only PDF, DOC, and DOCX files are allowed."

  /** `name.split('.')[-1]`: the text after the last '.', or all of `name`. */
  function LastDotPiece(name: string): (r: string)
    ensures '.' !in r
    ensures '.' !in name ==> r == name
    ensures '.' in name ==> exists k :: 0 <= k < |name| && name[k] == '.' && r == name[k + 1..]
  {
    var pieces := Split(name, '.');
    if '.' !in name then SplitWithout(name, '.'); pieces[|pieces| - 1]
    else LastPieceIsSuffix(name, '.'); pieces[|pieces| - 1]
  }

  /** The last piece of a split that saw the separator follows its last occurrence. */
  lemma {:induction false} LastPieceIsSuffix(s: string, sep: char)
    requires sep in s
    ensures var p := Split(s, sep);
      exists k :: 0 <= k < |s| && s[k] == sep && p[|p| - 1] == s[k + 1..]
  {
    var p := Split(s, sep);
    var t := Split(s[1..], sep);
    if sep in s[1..] {
      LastPieceIsSuffix(s[1..], sep);
      var k :| 0 <= k < |s[1..]| && s[1..][k] == sep && t[|t| - 1] == s[1..][k + 1..];
      assert |t| >= 2 by { SplitWithoutOne(s[1..], sep, k); }
      assert p[|p| - 1] == t[|t| - 1];
      assert s[k + 1] == sep && s[k + 2..] == s[1..][k + 1..];
    } else {
      assert s[0] == sep;
      SplitWithout(s[1..], sep);
      assert p == [[]] + [s[1..]];
    }
  }

  /** A split that saw the separator has at least two pieces. */
  lemma SplitWithoutOne(s: string, sep: char, k: nat)
    requires k < |s| && s[k] == sep
    ensures |Split(s, sep)| >= 2
  {
    CountPositive(s, sep, k);
  }

  lemma {:induction false} CountPositive(s: string, c: char, k: nat)
    requires k < |s| && s[k] == c
    ensures Count(s, c) >= 1
  {
    if k > 0 {
      CountPositive(s[1..], c, k - 1);
    }
  }

  /** `str.lower()` restricted to ASCII: 'A'..'Z' map to 'a'..'z' and every
      other character is kept. Python also lowers non-ASCII letters (U+212A
      KELVIN SIGN becomes 'k'), but no such mapping turns a name's extension
      into "pdf", "doc" or "docx", so the accept decision is unchanged. */
  function Lower(s: string): (r: string)
    ensures |r| == |s|
    ensures forall k :: 0 <= k < |s| ==> r[k] == (if 'A' <= s[k] <= 'Z' then (s[k] as int + 32) as char else s[k])
  {
    if s == [] then [] else [if 'A' <= s[0] <= 'Z' then (s[0] as int + 32) as char else s[0]] + Lower(s[1..])
  }

  /** The lower-cased extension of a file name. */
  function Extension(name: string): (r: string)
    ensures '.' !in r
    ensures '.' !in name ==> r == Lower(name)
    ensures '.' in name ==> exists k :: 0 <= k < |name| && name[k] == '.' && r == Lower(name[k + 1..])
  {
    var p := LastDotPiece(name);
    var r := Lower(p);
    assert forall k :: 0 <= k < |r| ==> r[k] != '.' by {
      forall k | 0 <= k < |r| ensures r[k] != '.' { assert p[k] != '.'; }
    }
    r
  }

  /** `CareerApplicationForm.clean_resume`. `if resume:` is Django's
      `File.__bool__`, true when a file is present and has a name. */
  function CleanResume(resume: Option<UploadedFile>): (r: Result<Option<UploadedFile>>)
    ensures resume.None? ==> r == Ok(resume)
    ensures resume.Some? && resume.value.size > MaxResumeSize && resume.value.name != []
      ==> r == ValidationError(SizeMessage)
    ensures resume.Some? && resume.value.name != [] && resume.value.size <= MaxResumeSize &&
            Extension(resume.value.name) !in AllowedExtensions
      ==> r == ValidationError(ExtensionMessage)
    ensures r.Ok? ==> r.value == resume
    ensures r.Ok? <==> (resume.None? || resume.value.name == [] ||
                        (resume.value.size <= MaxResumeSize && Extension(resume.value.name) in AllowedExtensions))
  {
    match resume
    case None => Ok(resume)
    case Some(f) =>
      if f.name == [] then Ok(resume)
      else if f.size > MaxResumeSize then ValidationError(SizeMessage)
      else if Extension(f.name) !in AllowedExtensions then ValidationError(ExtensionMessage)
      else Ok(resume)
  }

  /** Exactly 5 MiB passes the size check, one byte more does not. */
  lemma ResumeSizeBoundary(name: string)
    requires name != [] && Extension(name) in AllowedExtensions
    ensures CleanResume(Some(UploadedFile(name, 5 * 1024 * 1024))).Ok?
    ensures CleanResume(Some(UploadedFile(name, 5 * 1024 * 1024 + 1))) == ValidationError(SizeMessage)
  {
  }

  /** The extension is what follows the last '.', lower-cased, whatever
      precedes it (dots included). */
  lemma ExtensionAfterLastDot(stem: string, ext: string)
    requires '.' !in ext
    ensures Extension(stem + ['.'] + ext) == Lower(ext)
  {
    SplitAppend(stem, ext, '.');
    SplitWithout(ext, '.');
  }

  /** `NewsletterForm.clean_email`: `subscribers` is the subscriber table. */
  function CleanNewsletterEmail(email: string, subscribers: seq<NewsletterSubscriber>): (r: Result<string>)
    ensures r.ValidationError? <==> NewsletterSubscriber(email, true) in subscribers
    ensures r.Ok? ==> r.value == email
    ensures r.ValidationError? ==> r.message == SubscribedMessage
  {
    if exists k :: 0 <= k < |subscribers| && subscribers[k].email == email && subscribers[k].active then
      ValidationError(SubscribedMessage)
    else
      Ok(email)
  }

  const SubscribedMessage: string := "This email is already subscribed to our newsletter."

}
