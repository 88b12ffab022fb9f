/** The contact form: the field values `getFormData` collects, the four
    ordered checks of `validateForm`, the email check repeated when the email
    field loses focus, the phone field's input filter and the product
    preselection done by `prefillContactForm`. */
module ContactForm {
  import opened Js
  import opened Seqs

  // ---------------------------------------------------------------------
  // Form data
  // ---------------------------------------------------------------------

  /** What the form's controls hold when it is submitted. */
  datatype Controls = Controls(name: string, email: string, phone: string,
                               productInterest: string, message: string,
                               consent: bool)

  /** The record handed to the validator. The submission timestamp is not
      modelled. */
  datatype FormData = FormData(name: string, email: string, phone: string,
                               productInterest: string, message: string,
                               consent: bool)

  /** `getFormData`: the name, email, phone and message controls are
      trimmed, each empty exactly when the control held only whitespace; the
      product choice and the consent box are taken as they are. */
  function Collect(c: Controls): (f: FormData)
    ensures IsTrimOf(c.name, f.name) && IsTrimOf(c.email, f.email)
    ensures IsTrimOf(c.phone, f.phone) && IsTrimOf(c.message, f.message)
    ensures f.name == [] <==> AllWhitespace(c.name)
    ensures f.email == [] <==> AllWhitespace(c.email)
    ensures f.phone == [] <==> AllWhitespace(c.phone)
    ensures f.message == [] <==> AllWhitespace(c.message)
    ensures f.productInterest == c.productInterest && f.consent == c.consent
  {
    FormData(Trim(c.name), Trim(c.email), Trim(c.phone), c.productInterest,
             Trim(c.message), c.consent)
  }

  /** The record `getFormData` builds is the only one its contract allows:
      any record holding the trimmed text of each control and the product
      choice and consent as they are is `Collect(c)`. */
  lemma CollectUnique(c: Controls, f: FormData)
    requires IsTrimOf(c.name, f.name) && IsTrimOf(c.email, f.email)
    requires IsTrimOf(c.phone, f.phone) && IsTrimOf(c.message, f.message)
    requires f.productInterest == c.productInterest && f.consent == c.consent
    ensures f == Collect(c)
  {
    TrimUnique(c.name, f.name);
    TrimUnique(c.email, f.email);
    TrimUnique(c.phone, f.phone);
    TrimUnique(c.message, f.message);
  }

  /** Collecting again from controls that already hold the collected values
      yields the same record. */
  lemma CollectIdempotent(c: Controls)
    ensures var f := Collect(c);
      Collect(Controls(f.name, f.email, f.phone, f.productInterest, f.message, f.consent)) == f
  {
    TrimIdempotent(c.name);
    TrimIdempotent(c.email);
    TrimIdempotent(c.phone);
    TrimIdempotent(c.message);
  }

  // ---------------------------------------------------------------------
  // The email pattern /^[^\s@]+@[^\s@]+\.[^\s@]+$/
  // ---------------------------------------------------------------------

  /** `[^\s@]`: neither whitespace nor `@`. */
  predicate EmailChar(c: char) {
    !IsWhitespace(c) && c != '@'
  }

  predicate AllEmailChars(s: string) {
    forall k | 0 <= k < |s| :: EmailChar(s[k])
  }

  /** The pattern read literally: `s` splits at an `@` (index `at`) and a
      later `.` (index `dot`) into three non-empty runs of `[^\s@]`. */
  predicate EmailSplit(s: string, at: int, dot: int) {
    && 0 < at && at + 1 < dot && dot + 1 < |s|
    && s[at] == '@' && s[dot] == '.'
    && AllEmailChars(s[..at])
    && AllEmailChars(s[at + 1..dot])
    && AllEmailChars(s[dot + 1..])
  }

  predicate MatchesEmailPattern(s: string) {
    exists at, dot | 0 <= at < |s| && 0 <= dot < |s| :: EmailSplit(s, at, dot)
  }

  /** The same language described by what an address contains: no
      whitespace, exactly one `@` with something before it, and a `.` after
      the `@` that is neither the first nor the last character of the part
      after the `@`. */
  predicate WellFormedEmail(s: string) {
    && (forall k | 0 <= k < |s| :: !IsWhitespace(s[k]))
    && exists at | 0 < at < |s| ::
         && s[at] == '@'
         && (forall k | 0 <= k < |s| && k != at :: s[k] != '@')
         && exists dot | at + 1 < dot < |s| - 1 :: s[dot] == '.'
  }

  /** The pattern and the description agree on every string. */
  lemma EmailPatternIsWellFormed(s: string)
    ensures MatchesEmailPattern(s) <==> WellFormedEmail(s)
  {
    if MatchesEmailPattern(s) {
      var at, dot :| 0 <= at < |s| && 0 <= dot < |s| && EmailSplit(s, at, dot);
      forall k | 0 <= k < |s| && k != at
        ensures EmailChar(s[k])
      {
        if k < at {
          assert s[k] == s[..at][k];
        } else if k < dot {
          assert s[k] == s[at + 1..dot][k - at - 1];
        } else if k > dot {
          assert s[k] == s[dot + 1..][k - dot - 1];
        }
      }
    }
    if WellFormedEmail(s) {
      var at :| 0 < at < |s| && s[at] == '@'
        && (forall k | 0 <= k < |s| && k != at :: s[k] != '@')
        && exists dot | at + 1 < dot < |s| - 1 :: s[dot] == '.';
      var dot :| at + 1 < dot < |s| - 1 && s[dot] == '.';
      assert EmailSplit(s, at, dot);
    }
  }

  /** `emailRegex.test(s)` as one left-to-right pass: it remembers the `@`
      and the first `.` at least two places after it, and gives up at
      whitespace, at a second `@` or at an `@` in front. */
  method TestEmail(s: string) returns (ok: bool)
    ensures ok <==> MatchesEmailPattern(s)
  {
    var at := -1;
    var dot := -1;
    var broken := false;
    var i := 0;
    while i < |s|
      invariant 0 <= i <= |s|
      invariant broken ==> !WellFormedEmail(s)
      invariant !broken ==> forall k | 0 <= k < i :: !IsWhitespace(s[k])
      invariant !broken && at < 0 ==> forall k | 0 <= k < i :: s[k] != '@'
      invariant at < 0 ==> dot < 0
      invariant !broken && at >= 0 ==> 0 < at < i && s[at] == '@'
      invariant !broken && at >= 0 ==> forall k | 0 <= k < i && k != at :: s[k] != '@'
      invariant !broken && at >= 0 && dot >= 0 ==> at + 1 < dot < i && s[dot] == '.'
      invariant !broken && at >= 0 ==> forall d | at + 1 < d < i && (dot < 0 || d < dot) :: s[d] != '.'
    {
      var c := s[i];
      if !broken {
        if IsWhitespace(c) {
          broken := true;
        } else if c == '@' {
          if at >= 0 || i == 0 {
            broken := true;
          } else {
            at := i;
          }
        } else if c == '.' && at >= 0 && i > at + 1 && dot < 0 {
          dot := i;
        }
      }
      i := i + 1;
    }
    ok := !broken && at >= 0 && dot >= 0 && dot < |s| - 1;
    EmailPatternIsWellFormed(s);
  }

  // ---------------------------------------------------------------------
  // The phone pattern /^[\d\s\-\+\(\)]{8,}$/ and the phone input filter
  // ---------------------------------------------------------------------

  /** `[\d\s\-\+\(\)]`. */
  predicate PhoneChar(c: char) {
    IsDigit(c) || IsWhitespace(c) || c == '-' || c == '+' || c == '(' || c == ')'
  }

  const MinPhoneLength: nat := 8

  predicate MatchesPhonePattern(s: string) {
    |s| >= MinPhoneLength && forall k | 0 <= k < |s| :: PhoneChar(s[k])
  }

  /** The characters `replace(/[^\d\+]/g, '')` leaves in the phone field. */
  predicate KeptInPhone(c: char) {
    IsDigit(c) || c == '+'
  }

  /** The phone field's `input` handler: every character other than a digit
      or `+` is deleted; those two kinds are all kept, in their order. */
  function SanitizePhone(s: string): (r: string)
    ensures forall k | 0 <= k < |r| :: IsDigit(r[k]) || r[k] == '+'
    ensures forall c :: multiset(r)[c] == if IsDigit(c) || c == '+' then multiset(s)[c] else 0
    ensures IsSubsequence(r, s)
  {
    Filter(s, KeptInPhone)
  }

  /** Running the filter on its own output changes nothing. */
  lemma SanitizePhoneIdempotent(s: string)
    ensures SanitizePhone(SanitizePhone(s)) == SanitizePhone(s)
  {
    FilterIdempotent(s, KeptInPhone);
  }

  /** Text made only of digits and `+` passes the filter unchanged. */
  lemma SanitizePhoneFixes(s: string)
    requires forall k | 0 <= k < |s| :: IsDigit(s[k]) || s[k] == '+'
    ensures SanitizePhone(s) == s
  {
    FilterKeepsAll(s, KeptInPhone);
  }

  /** After the filter has run, the submit-time phone check only looks at the
      length: a filtered phone passes exactly when it is empty or has at
      least eight characters. */
  lemma SanitizedPhoneCheck(s: string)
    ensures var p := SanitizePhone(s);
      (p == [] || MatchesPhonePattern(p)) <==> (|p| == 0 || |p| >= MinPhoneLength)
  {
  }

  // ---------------------------------------------------------------------
  // validateForm
  // ---------------------------------------------------------------------

  /** The checks of `validateForm`, in the order they run. */
  datatype Check = Required | EmailFormat | PhoneFormat | Consent

  function Rank(c: Check): nat {
    match c
    case Required => 0
    case EmailFormat => 1
    case PhoneFormat => 2
    case Consent => 3
  }

  /** Whether `f` fails check `c` on its own. */
  predicate Fails(f: FormData, c: Check) {
    match c
    case Required => !Truthy(f.name) || !Truthy(f.email)
    case EmailFormat => !MatchesEmailPattern(f.email)
    case PhoneFormat => Truthy(f.phone) && !MatchesPhonePattern(f.phone)
    case Consent => !f.consent
  }

  datatype Verdict = Valid | Invalid(failed: Check)

  /** `validateForm`: valid when no check fails; otherwise the first check in
      the running order that fails, whose message is the one shown. */
  function Validate(f: FormData): (v: Verdict)
    ensures v == Valid <==> forall c :: !Fails(f, c)
    ensures v.Invalid? ==> Fails(f, v.failed)
    ensures v.Invalid? ==> forall c | Rank(c) < Rank(v.failed) :: !Fails(f, c)
  {
    if Fails(f, Required) then Invalid(Required)
    else if Fails(f, EmailFormat) then Invalid(EmailFormat)
    else if Fails(f, PhoneFormat) then Invalid(PhoneFormat)
    else if Fails(f, Consent) then Invalid(Consent)
    else Valid
  }

  /** The form is accepted exactly when the name is filled in, the email is
      filled in and well formed, the phone is empty or well formed, and
      consent is given. */
  lemma ValidIff(f: FormData)
    ensures Validate(f) == Valid <==>
      && f.name != []
      && f.email != []
      && WellFormedEmail(f.email)
      && (f.phone == [] || MatchesPhonePattern(f.phone))
      && f.consent
  {
    EmailPatternIsWellFormed(f.email);
    if Validate(f) == Valid {
      assert !Fails(f, Required) && !Fails(f, EmailFormat);
      assert !Fails(f, PhoneFormat) && !Fails(f, Consent);
    }
  }

  /** The error message shown for each failed check. */
  function Message(c: Check): string {
    match c
    case Required => "Παρακαλώ συμπληρώστε τα υποχρεωτικά πεδία (*)"
    case EmailFormat => "Παρακαλώ εισάγετε ένα έγκυρο email"
    case PhoneFormat => "Παρακαλώ εισάγετε ένα έγκυρο τηλέφωνο"
    case Consent => "Πρέπει να συναινέσετε στην επεξεργασία των δεδομένων σας"
  }

  /** A form whose name field holds only whitespace is refused as missing a
      required field, whatever else it holds. */
  lemma BlankNameRefused(c: Controls)
    requires AllWhitespace(c.name)
    ensures Validate(Collect(c)) == Invalid(Required)
  {
  }

  /** A filled-in form with a well-formed international phone number is
      accepted. */
  lemma SampleAccepted()
    ensures Validate(FormData("Maria", "maria@example.com", "+30 6912345678", "health", "", true)) == Valid
  {
    var f := FormData("Maria", "maria@example.com", "+30 6912345678", "health", "", true);
    SampleEmailMatches(f.email);
    SamplePhoneMatches(f.phone);
    assert !Fails(f, Required) && !Fails(f, EmailFormat);
    assert !Fails(f, PhoneFormat) && !Fails(f, Consent);
  }

  lemma SampleEmailMatches(email: string)
    requires email == "maria@example.com"
    ensures MatchesEmailPattern(email)
  {
    assert email[..5] == "maria" && email[6..13] == "example" && email[14..] == "com";
    assert EmailSplit(email, 5, 13);
  }

  lemma SamplePhoneMatches(phone: string)
    requires phone == "+30 6912345678"
    ensures MatchesPhonePattern(phone)
  {
  }

  /** An address without a dot after the `@` is refused as malformed. */
  lemma DotlessEmailRefused()
    ensures Validate(FormData("Maria", "foo@bar", "", "", "", true)) == Invalid(EmailFormat)
  {
  }

  /** What a submit does before the simulated delay: either the message of
      the first failed check is shown, or the collected record goes to the
      (simulated) sending step. */
  datatype Submission = Refused(message: string) | Sending(data: FormData)

  /** `handleFormSubmit` up to the start of sending: a submission is sent
      only when every check passes on the collected record, and is refused
      with the message of the first failing check otherwise. */
  function Submit(c: Controls): (s: Submission)
    ensures s.Sending? ==> s.data == Collect(c) && forall k :: !Fails(s.data, k)
    ensures s.Refused? ==> Validate(Collect(c)).Invalid? && s.message == Message(Validate(Collect(c)).failed)
  {
    var f := Collect(c);
    match Validate(f)
    case Valid => Sending(f)
    case Invalid(k) => Refused(Message(k))
  }

  // ---------------------------------------------------------------------
  // The email field's blur check
  // ---------------------------------------------------------------------

  datatype Border = Plain | Alert

  /** On blur the trimmed email is marked when it is non-empty and does not
      match the email pattern. */
  function EmailBlurBorder(value: string): (b: Border)
    ensures b == Alert <==> Trim(value) != [] && !WellFormedEmail(Trim(value))
  {
    EmailPatternIsWellFormed(Trim(value));
    var email := Trim(value);
    if Truthy(email) && !MatchesEmailPattern(email) then Alert else Plain
  }

  /** The blur check and the submit check agree: for a form whose name is
      filled in and whose email is the trimmed field, the field is marked
      exactly when submitting fails on the email format. */
  lemma BlurAgreesWithSubmit(value: string, f: FormData)
    requires f.name != [] && f.email == Trim(value) && f.email != []
    ensures EmailBlurBorder(value) == Alert <==> Validate(f) == Invalid(EmailFormat)
  {
  }

  // ---------------------------------------------------------------------
  // prefillContactForm
  // ---------------------------------------------------------------------

  /** The option values of the product-interest selector the table uses. */
  const CategoryKeys: set<string> := {"health", "car", "home", "life"}

  /** The static product-name table of `prefillContactForm`. */
  const ProductCategory: map<string, string> := map[
    "Ολοκληρωμένη Ασφάλεια Υγείας" := "health",
    "Οικογενειακή Ασφάλεια Υγείας" := "health",
    "Αστική Ευθύνη Οχήματος" := "car",
    "Πλήρης Κάλυψη Αυτοκινήτου" := "car",
    "Ασφάλεια Κατοικίας" := "home",
    "Ασφάλεια Ζωής" := "life"
  ]

  /** Every table entry is a truthy category key, so the lookup is truthy
      exactly when the name is in the table. */
  lemma TableValuesAreCategories()
    ensures forall n | n in ProductCategory :: ProductCategory[n] in CategoryKeys
    ensures forall n | n in ProductCategory :: Truthy(ProductCategory[n])
  {
  }

  /** The selector value after `prefillContactForm(productName, category)`,
      starting from `selection`: the table's category when the name is in
      the table, otherwise a truthy category argument, otherwise unchanged. */
  function Prefill(selection: string, productName: string, category: Arg): (r: string)
    ensures productName in ProductCategory ==> r in CategoryKeys
    ensures productName in ProductCategory ==> r == ProductCategory[productName]
    ensures productName !in ProductCategory && category.IsTruthy() ==> r == category.value
    ensures productName !in ProductCategory && !category.IsTruthy() ==> r == selection
  {
    if productName in ProductCategory then ProductCategory[productName]
    else if category.IsTruthy() then category.value
    else selection
  }

  /** The table wins over any category argument, and the previous selection
      survives only when neither the table nor the argument supplies one. */
  lemma PrefillPrecedence(selection: string, productName: string, category: Arg, other: Arg, previous: string)
    ensures productName in ProductCategory ==> Prefill(selection, productName, category) == Prefill(previous, productName, other)
    ensures Prefill(selection, productName, category) == selection || Prefill(selection, productName, category) in CategoryKeys
         || (category.Given? && Prefill(selection, productName, category) == category.value)
  {
  }

  /** Requesting the same product twice leaves the form as the first request
      did. */
  lemma PrefillIdempotent(selection: string, productName: string, category: Arg)
    ensures Prefill(Prefill(selection, productName, category), productName, category)
         == Prefill(selection, productName, category)
  {
  }

  /** `InsuranceApp.showContactForm(productName)`: prefill only for a truthy
      name, with the category argument omitted. */
  function ShowContactForm(selection: string, productName: string): (r: string)
    ensures productName in ProductCategory ==> r == ProductCategory[productName]
    ensures productName !in ProductCategory ==> r == selection
  {
    if Truthy(productName) then Prefill(selection, productName, Undefined) else selection
  }
}
