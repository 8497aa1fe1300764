/** The validation rules of the University model: four presence checks, a
    URL format check on the website and the hand-written contact-email check.
    Rails runs the validators in declaration order and every one of them adds
    to the same error collection, so the result of validating a record is an
    ordered sequence of field-scoped errors. */
module Validation {

  /** The validated attributes of a University. */
  datatype Field = Name | Location | Website | ContactEmails

  /** A University's attributes. Rails reads a missing (nil) string attribute
      as blank for presence and as "" for format, so "" stands for nil here.
      contact_emails is never nil: a create that omits it gets the column
      default [], and the request filter drops a null value. */
  datatype University = University(
    name: string,
    location: string,
    website: string,
    contactEmails: seq<string>)

  /** One entry of the record's `errors` collection. */
  datatype FieldError = FieldError(field: Field, message: string)

  /** The three tests the model takes from outside: `String#blank?`, the
      http/https URI regexp and the mail-address regexp. Nothing is assumed of
      them except that the empty string is blank, which is how Rails defines blank. */
  datatype Predicates = Predicates(
    blank: string -> bool,
    httpUrl: string -> bool,
    email: string -> bool)

  type Rules = p: Predicates | p.blank("")
    witness Predicates(s => s == "", s => true, s => true)

  const CantBeBlank := "can't be blank"
  const IsInvalid := "is invalid"
  const NeedsOneEmail := "must have at least one email"
  const NotValidEmailSuffix := " is not a valid email"

  /** The message added for a contact email that fails the email pattern. */
  function NotValidEmail(email: string): (r: string)
  {
    email + NotValidEmailSuffix
  }

  /** The humanized attribute name that full messages start with. */
  function Label(f: Field): (r: string)
  {
    match f
    case Name => "Name"
    case Location => "Location"
    case Website => "Website"
    case ContactEmails => "Contact emails"
  }

  /** `errors.full_messages`: each message prefixed by its attribute's label. */
  function FullMessages(errors: seq<FieldError>): (r: seq<string>)
    ensures |r| == |errors|
    ensures forall i :: 0 <= i < |errors| ==>
      r[i] == Label(errors[i].field) + " " + errors[i].message
  {
    if errors == [] then []
    else [Label(errors[0].field) + " " + errors[0].message] + FullMessages(errors[1..])
  }

  /** `validates <field>, presence: true` on a string attribute. */
  function PresenceErrors(rules: Rules, field: Field, value: string): (r: seq<FieldError>)
  {
    if rules.blank(value) then [FieldError(field, CantBeBlank)] else []
  }

  /** `format: URI::regexp(%w[http https])` on the website. */
  function WebsiteFormatErrors(rules: Rules, website: string): (r: seq<FieldError>)
  {
    if rules.httpUrl(website) then [] else [FieldError(Website, IsInvalid)]
  }

  /** `validates :contact_emails, presence: true`: an array is blank when empty. */
  function EmailsPresenceErrors(emails: seq<string>): (r: seq<FieldError>)
  {
    if |emails| == 0 then [FieldError(ContactEmails, CantBeBlank)] else []
  }

  /** The errors the `each` loop of validate_contact_emails adds, in list order. */
  function InvalidEmailErrors(rules: Rules, emails: seq<string>): (r: seq<FieldError>)
  {
    if emails == [] then []
    else
      (if rules.email(emails[0]) then [] else [FieldError(ContactEmails, NotValidEmail(emails[0]))])
      + InvalidEmailErrors(rules, emails[1..])
  }

  /** Everything validate_contact_emails adds. */
  function ContactEmailErrors(rules: Rules, emails: seq<string>): (r: seq<FieldError>)
  {
    if |emails| == 0 then [FieldError(ContactEmails, NeedsOneEmail)]
    else InvalidEmailErrors(rules, emails)
  }

  /** The errors of the validators on the string attributes: name,
      location and website presence, then the website format. */
  function AttributeErrors(rules: Rules, u: University): (r: seq<FieldError>)
  {
    PresenceErrors(rules, Name, u.name)
    + PresenceErrors(rules, Location, u.location)
    + PresenceErrors(rules, Website, u.website)
    + WebsiteFormatErrors(rules, u.website)
  }

  /** The whole `errors` collection after `valid?`, in the order Rails runs
      the validators. */
  function Errors(rules: Rules, u: University): (r: seq<FieldError>)
  {
    AttributeErrors(rules, u)
    + EmailsPresenceErrors(u.contactEmails)
    + ContactEmailErrors(rules, u.contactEmails)
  }

  /** `valid?`: no validator added an error. */
  predicate IsValid(rules: Rules, u: University)
  {
    Errors(rules, u) == []
  }

  /** The validation rules stated field by field, independently of how the
      errors are collected. */
  predicate Conforms(rules: Rules, u: University)
  {
    && !rules.blank(u.name)
    && !rules.blank(u.location)
    && !rules.blank(u.website)
    && rules.httpUrl(u.website)
    && |u.contactEmails| > 0
    && forall e :: e in u.contactEmails ==> rules.email(e)
  }

  /** The errors of `errors` that are on field `f`, in order (`errors[f]`). */
  function ErrorsOn(errors: seq<FieldError>, f: Field): (r: seq<FieldError>)
  {
    if errors == [] then []
    else (if errors[0].field == f then [errors[0]] else []) + ErrorsOn(errors[1..], f)
  }

  /** validate_contact_emails as the source runs it: it appends to the error
      collection one entry at a time and never removes or reorders what
      earlier validators put there. */
  method ValidateContactEmails(rules: Rules, emails: seq<string>, errors: seq<FieldError>)
    returns (errors': seq<FieldError>)
    ensures errors' == errors + ContactEmailErrors(rules, emails)
  {
    errors' := errors;
    if |emails| == 0 {
      errors' := errors' + [FieldError(ContactEmails, NeedsOneEmail)];
    } else {
      for i := 0 to |emails|
        invariant errors' == errors + InvalidEmailErrors(rules, emails[..i])
      {
        assert emails[..i + 1] == emails[..i] + [emails[i]];
        InvalidEmailErrorsAppend(rules, emails[..i], [emails[i]]);
        if !rules.email(emails[i]) {
          errors' := errors' + [FieldError(ContactEmails, NotValidEmail(emails[i]))];
        }
      }
      assert emails[..|emails|] == emails;
    }
  }

  /** `valid?` run as Rails runs it: each validator in declaration order adds
      to one error collection. */
  method RunValidations(rules: Rules, u: University) returns (errors: seq<FieldError>)
    ensures errors == Errors(rules, u)
    ensures |errors| == 0 <==> Conforms(rules, u)
  {
    errors := [];
    if rules.blank(u.name) { errors := errors + [FieldError(Name, CantBeBlank)]; }
    assert errors == PresenceErrors(rules, Name, u.name);
    if rules.blank(u.location) { errors := errors + [FieldError(Location, CantBeBlank)]; }
    assert errors == PresenceErrors(rules, Name, u.name) + PresenceErrors(rules, Location, u.location);
    if rules.blank(u.website) { errors := errors + [FieldError(Website, CantBeBlank)]; }
    if !rules.httpUrl(u.website) { errors := errors + [FieldError(Website, IsInvalid)]; }
    assert errors == AttributeErrors(rules, u);
    if |u.contactEmails| == 0 { errors := errors + [FieldError(ContactEmails, CantBeBlank)]; }
    assert errors == AttributeErrors(rules, u) + EmailsPresenceErrors(u.contactEmails);
    errors := ValidateContactEmails(rules, u.contactEmails, errors);
    ValidIffConforms(rules, u);
  }

  // ---------------------------------------------------------------------
  // Facts about the messages

  /** Two failing emails give the same message only if they are the same email. */
  lemma NotValidEmailInjective(a: string, b: string)
    requires NotValidEmail(a) == NotValidEmail(b)
    ensures a == b
  {
    assert |a| == |b|;
    assert a == NotValidEmail(a)[..|a|];
  }

  /** No email message can be confused with the fixed messages. */
  lemma NotValidEmailDistinct(email: string)
    ensures NotValidEmail(email) != CantBeBlank
    ensures NotValidEmail(email) != NeedsOneEmail
    ensures NotValidEmail(email) != IsInvalid
  {
    var m := NotValidEmail(email);
    // |CantBeBlank| and |IsInvalid| are shorter than the suffix; NeedsOneEmail
    // has a 'v' where the suffix would start with a space
    assert m[|email|] == ' ';
    assert |NeedsOneEmail| - |NotValidEmailSuffix| == 7 && NeedsOneEmail[7] == 'v';
  }

  // ---------------------------------------------------------------------
  // The contact-email loop

  /** The loop's errors for a concatenation are those of each part, in order:
      messages follow list order. */
  lemma {:induction false} InvalidEmailErrorsAppend(rules: Rules, a: seq<string>, b: seq<string>)
    ensures InvalidEmailErrors(rules, a + b) == InvalidEmailErrors(rules, a) + InvalidEmailErrors(rules, b)
  {
    if a == [] {
      assert a + b == b;
    } else {
      assert (a + b)[1..] == a[1..] + b;
      InvalidEmailErrorsAppend(rules, a[1..], b);
    }
  }

  /** Every error of the loop is a "not a valid email" message on
      contact_emails, and there is one for an email exactly when the list holds
      that email and it fails the pattern. */
  lemma {:induction false} InvalidEmailErrorsMembership(rules: Rules, emails: seq<string>, e: FieldError)
    ensures e in InvalidEmailErrors(rules, emails) <==>
      e.field == ContactEmails &&
      exists x :: x in emails && !rules.email(x) && e.message == NotValidEmail(x)
  {
    if emails != [] {
      InvalidEmailErrorsMembership(rules, emails[1..], e);
      if e.field == ContactEmails && e.message == NotValidEmail(emails[0]) && !rules.email(emails[0]) {
        assert e in InvalidEmailErrors(rules, emails);
      }
      forall x | x in emails[1..] ensures x in emails { }
      forall x | x in emails && x != emails[0] ensures x in emails[1..] { }
    }
  }

  /** The loop adds a message for a given email exactly when that email is in
      the list and fails the pattern. */
  lemma FailingEmailReported(rules: Rules, emails: seq<string>, x: string)
    ensures FieldError(ContactEmails, NotValidEmail(x)) in InvalidEmailErrors(rules, emails) <==>
      x in emails && !rules.email(x)
  {
    var e := FieldError(ContactEmails, NotValidEmail(x));
    InvalidEmailErrorsMembership(rules, emails, e);
    if e in InvalidEmailErrors(rules, emails) {
      var y :| y in emails && !rules.email(y) && e.message == NotValidEmail(y);
      NotValidEmailInjective(x, y);
    }
  }

  /** At most one message per entry; none at all exactly when every entry matches. */
  lemma {:induction false} InvalidEmailErrorsCount(rules: Rules, emails: seq<string>)
    ensures |InvalidEmailErrors(rules, emails)| <= |emails|
    ensures |InvalidEmailErrors(rules, emails)| == 0 <==> forall x :: x in emails ==> rules.email(x)
    ensures |InvalidEmailErrors(rules, emails)| == |emails| <==> forall x :: x in emails ==> !rules.email(x)
  {
    if emails != [] {
      InvalidEmailErrorsCount(rules, emails[1..]);
      forall x | x in emails[1..] ensures x in emails { }
      forall x | x in emails && x != emails[0] ensures x in emails[1..] { }
    }
  }

  /** The custom validator on an empty list adds exactly "must have at least
      one email" and no per-email message; on a non-empty list it never adds
      that message. */
  lemma ContactEmailErrorsEmptyIff(rules: Rules, emails: seq<string>)
    ensures |emails| == 0 ==> ContactEmailErrors(rules, emails) == [FieldError(ContactEmails, NeedsOneEmail)]
    ensures FieldError(ContactEmails, NeedsOneEmail) in ContactEmailErrors(rules, emails) <==> |emails| == 0
  {
    if |emails| > 0 {
      var e := FieldError(ContactEmails, NeedsOneEmail);
      InvalidEmailErrorsMembership(rules, emails, e);
      if e in InvalidEmailErrors(rules, emails) {
        var y :| y in emails && !rules.email(y) && e.message == NotValidEmail(y);
        NotValidEmailDistinct(y);
      }
    }
  }

  // ---------------------------------------------------------------------
  // The whole validation

  /** The errors on contact_emails: "can't be blank" and "must have at least
      one email" for an empty list, otherwise the loop's messages. */
  lemma ContactEmailsFieldErrors(rules: Rules, u: University)
    ensures |u.contactEmails| == 0 ==>
      ErrorsOn(Errors(rules, u), ContactEmails) ==
        [FieldError(ContactEmails, CantBeBlank), FieldError(ContactEmails, NeedsOneEmail)]
    ensures |u.contactEmails| > 0 ==>
      ErrorsOn(Errors(rules, u), ContactEmails) == InvalidEmailErrors(rules, u.contactEmails)
  {
    var a := AttributeErrors(rules, u);
    var p := EmailsPresenceErrors(u.contactEmails);
    var c := ContactEmailErrors(rules, u.contactEmails);
    ErrorsOnAppend(a + p, c, ContactEmails);
    ErrorsOnAppend(a, p, ContactEmails);
    AttributeErrorsNotOnContactEmails(rules, u);
    ErrorsOnAll(p, ContactEmails);
    if |u.contactEmails| > 0 {
      InvalidEmailFields(rules, u.contactEmails);
    }
    ErrorsOnAll(c, ContactEmails);
    assert ErrorsOn(Errors(rules, u), ContactEmails) == p + c;
  }

  lemma {:induction false} ErrorsOnAppend(a: seq<FieldError>, b: seq<FieldError>, f: Field)
    ensures ErrorsOn(a + b, f) == ErrorsOn(a, f) + ErrorsOn(b, f)
  {
    if a == [] {
      assert a + b == b;
    } else {
      var head := if a[0].field == f then [a[0]] else [];
      assert (a + b)[0] == a[0] && (a + b)[1..] == a[1..] + b;
      assert ErrorsOn(a + b, f) == head + ErrorsOn(a[1..] + b, f);
      ErrorsOnAppend(a[1..], b, f);
      assert head + (ErrorsOn(a[1..], f) + ErrorsOn(b, f)) == (head + ErrorsOn(a[1..], f)) + ErrorsOn(b, f);
    }
  }

  lemma {:induction false} ErrorsOnNone(a: seq<FieldError>, f: Field)
    requires forall e :: e in a ==> e.field != f
    ensures ErrorsOn(a, f) == []
  {
    if a != [] {
      ErrorsOnNone(a[1..], f);
    }
  }

  /** None of the string-attribute validators reports on contact_emails. */
  lemma AttributeErrorsNotOnContactEmails(rules: Rules, u: University)
    ensures ErrorsOn(AttributeErrors(rules, u), ContactEmails) == []
  {
    var a := AttributeErrors(rules, u);
    assert forall e :: e in a ==> e.field != ContactEmails;
    ErrorsOnNone(a, ContactEmails);
  }

  lemma {:induction false} ErrorsOnAll(a: seq<FieldError>, f: Field)
    requires forall i :: 0 <= i < |a| ==> a[i].field == f
    ensures ErrorsOn(a, f) == a
  {
    if a != [] {
      ErrorsOnAll(a[1..], f);
    }
  }

  lemma {:induction false} InvalidEmailFields(rules: Rules, emails: seq<string>)
    ensures forall i :: 0 <= i < |InvalidEmailErrors(rules, emails)| ==>
      InvalidEmailErrors(rules, emails)[i].field == ContactEmails
  {
    if emails != [] {
      InvalidEmailFields(rules, emails[1..]);
    }
  }

  /** Each presence rule fails exactly when its attribute is blank (for
      contact_emails: empty), and the website format rule exactly when the
      website does not match the http/https pattern. */
  lemma PresenceAndFormatIff(rules: Rules, u: University)
    ensures FieldError(Name, CantBeBlank) in Errors(rules, u) <==> rules.blank(u.name)
    ensures FieldError(Location, CantBeBlank) in Errors(rules, u) <==> rules.blank(u.location)
    ensures FieldError(Website, CantBeBlank) in Errors(rules, u) <==> rules.blank(u.website)
    ensures FieldError(Website, IsInvalid) in Errors(rules, u) <==> !rules.httpUrl(u.website)
    ensures FieldError(ContactEmails, CantBeBlank) in Errors(rules, u) <==> |u.contactEmails| == 0
  {
    var a := AttributeErrors(rules, u);
    var p := EmailsPresenceErrors(u.contactEmails);
    var c := ContactEmailErrors(rules, u.contactEmails);
    ContactEmailErrorsOwnMessages(rules, u.contactEmails);
    assert forall e :: e in Errors(rules, u) <==> e in a || e in p || e in c;
  }

  /** The custom validator reports only on contact_emails, and never with
      "can't be blank". */
  lemma ContactEmailErrorsOwnMessages(rules: Rules, emails: seq<string>)
    ensures forall e :: e in ContactEmailErrors(rules, emails) ==>
      e.field == ContactEmails && e.message != CantBeBlank
  {
    if |emails| > 0 {
      forall e | e in InvalidEmailErrors(rules, emails)
        ensures e.field == ContactEmails && e.message != CantBeBlank
      {
        InvalidEmailErrorsMembership(rules, emails, e);
        var y :| y in emails && !rules.email(y) && e.message == NotValidEmail(y);
        NotValidEmailDistinct(y);
      }
    }
  }

  /** Errors accumulate: the record is valid exactly when every rule holds. */
  lemma ValidIffConforms(rules: Rules, u: University)
    ensures IsValid(rules, u) <==> Conforms(rules, u)
  {
    if |u.contactEmails| > 0 {
      InvalidEmailErrorsCount(rules, u.contactEmails);
    }
  }

  /** A record with a blank name is invalid and its full messages include
      "Name can't be blank", whatever else is wrong with it. */
  lemma BlankNameMessage(rules: Rules, u: University)
    requires rules.blank(u.name)
    ensures !IsValid(rules, u)
    ensures "Name can't be blank" in FullMessages(Errors(rules, u))
  {
    var msgs := FullMessages(Errors(rules, u));
    assert Errors(rules, u)[0] == FieldError(Name, CantBeBlank);
    assert msgs[0] == "Name" + " " + CantBeBlank;
    assert "Name" + " " + CantBeBlank == "Name can't be blank";
    assert msgs[0] in msgs;
  }

  /** An entry failing the email pattern, such as "invalid_email", is reported
      on contact_emails as "<entry> is not a valid email". */
  lemma FailingEmailMessage(rules: Rules, u: University, x: string)
    requires x in u.contactEmails && !rules.email(x)
    ensures FieldError(ContactEmails, NotValidEmail(x)) in ErrorsOn(Errors(rules, u), ContactEmails)
    ensures "Contact emails " + NotValidEmail(x) in FullMessages(Errors(rules, u))
  {
    ContactEmailsFieldErrors(rules, u);
    FailingEmailReported(rules, u.contactEmails, x);
    var errs := Errors(rules, u);
    var e := FieldError(ContactEmails, NotValidEmail(x));
    assert e in errs;
    var i :| 0 <= i < |errs| && errs[i] == e;
    assert "Contact emails" + " " == "Contact emails ";
    assert FullMessages(errs)[i] == "Contact emails " + NotValidEmail(x);
  }

  /** The test factory's record. */
  const FactoryUniversity := University(
    "Test University", "Test Location", "http://testuniversity.com", ["info@testuniversity.com"])

  /** The abstract tests accept the factory's strings as Rails' would: none
      is blank, the website is an http URL and the email matches. */
  predicate AcceptsFactory(rules: Rules)
  {
    && !rules.blank("Test University") && !rules.blank("Test Location")
    && !rules.blank("http://testuniversity.com") && rules.httpUrl("http://testuniversity.com")
    && rules.email("info@testuniversity.com")
  }

  /** The factory record is valid, given that the abstract predicates accept
      its name, location, website and email. */
  lemma FactoryUniversityValid(rules: Rules)
    requires AcceptsFactory(rules)
    ensures Errors(rules, FactoryUniversity) == []
  {
    var emails := FactoryUniversity.contactEmails;
    assert emails[1..] == [];
    assert InvalidEmailErrors(rules, emails[1..]) == [];
    assert rules.email(emails[0]);
    assert InvalidEmailErrors(rules, emails) == [];
    assert AttributeErrors(rules, FactoryUniversity) == [];
  }
}
