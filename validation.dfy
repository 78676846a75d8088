/** The rule chain of `validateField` (script.js:333-358): which message, if
    any, a field earns from its trimmed value and its attributes. The rules
    run in order and the first that fails decides the message. */
module Validation {
  import opened JsText
  import opened Email

  /** The attributes of a form control that the rules consult: the
      `required` attribute, the `type` property, the `name` property and the
      upper-case `tagName`. */
  datatype Attributes = Attributes(required: bool, inputType: string, name: string, tagName: string)

  /** Validation result of one field: valid, or invalid with the message the
      page shows under it. */
  datatype Verdict = Valid | Invalid(message: string)

  const RequiredMessage := "This field is required"
  const EmailMessage := "Please enter a valid email address"
  const NameMessage := "Name must be at least 2 characters long"
  const TextareaMessage := "Message must be at least 10 characters long"

  /** The verdict for a field with attributes `a` whose raw value is `raw`:
      the rules applied to the trimmed value. */
  function Check(a: Attributes, raw: string): Verdict {
    Rules(a, Trim(raw))
  }

  /** The if/else chain of rules over an already trimmed `value`. */
  function Rules(a: Attributes, value: string): Verdict {
    if a.required && value == [] then Invalid(RequiredMessage)
    else if a.inputType == "email" && value != [] && !IsValidEmail(value) then Invalid(EmailMessage)
    else if a.inputType == "text" && a.name == "name" && value != [] && Utf16Length(value) < 2 then Invalid(NameMessage)
    else if a.tagName == "TEXTAREA" && value != [] && Utf16Length(value) < 10 then Invalid(TextareaMessage)
    else Valid
  }

  /** The required rule is decided on the trimmed value and comes first: a
      required field holding only whitespace gets the required message
      whatever its type, name or tag, and that message is given for no other
      reason. */
  lemma RequiredRuleFirst(a: Attributes, raw: string)
    ensures Check(a, raw) == Invalid(RequiredMessage) <==> a.required && AllWhitespace(raw)
  {
    TrimEmptyIffAllWhitespace(raw);
  }

  /** An email-typed field with something other than whitespace in it is
      rejected with the email message exactly when the pattern of
      `isValidEmail` fails on the trimmed value. */
  lemma EmailRule(a: Attributes, raw: string)
    requires a.inputType == "email" && a.tagName == "INPUT" && !AllWhitespace(raw)
    ensures Check(a, raw) == Invalid(EmailMessage) <==> !RegexMatches(Trim(raw))
    ensures Check(a, raw) == Valid <==> RegexMatches(Trim(raw))
  {
    TrimEmptyIffAllWhitespace(raw);
    IsValidEmailIffRegex(Trim(raw));
  }

  /** A text input named exactly `name` with a non-blank value is rejected
      with the name message exactly when its trimmed value is shorter than two
      UTF-16 code units, and is otherwise valid. */
  lemma NameRule(a: Attributes, raw: string)
    requires a.inputType == "text" && a.name == "name" && a.tagName == "INPUT" && !AllWhitespace(raw)
    ensures Check(a, raw) == Invalid(NameMessage) <==> Utf16Length(Trim(raw)) < 2
    ensures Check(a, raw) == Valid <==> Utf16Length(Trim(raw)) >= 2
  {
    TrimEmptyIffAllWhitespace(raw);
  }

  /** The length rule for names looks at the name `name` only: a field named
      otherwise (`lecturerName`, say) never gets the name message. */
  lemma NameRuleOnlyForName(a: Attributes, raw: string)
    requires a.name != "name"
    ensures Check(a, raw) != Invalid(NameMessage)
  {
  }

  /** A textarea (whose `type` is `textarea`) with a non-blank value is
      rejected with the message-length message exactly when its trimmed value
      is shorter than ten UTF-16 code units, and is otherwise valid. */
  lemma TextareaRule(a: Attributes, raw: string)
    requires a.tagName == "TEXTAREA" && a.inputType == "textarea" && !AllWhitespace(raw)
    ensures Check(a, raw) == Invalid(TextareaMessage) <==> Utf16Length(Trim(raw)) < 10
    ensures Check(a, raw) == Valid <==> Utf16Length(Trim(raw)) >= 10
  {
    TrimEmptyIffAllWhitespace(raw);
  }

  /** A field that is not required and holds only whitespace always passes:
      every rule after the first applies to non-empty values only. */
  lemma BlankOptionalPasses(a: Attributes, raw: string)
    requires !a.required && AllWhitespace(raw)
    ensures Check(a, raw) == Valid
  {
    TrimEmptyIffAllWhitespace(raw);
  }

  /** Validation reads the value only through its trimmed form, so padding
      with whitespace never changes a verdict. */
  lemma CheckIgnoresPadding(a: Attributes, raw: string)
    ensures Check(a, Trim(raw)) == Check(a, raw)
  {
    TrimIdempotent(raw);
  }

  /** A required text input named `name` holding two letters passes. */
  lemma TwoLetterNamePasses()
    ensures Check(Attributes(true, "text", "name", "INPUT"), "Jo") == Valid
  {
    assert Trim("Jo") == "Jo";
    assert Utf16Length("Jo") == 2;
  }

  /** One letter padded with spaces fails the name rule. */
  lemma PaddedOneLetterNameFails()
    ensures Check(Attributes(true, "text", "name", "INPUT"), " J ") == Invalid(NameMessage)
  {
    assert " J "[1..] == "J ";
    assert TrimStart("J ") == "J ";
    assert "J "[..1] == "J";
    assert TrimEnd("J ") == TrimEnd("J");
    assert Trim(" J ") == "J";
    assert Utf16Length("J") == 1;
  }

  /** A single character outside the Basic Multilingual Plane passes the
      name rule, because `length` counts it as two code units. */
  lemma AstralNamePasses()
    ensures Check(Attributes(false, "text", "name", "INPUT"), "\U{1F600}") == Valid
  {
    assert Trim("\U{1F600}") == "\U{1F600}";
  }

  /** A five-character message fails the textarea rule. */
  lemma ShortMessageFails()
    ensures Check(Attributes(true, "textarea", "message", "TEXTAREA"), "Short") == Invalid(TextareaMessage)
  {
    assert Trim("Short") == "Short";
  }

  /** A required email field: a well-formed address passes, blanks get the
      required message rather than the email message. */
  lemma EmailFieldExamples()
    ensures Check(Attributes(true, "email", "email", "INPUT"), "jo@x.com") == Valid
    ensures Check(Attributes(true, "email", "email", "INPUT"), "  ") == Invalid(RequiredMessage)
  {
    EmailAcceptsExamples();
    assert Trim("jo@x.com") == "jo@x.com";
    assert TrimStart("  ") == "";
  }
}
