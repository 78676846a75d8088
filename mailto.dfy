/** `sendFeedbackEmail` and `sendCourseRequestEmail` (script.js:109-126,
    212-232) up to the URI they hand to `window.open`: a `mailto:` URI in
    the form of section 2 of RFC 6068, addressed to the maintainer, whose
    `subject` and `body` header fields are the percent-encoded texts of two
    fixed templates. */
module Mailto {
  import opened Wrappers
  import opened JsText
  import opened UriComponent

  const Recipient: string := "blimtech01@gmail.com"

  /** A field read with `formData.get`: `None` when the form has no field of
      that name, which a template literal renders as `null`. */
  function Render(v: Option<string>): string {
    match v
    case None => "null"
    case Some(s) => s
  }

  /** The feedback submission record (script.js:80-86). */
  datatype FeedbackData = FeedbackData(
    name: Option<string>, email: Option<string>, subject: Option<string>,
    message: Option<string>, timestamp: string)

  /** The course-request submission record (script.js:165-173). */
  datatype CourseRequestData = CourseRequestData(
    name: Option<string>, email: Option<string>, institution: Option<string>,
    courseName: Option<string>, courseCode: Option<string>, details: Option<string>,
    timestamp: string)

  /** The template literal ends with a line break and the eight spaces that
      indent its closing backtick. */
  const TemplateTail: string := "\n        "

  function FeedbackSubject(d: FeedbackData): string {
    "JAV Feedback: " + Render(d.subject)
  }

  function FeedbackBody(d: FeedbackData): string {
    "\nName: " + Render(d.name) +
    "\nEmail: " + Render(d.email) +
    "\nSubject: " + Render(d.subject) +
    "\nMessage: " + Render(d.message) +
    "\nTimestamp: " + d.timestamp + TemplateTail
  }

  /** `courseCode || 'N/A'`: an absent or empty code falls back to `N/A`. */
  function CodeOrFallback(code: Option<string>): (r: string)
    ensures r == "N/A" <==> code == None || code == Some("") || code == Some("N/A")
    ensures code.Some? && code.value != [] ==> r == code.value
  {
    match code
    case Some(s) => if s != [] then s else "N/A"
    case None => "N/A"
  }

  function CourseSubject(d: CourseRequestData): string {
    "New Course Request: " + Render(d.courseName)
  }

  const CourseIntro: string := "\nA new course has been requested for JAV.\n\n--- Course Details ---\nCourse Name: "

  /** The course-request template, grouped as the text before the course
      code, the code's line, and the rest. */
  function CourseBody(d: CourseRequestData): string {
    (CourseIntro + Render(d.courseName)) +
    ("\nCourse Code: " + CodeOrFallback(d.courseCode) + "\nInstitution: ") +
    (Render(d.institution) +
     "\nReason: " + Render(d.details) +
     "\n\n--- Requester Details ---\nName: " + Render(d.name) +
     "\nEmail: " + Render(d.email) +
     "\nTimestamp: " + d.timestamp + TemplateTail)
  }

  const SubjectKey: string := "?subject="
  const BodyKey: string := "&body="

  /** `mailto:blimtech01@gmail.com?subject=${subject}&body=${body}` with
      both values percent-encoded. */
  function MailtoUri(subject: string, body: string): string {
    "mailto:" + Recipient + SubjectKey + Encode(subject) + BodyKey + Encode(body)
  }

  function FeedbackMailto(d: FeedbackData): string {
    MailtoUri(FeedbackSubject(d), FeedbackBody(d))
  }

  function CourseRequestMailto(d: CourseRequestData): string {
    MailtoUri(CourseSubject(d), CourseBody(d))
  }

  /** What a mail client reads from a `mailto:` URI with one `subject` and one
      `body` field. */
  datatype Message = Message(to: string, subject: string, body: string)

  /** The reading side: the address runs to the first `?`, which must
      introduce `subject=`; the rest is read by `ParseFields`. */
  function ParseMailto(uri: string): Option<Message> {
    if |uri| < 7 || uri[..7] != "mailto:" then None
    else
      var rest := uri[7..];
      var q := IndexOf(rest, '?');
      var query := rest[q..];
      if |query| < |SubjectKey| || query[..|SubjectKey|] != SubjectKey then None
      else
        match ParseFields(query[|SubjectKey|..])
        case None => None
        case Some((s, b)) => Some(Message(rest[..q], s, b))
  }

  /** The encoded subject runs to the first `&`, after which `body=`
      introduces the encoded body; both are percent-decoded. */
  function ParseFields(fields: string): Option<(string, string)> {
    var amp := IndexOf(fields, '&');
    var tail := fields[amp..];
    if |tail| < |BodyKey| || tail[..|BodyKey|] != BodyKey then None
    else
      match (Decode(fields[..amp]), Decode(tail[|BodyKey|..]))
      case (Some(s), Some(b)) => Some((s, b))
      case _ => None
  }

  /** The first `c` in `a + [c] + b`, when `a` has none, is at `|a|`. */
  lemma IndexOfAfter(a: string, c: char, b: string)
    requires forall j :: 0 <= j < |a| ==> a[j] != c
    ensures IndexOf(a + [c] + b, c) == |a|
  {
    var s := a + [c] + b;
    IndexOfSpec(s, c);
    assert s[|a|] == c;
  }

  /** Fields whose subject part holds no `&` split at the `&` of `&body=`. */
  lemma ParseFieldsSplit(es: string, eb: string)
    requires forall j :: 0 <= j < |es| ==> es[j] != '&'
    ensures ParseFields(es + BodyKey + eb) ==
      if Decode(es).Some? && Decode(eb).Some? then Some((Decode(es).value, Decode(eb).value)) else None
  {
    var fields := es + BodyKey + eb;
    assert fields == es + ['&'] + ("body=" + eb);
    IndexOfAfter(es, '&', "body=" + eb);
    assert fields[..|es|] == es;
    assert fields[|es|..] == BodyKey + eb;
    assert (BodyKey + eb)[|BodyKey|..] == eb;
  }

  /** The two encoded fields split apart at the `&` of `&body=` (an encoded
      subject holds none) and decode to the original texts. */
  lemma ParseFieldsRoundTrip(subject: string, body: string)
    ensures ParseFields(Encode(subject) + BodyKey + Encode(body)) == Some((subject, body))
  {
    var es := Encode(subject);
    assert forall j :: 0 <= j < |es| ==> es[j] != '&' by {
      assert forall j :: 0 <= j < |es| ==> Encoded(es[j]);
    }
    ParseFieldsSplit(es, Encode(body));
    DecodeEncode(subject);
    DecodeEncode(body);
  }

  /** A URI whose address holds no `?` splits at the `?` of `?subject=`. */
  lemma ParseMailtoSplit(to: string, fields: string)
    requires forall j :: 0 <= j < |to| ==> to[j] != '?'
    ensures ParseMailto("mailto:" + to + SubjectKey + fields) ==
      if ParseFields(fields).Some? then
        Some(Message(to, ParseFields(fields).value.0, ParseFields(fields).value.1))
      else None
  {
    var uri := "mailto:" + to + SubjectKey + fields;
    var rest := to + ['?'] + ("subject=" + fields);
    assert uri == "mailto:" + rest;
    assert uri[7..] == rest;
    IndexOfAfter(to, '?', "subject=" + fields);
    assert rest[..|to|] == to;
    assert rest[|to|..] == SubjectKey + fields;
    assert (SubjectKey + fields)[|SubjectKey|..] == fields;
  }

  /** A mail client reading the URI recovers the recipient and exactly the
      subject and body text that were encoded: neither encoded value holds a
      `&`, so the split between the fields is unambiguous. */
  lemma MailtoRoundTrip(subject: string, body: string)
    ensures ParseMailto(MailtoUri(subject, body)) == Some(Message(Recipient, subject, body))
  {
    var fields := Encode(subject) + BodyKey + Encode(body);
    assert MailtoUri(subject, body) == "mailto:" + Recipient + SubjectKey + fields;
    ParseMailtoSplit(Recipient, fields);
    ParseFieldsRoundTrip(subject, body);
  }

  /** The feedback mail opens with the submitted subject and carries the
      feedback template as its body. */
  lemma FeedbackMailtoReads(d: FeedbackData)
    ensures ParseMailto(FeedbackMailto(d)) == Some(Message(Recipient, FeedbackSubject(d), FeedbackBody(d)))
  {
    MailtoRoundTrip(FeedbackSubject(d), FeedbackBody(d));
  }

  /** The course-request mail carries the course-request template. */
  lemma CourseRequestMailtoReads(d: CourseRequestData)
    ensures ParseMailto(CourseRequestMailto(d)) == Some(Message(Recipient, CourseSubject(d), CourseBody(d)))
  {
    MailtoRoundTrip(CourseSubject(d), CourseBody(d));
  }

  /** The course-code line of the course-request body: an absent or empty code
      reads `Course Code: N/A`, any other code is shown as given. */
  lemma CourseCodeLine(d: CourseRequestData)
    ensures var line := "\nCourse Code: " + (if d.courseCode == None || d.courseCode == Some("") then "N/A" else d.courseCode.value) + "\nInstitution: ";
            OccursAt(CourseBody(d), line, |CourseIntro| + |Render(d.courseName)|)
  {
    var pre := CourseIntro + Render(d.courseName);
    var line := "\nCourse Code: " + CodeOrFallback(d.courseCode) + "\nInstitution: ";
    var body := CourseBody(d);
    assert body == pre + line + body[|pre| + |line|..];
    assert (pre + line + body[|pre| + |line|..])[|pre|..|pre| + |line|] == line;
  }
}
