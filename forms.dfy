/** The two form handlers (script.js:67-105 and 152-208): the feedback form,
    which sends without validating, and the course-request form, which
    validates every required field first and sends only when all pass. Both
    put the submit button in a busy state and always restore it.

    The awaited helpers do no asynchronous work, so each handler runs as one
    sequential method. Each handler's `sent` result is the record it hands to
    its mail helper, which opens the URI module `Mailto` composes from it.
    Opening the mail client is the environment's part: the handler receives
    `openError`, the message of the exception `window.open` throws, or `None`
    when it returns normally. The timestamp is an input too. */
module Forms {
  import opened Wrappers
  import opened JsText
  import opened Validation
  import opened Dom
  import opened Mailto
  import opened Notices

  const SendingHtml: string := "<div class=\"loader\"></div> Sending..."
  const SubmittingHtml: string := "<div class=\"loader\"></div> Submitting..."

  const FeedbackThanks: string := "Thank you! Your feedback has been sent successfully."
  const FeedbackFailure: string := "Sorry, there was an error sending your feedback. Please try again."
  const CourseThanks: string := "Thank you! Your course request has been submitted."
  const CourseFailure: string := "Sorry, there was an error submitting your request. Please try again."
  const RequiredFieldsError: string := "Please fill all required fields."

  /** The text of the course-request error notice for an exception with
      message `m`: the message itself when it mentions `required`, the
      generic apology otherwise. */
  function CourseErrorText(m: string): (r: string)
    ensures Includes(m, "required") ==> r == m
    ensures !Includes(m, "required") ==> r == CourseFailure
  {
    if Includes(m, "required") then m else CourseFailure
  }

  /** The exception the validation gate throws is shown word for word. */
  lemma RequiredErrorShownVerbatim()
    ensures CourseErrorText(RequiredFieldsError) == RequiredFieldsError
  {
    assert OccursAt(RequiredFieldsError, "required", 16);
  }

  /** `controls[j]` is the first control named `name`. */
  predicate FirstNamed(controls: seq<Control>, name: string, j: int) {
    0 <= j < |controls| && controls[j].attrs.name == name &&
    forall i :: 0 <= i < j ==> controls[i].attrs.name != name
  }

  /** The index of the first control named `name`, if any. */
  function IndexNamed(controls: seq<Control>, name: string): (r: Option<nat>)
    ensures r.None? ==> forall j :: 0 <= j < |controls| ==> controls[j].attrs.name != name
    ensures r.Some? ==> FirstNamed(controls, name, r.value)
  {
    if controls == [] then None
    else if controls[0].attrs.name == name then Some(0)
    else match IndexNamed(controls[1..], name)
      case None => None
      case Some(j) => Some(j + 1)
  }

  /** `formData.get(name)`: the value of the first control with that name,
      `None` (JavaScript's `null`) when there is none. */
  function Get(controls: seq<Control>, values: seq<string>, name: string): Option<string>
    requires |values| == |controls|
  {
    match IndexNamed(controls, name)
    case None => None
    case Some(j) => Some(values[j])
  }

  /** The indices below `n` of the required controls, in document order. */
  function RequiredBelow(controls: seq<Control>, n: nat): (r: seq<nat>)
    requires n <= |controls|
    ensures forall j :: 0 <= j < |r| ==> r[j] < n
    ensures forall k: int :: k in r <==> 0 <= k < n && controls[k].attrs.required
    ensures forall i, j :: 0 <= i < j < |r| ==> r[i] < r[j]
  {
    if n == 0 then []
    else RequiredBelow(controls, n - 1) + (if controls[n - 1].attrs.required then [n - 1] else [])
  }

  /** `form.querySelectorAll('[required]')`: the indices of the required
      controls, in document order. */
  function RequiredIndices(controls: seq<Control>): seq<nat> {
    RequiredBelow(controls, |controls|)
  }

  /** Every required control passes the rule chain. */
  predicate RequiredPass(controls: seq<Control>, values: seq<string>)
    requires |values| == |controls|
  {
    forall k :: 0 <= k < |controls| && controls[k].attrs.required ==> Check(controls[k].attrs, values[k]).Valid?
  }

  /** The validation loop over `querySelectorAll('[required]')` finds every
      control valid exactly when every required control passes. */
  lemma RequiredPassIff(controls: seq<Control>, values: seq<string>)
    requires |values| == |controls|
    ensures var ks := RequiredIndices(controls);
      RequiredPass(controls, values) <==> forall j :: 0 <= j < |ks| ==> Check(controls[ks[j]].attrs, values[ks[j]]).Valid?
  {
    var ks := RequiredIndices(controls);
    if !RequiredPass(controls, values) {
      var k :| 0 <= k < |controls| && controls[k].attrs.required && !Check(controls[k].attrs, values[k]).Valid?;
      assert k in ks;
    }
  }

  /** The values `form.reset()` restores. */
  function Defaults(controls: seq<Control>): (r: seq<string>)
    ensures |r| == |controls|
  {
    seq(|controls|, k requires 0 <= k < |controls| => controls[k].defaultValue)
  }

  /** No control carries the `error` class. */
  function NoErrorClass(n: nat): (r: seq<bool>)
    ensures |r| == n
  {
    seq(n, k => false)
  }

  /** Every parent's children with the error messages taken out. */
  function Unmarked(cs: seq<seq<Node>>): (r: seq<seq<Node>>)
    ensures |r| == |cs|
  {
    seq(|cs|, p requires 0 <= p < |cs| => Others(cs[p]))
  }

  /** Once the markers are cleared, no parent holds an error message, and
      the other children are those validation found. */
  lemma UnmarkedClean(cs: seq<seq<Node>>, p: nat)
    requires p < |cs|
    ensures ErrorCount(Unmarked(cs)[p]) == 0
    ensures Others(Unmarked(cs)[p]) == Others(cs[p])
  {
    OthersIdempotent(cs[p]);
  }

  /** Clearing the markers after a validation gives the same page as
      clearing them before it: validation changes error messages only. */
  lemma UnmarkedAfterValidation(controls: seq<Control>, s: DomState, ks: seq<nat>)
    requires Fits(controls, s) && Indices(controls, ks)
    ensures Unmarked(ValidatedAll(controls, s, ks).children) == Unmarked(s.children)
  {
    var r := ValidatedAll(controls, s, ks);
    forall p | 0 <= p < |s.children|
      ensures Unmarked(r.children)[p] == Unmarked(s.children)[p]
    {
      ValidatedAllKeepsOthers(controls, s, ks, p);
    }
  }

  /** A form: its controls in document order, the page state they and their
      parents are in, and its submit button. */
  class Form {
    const controls: seq<Control>
    const submit: Button
    var values: seq<string>
    var errorClass: seq<bool>
    var children: seq<seq<Node>>

    /** A freshly loaded form: every control holds its default value and
        none carries the `error` class. */
    constructor (controls: seq<Control>, children: seq<seq<Node>>, submit: Button)
      requires forall k :: 0 <= k < |controls| ==> controls[k].parent < |children|
      ensures this.controls == controls && this.submit == submit
      ensures State() == DomState(Defaults(controls), NoErrorClass(|controls|), children)
      ensures Valid()
    {
      this.controls := controls;
      this.submit := submit;
      values := Defaults(controls);
      errorClass := NoErrorClass(|controls|);
      this.children := children;
    }

    function State(): DomState
      reads this
    {
      DomState(values, errorClass, children)
    }

    /** The state has an entry for every control and every parent. */
    predicate Valid()
      reads this
    {
      Fits(controls, State())
    }

    /** The record `sendFeedbackEmail` receives (script.js:79-86). */
    function FeedbackRecord(timestamp: string): FeedbackData
      requires Valid()
      reads this
    {
      FeedbackData(Get(controls, values, "name"), Get(controls, values, "email"),
                   Get(controls, values, "subject"), Get(controls, values, "message"), timestamp)
    }

    /** The record `sendCourseRequestEmail` receives (script.js:164-173). */
    function CourseRequestRecord(timestamp: string): CourseRequestData
      requires Valid()
      reads this
    {
      CourseRequestData(Get(controls, values, "lecturerName"), Get(controls, values, "lecturerEmail"),
                        Get(controls, values, "institution"), Get(controls, values, "courseName"),
                        Get(controls, values, "courseCode"), Get(controls, values, "courseDetails"), timestamp)
    }

    /** Every required control passes the rule chain. */
    predicate RequiredValid()
      requires Valid()
      reads this
    {
      RequiredPass(controls, values)
    }

    /** `validateField` on control `k`: clear its `error` class and the first
        error message under its parent, then, if the rule chain rejects its
        trimmed value, set the class and append a message with the rule's
        text. */
    method ValidateField(k: nat)
      requires Valid() && k < |controls|
      modifies this`errorClass, this`children
      ensures Valid() && State() == Validated(controls, old(State()), k)
    {
      var p := controls[k].parent;
      errorClass := errorClass[k := false];
      children := children[p := RemoveFirstErrorMessage(children[p])];
      var verdict := Check(controls[k].attrs, values[k]);
      if verdict.Invalid? {
        errorClass := errorClass[k := true];
        children := children[p := children[p] + [ErrorMessage(verdict.message)]];
      }
    }

    /** A control's `input` listener (script.js:326-330), once the browser
        has set the control's value to `v`: only a control that already
        carries the `error` class is validated again. (Its `blur` listener,
        script.js:322-324, is `ValidateField` itself.) */
    method Input(k: nat, v: string)
      requires Valid() && k < |controls|
      modifies this`values, this`errorClass, this`children
      ensures Valid()
      ensures values == old(values)[k := v]
      ensures old(errorClass[k]) ==>
        State() == Validated(controls, DomState(values, old(errorClass), old(children)), k)
      ensures !old(errorClass[k]) ==> errorClass == old(errorClass) && children == old(children)
    {
      values := values[k := v];
      if errorClass[k] {
        ValidateField(k);
      }
    }

    /** The validation loop of the course-request handler (script.js:176-182):
        validate each control of `ks` in turn, and remember a failure when
        the control ends with the `error` class. */
    method ValidateAll(ks: seq<nat>) returns (isValid: bool)
      requires Valid() && Indices(controls, ks)
      modifies this`errorClass, this`children
      ensures Valid() && State() == ValidatedAll(controls, old(State()), ks)
      ensures isValid <==> forall j :: 0 <= j < |ks| ==> Check(controls[ks[j]].attrs, values[ks[j]]).Valid?
    {
      isValid := true;
      var i := 0;
      while i < |ks|
        invariant 0 <= i <= |ks|
        invariant State() == ValidatedAll(controls, old(State()), ks[..i])
        invariant isValid <==> forall j :: 0 <= j < i ==> Check(controls[ks[j]].attrs, values[ks[j]]).Valid?
      {
        ValidateField(ks[i]);
        assert ks[..i + 1][..i] == ks[..i];
        if errorClass[ks[i]] {
          isValid := false;
        }
        i := i + 1;
      }
      assert ks[..|ks|] == ks;
    }

    /** `form.reset()`: every control gets back its default value. */
    method Reset()
      requires Valid()
      modifies this`values
      ensures Valid() && values == Defaults(controls)
    {
      values := Defaults(controls);
    }

    /** Removing the `error` class from every control and every error
        message from the form (script.js:197-198). */
    method ClearErrorMarkers()
      requires Valid()
      modifies this`errorClass, this`children
      ensures Valid()
      ensures errorClass == NoErrorClass(|controls|)
      ensures children == Unmarked(old(children))
    {
      var k := 0;
      while k < |errorClass|
        invariant 0 <= k <= |errorClass| == |controls|
        invariant forall j :: 0 <= j < |errorClass| ==> errorClass[j] == (k <= j && old(errorClass)[j])
        invariant children == old(children)
      {
        errorClass := errorClass[k := false];
        k := k + 1;
      }
      assert errorClass == NoErrorClass(|controls|);
      var p := 0;
      while p < |children|
        invariant 0 <= p <= |children| == |old(children)|
        invariant errorClass == NoErrorClass(|controls|)
        invariant forall q :: 0 <= q < |children| ==>
          children[q] == if q < p then Others(old(children)[q]) else old(children)[q]
      {
        children := children[p := Others(children[p])];
        p := p + 1;
      }
    }

    /** The feedback form's submit handler. It does not validate: the mail is
        composed from whatever the controls hold. */
    method SubmitFeedback(timestamp: string, openError: Option<string>)
      returns (sent: FeedbackData, notice: Notification)
      requires Valid()
      modifies this`values, submit
      ensures Valid()
      ensures submit.innerHtml == old(submit.innerHtml) && !submit.disabled
      ensures sent == old(FeedbackRecord(timestamp))
      ensures notice == if openError == None
                        then ShowNotification(FeedbackThanks, Some("success"))
                        else ShowNotification(FeedbackFailure, Some("error"))
      ensures values == if openError == None then Defaults(controls) else old(values)
    {
      var originalHtml := submit.innerHtml;
      submit.innerHtml := SendingHtml;
      submit.disabled := true;
      sent := FeedbackRecord(timestamp);
      if openError == None {
        notice := ShowNotification(FeedbackThanks, Some("success"));
        Reset();
      } else {
        notice := ShowNotification(FeedbackFailure, Some("error"));
      }
      submit.innerHtml := originalHtml;
      submit.disabled := false;
    }

    /** The course-request form's submit handler: validate every required
        control; if any fails, throw before the mail is composed; otherwise
        open the mail URI, and on success reset the form and clear every
        validation marker. */
    method SubmitCourseRequest(timestamp: string, openError: Option<string>)
      returns (sent: Option<CourseRequestData>, notice: Notification)
      requires Valid()
      modifies this`values, this`errorClass, this`children, submit
      ensures Valid()
      ensures submit.innerHtml == old(submit.innerHtml) && !submit.disabled
      ensures sent == if old(RequiredValid()) then Some(old(CourseRequestRecord(timestamp))) else None
      ensures notice ==
        if !old(RequiredValid()) then ShowNotification(RequiredFieldsError, Some("error"))
        else if openError.Some? then ShowNotification(CourseErrorText(openError.value), Some("error"))
        else ShowNotification(CourseThanks, Some("success"))
      // success: the form is reset and no marker remains
      ensures old(RequiredValid()) && openError == None ==>
        State() == DomState(Defaults(controls), NoErrorClass(|controls|), Unmarked(old(children)))
      // failure: the values are kept and the markers are as validation left them
      ensures !(old(RequiredValid()) && openError == None) ==>
        State() == ValidatedAll(controls, old(State()), RequiredIndices(controls))
    {
      var originalHtml := submit.innerHtml;
      submit.innerHtml := SubmittingHtml;
      submit.disabled := true;
      var record := CourseRequestRecord(timestamp);
      var required := RequiredIndices(controls);
      RequiredPassIff(controls, values);
      var isValid := ValidateAll(required);
      sent := None;
      var thrown: Option<string> := None;
      if !isValid {
        thrown := Some(RequiredFieldsError);
      } else {
        sent := Some(record);
        if openError.Some? {
          thrown := openError;
        } else {
          notice := ShowNotification(CourseThanks, Some("success"));
          Reset();
          UnmarkedAfterValidation(controls, old(State()), required);
          ClearErrorMarkers();
        }
      }
      if thrown.Some? {
        RequiredErrorShownVerbatim();
        notice := ShowNotification(CourseErrorText(thrown.value), Some("error"));
      }
      submit.innerHtml := originalHtml;
      submit.disabled := false;
    }
  }
}
