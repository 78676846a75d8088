/** The part of the page the form handlers change, and the decoration step
    of `validateField` (script.js:338-343, 361-370).

    The page is a value: each control's value and `error` class, and the
    children of each element that holds a control, in document order. Only
    the error-message elements among those children matter to the
    validator, which finds the first one with `querySelector`, removes it,
    and appends a fresh one when the field is invalid. The form object that
    holds this state and changes it in place is in module `Forms`. */
module Dom {
  import opened Validation

  /** A child of a field's parent: an error-message element carrying its
      text, or any other element. */
  datatype Node = ErrorMessage(text: string) | Element

  /** A form control as the markup fixes it: the attributes the rules
      consult, the value `form.reset()` restores, and the index of the
      element that holds it and its error message. */
  datatype Control = Control(attrs: Attributes, defaultValue: string, parent: nat)

  /** The part of the page the handlers change: each control's value and
      `error` class, and the children of each parent element. */
  datatype DomState = DomState(values: seq<string>, errorClass: seq<bool>, children: seq<seq<Node>>)

  /** `s` has a value and a class flag per control, and an entry for every
      parent a control names. */
  predicate Fits(controls: seq<Control>, s: DomState) {
    |s.values| == |controls| && |s.errorClass| == |controls| &&
    forall k :: 0 <= k < |controls| ==> controls[k].parent < |s.children|
  }

  /** A submit button: its inner HTML and its `disabled` flag. */
  class Button {
    var innerHtml: string
    var disabled: bool

    constructor (innerHtml: string)
      ensures this.innerHtml == innerHtml && !disabled
    {
      this.innerHtml := innerHtml;
      disabled := false;
    }
  }

  /** Number of error-message elements among `cs`. */
  function ErrorCount(cs: seq<Node>): (n: nat)
    ensures n <= |cs|
  {
    if cs == [] then 0 else (if cs[0].ErrorMessage? then 1 else 0) + ErrorCount(cs[1..])
  }

  /** The children that are not error messages, in order. */
  function Others(cs: seq<Node>): seq<Node> {
    if cs == [] then [] else (if cs[0].ErrorMessage? then [] else [cs[0]]) + Others(cs[1..])
  }

  /** Once the error messages are taken out, none is left, and taking them
      out again changes nothing. */
  lemma {:induction false} OthersIdempotent(cs: seq<Node>)
    ensures ErrorCount(Others(cs)) == 0
    ensures Others(Others(cs)) == Others(cs)
  {
    if cs != [] {
      OthersIdempotent(cs[1..]);
      var head := if cs[0].ErrorMessage? then [] else [cs[0]];
      AppendCounts(head, Others(cs[1..]));
    }
  }

  /** `parent.querySelector('.error-message')?.remove()`: the children with
      the first error message taken out. */
  function RemoveFirstErrorMessage(cs: seq<Node>): (r: seq<Node>)
    ensures Others(r) == Others(cs)
    ensures ErrorCount(r) == if ErrorCount(cs) == 0 then 0 else ErrorCount(cs) - 1
    ensures ErrorCount(cs) == 0 ==> r == cs
    ensures |r| == if ErrorCount(cs) == 0 then |cs| else |cs| - 1
  {
    if cs == [] then []
    else if cs[0].ErrorMessage? then cs[1..]
    else [cs[0]] + RemoveFirstErrorMessage(cs[1..])
  }

  /** `cs[i]` is the first error message among `cs`. */
  predicate FirstErrorAt(cs: seq<Node>, i: int) {
    0 <= i < |cs| && cs[i].ErrorMessage? && ErrorCount(cs[..i]) == 0
  }

  /** The message taken out is the first one: no error message precedes it,
      and every other child stays where it was. */
  lemma {:induction false} RemoveFirstErrorMessageTakesFirst(cs: seq<Node>)
    requires ErrorCount(cs) > 0
    ensures exists i :: FirstErrorAt(cs, i) && RemoveFirstErrorMessage(cs) == cs[..i] + cs[i + 1..]
  {
    if cs[0].ErrorMessage? {
      assert cs[..0] == [] && cs[..0] + cs[1..] == cs[1..];
      assert FirstErrorAt(cs, 0);
    } else {
      RemoveFirstErrorMessageTakesFirst(cs[1..]);
      var i :| FirstErrorAt(cs[1..], i) && RemoveFirstErrorMessage(cs[1..]) == cs[1..][..i] + cs[1..][i + 1..];
      FirstErrorPastElement(cs, i);
    }
  }

  /** Past a leading child that is not an error message, the first error
      message and its removal shift by one. */
  lemma FirstErrorPastElement(cs: seq<Node>, i: nat)
    requires cs != [] && !cs[0].ErrorMessage? && FirstErrorAt(cs[1..], i)
    requires RemoveFirstErrorMessage(cs[1..]) == cs[1..][..i] + cs[1..][i + 1..]
    ensures FirstErrorAt(cs, i + 1)
    ensures RemoveFirstErrorMessage(cs) == cs[..i + 1] + cs[i + 2..]
  {
    var tail := cs[1..];
    var head := cs[..i + 1];
    assert ErrorCount(head) == 0 by {
      assert head[0] == cs[0] && head[1..] == tail[..i];
    }
    assert head == [cs[0]] + tail[..i];
    assert cs[i + 2..] == tail[i + 1..];
    assert RemoveFirstErrorMessage(cs) == [cs[0]] + RemoveFirstErrorMessage(tail);
  }

  lemma {:induction false} AppendCounts(cs: seq<Node>, ds: seq<Node>)
    ensures ErrorCount(cs + ds) == ErrorCount(cs) + ErrorCount(ds)
    ensures Others(cs + ds) == Others(cs) + Others(ds)
  {
    if cs == [] {
      assert cs + ds == ds;
    } else {
      assert (cs + ds)[1..] == cs[1..] + ds;
      AppendCounts(cs[1..], ds);
    }
  }

  /** The parent's children after one validation that reached verdict `v`:
      the first error message removed, and a new one with the verdict's
      message appended at the end when `v` is invalid. */
  function Redecorate(cs: seq<Node>, v: Verdict): seq<Node> {
    var cleared := RemoveFirstErrorMessage(cs);
    if v.Invalid? then cleared + [ErrorMessage(v.message)] else cleared
  }

  /** With at most one error message under the parent before, validation
      leaves exactly one when the field is invalid and none when it is valid,
      the invalid field's message last; the other children are kept in
      order. */
  lemma RedecorateErrorCount(cs: seq<Node>, v: Verdict)
    requires ErrorCount(cs) <= 1
    ensures ErrorCount(Redecorate(cs, v)) == if v.Invalid? then 1 else 0
    ensures Others(Redecorate(cs, v)) == Others(cs)
    ensures v.Invalid? ==> Redecorate(cs, v)[|Redecorate(cs, v)| - 1] == ErrorMessage(v.message)
  {
    if v.Invalid? {
      var cleared := RemoveFirstErrorMessage(cs);
      AppendCounts(cleared, [ErrorMessage(v.message)]);
      assert Others([ErrorMessage(v.message)]) == [];
    }
  }

  /** Validating the same value a second time changes nothing, as long as the
      field's error message is the only one under its parent. */
  lemma RedecorateIdempotent(cs: seq<Node>, v: Verdict)
    requires ErrorCount(cs) <= 1
    ensures Redecorate(Redecorate(cs, v), v) == Redecorate(cs, v)
  {
    var cleared := RemoveFirstErrorMessage(cs);
    assert ErrorCount(cleared) == 0;
    if v.Invalid? {
      RemoveLastErrorMessage(cleared, v.message);
    }
  }

  /** Removing the first error message from children whose only error
      message is the last one takes off that last one. */
  lemma {:induction false} RemoveLastErrorMessage(cs: seq<Node>, text: string)
    requires ErrorCount(cs) == 0
    ensures RemoveFirstErrorMessage(cs + [ErrorMessage(text)]) == cs
  {
    if cs == [] {
    } else {
      assert (cs + [ErrorMessage(text)])[1..] == cs[1..] + [ErrorMessage(text)];
      RemoveLastErrorMessage(cs[1..], text);
    }
  }

  /** Two fields under one parent: validating the second removes the first
      field's message (the first `.error-message` in the parent), not its
      own, and the first field keeps its `error` class. */
  lemma SharedParentTakesFirstMessage(a: string, b: string)
    ensures Redecorate([Element, ErrorMessage(a), Element, ErrorMessage(b)], Invalid(b))
         == [Element, Element, ErrorMessage(b), ErrorMessage(b)]
  {
    var cs := [Element, ErrorMessage(a), Element, ErrorMessage(b)];
    assert cs[1..][1..] == [Element, ErrorMessage(b)];
    assert RemoveFirstErrorMessage(cs) == [Element, Element, ErrorMessage(b)];
  }

  /** The page after `validateField` on control `k`: its `error` class is
      set exactly when the rule chain rejects its value, and its parent is
      redecorated with the verdict. */
  function Validated(controls: seq<Control>, s: DomState, k: nat): (r: DomState)
    requires Fits(controls, s) && k < |controls|
    ensures r.values == s.values && |r.errorClass| == |s.errorClass| && |r.children| == |s.children|
  {
    var c := controls[k];
    var v := Check(c.attrs, s.values[k]);
    DomState(s.values, s.errorClass[k := v.Invalid?], s.children[c.parent := Redecorate(s.children[c.parent], v)])
  }

  /** Every index of `ks` names a control. */
  predicate Indices(controls: seq<Control>, ks: seq<nat>) {
    forall j :: 0 <= j < |ks| ==> ks[j] < |controls|
  }

  /** The page after `validateField` has run on the controls `ks`, in
      order. */
  function ValidatedAll(controls: seq<Control>, s: DomState, ks: seq<nat>): (r: DomState)
    requires Fits(controls, s) && Indices(controls, ks)
    ensures r.values == s.values && |r.errorClass| == |s.errorClass| && |r.children| == |s.children|
    decreases |ks|
  {
    if ks == [] then s
    else Validated(controls, ValidatedAll(controls, s, ks[..|ks| - 1]), ks[|ks| - 1])
  }

  /** After validation, a control validated at least once carries the
      `error` class exactly when the rule chain rejects its value; every
      other control keeps its class. */
  lemma {:induction false} ValidatedAllErrorClass(controls: seq<Control>, s: DomState, ks: seq<nat>, k: nat)
    requires Fits(controls, s) && Indices(controls, ks) && k < |controls|
    ensures ValidatedAll(controls, s, ks).errorClass[k] ==
      if k in ks then Check(controls[k].attrs, s.values[k]).Invalid? else s.errorClass[k]
    decreases |ks|
  {
    if ks != [] {
      var init := ks[..|ks| - 1];
      ValidatedAllErrorClass(controls, s, init, k);
      assert ks == init + [ks[|ks| - 1]];
    }
  }

  /** Validation takes away and adds error messages only: the other
      children of every parent are kept, in order. */
  lemma {:induction false} ValidatedAllKeepsOthers(controls: seq<Control>, s: DomState, ks: seq<nat>, p: nat)
    requires Fits(controls, s) && Indices(controls, ks) && p < |s.children|
    ensures Others(ValidatedAll(controls, s, ks).children[p]) == Others(s.children[p])
    decreases |ks|
  {
    if ks != [] {
      var init := ks[..|ks| - 1];
      ValidatedAllKeepsOthers(controls, s, init, p);
      var before := ValidatedAll(controls, s, init);
      var k := ks[|ks| - 1];
      var v := Check(controls[k].attrs, before.values[k]);
      if controls[k].parent == p && v.Invalid? {
        AppendCounts(RemoveFirstErrorMessage(before.children[p]), [ErrorMessage(v.message)]);
      }
    }
  }

  /** A parent that none of the validated controls names keeps its
      children. */
  lemma {:induction false} ValidatedAllUntouched(controls: seq<Control>, s: DomState, ks: seq<nat>, p: nat)
    requires Fits(controls, s) && Indices(controls, ks) && p < |s.children|
    requires forall j :: 0 <= j < |ks| ==> controls[ks[j]].parent != p
    ensures ValidatedAll(controls, s, ks).children[p] == s.children[p]
    decreases |ks|
  {
    if ks != [] {
      ValidatedAllUntouched(controls, s, ks[..|ks| - 1], p);
    }
  }

  /** A parent named by exactly one validation, that of `ks[i]`, is
      decorated as `validateField` alone decorates it. */
  lemma {:induction false} ValidatedAllSingle(controls: seq<Control>, s: DomState, ks: seq<nat>, i: nat)
    requires Fits(controls, s) && Indices(controls, ks) && i < |ks|
    requires forall j :: 0 <= j < |ks| && j != i ==> controls[ks[j]].parent != controls[ks[i]].parent
    ensures ValidatedAll(controls, s, ks).children[controls[ks[i]].parent] ==
      Redecorate(s.children[controls[ks[i]].parent], Check(controls[ks[i]].attrs, s.values[ks[i]]))
    decreases |ks|
  {
    var p := controls[ks[i]].parent;
    var init := ks[..|ks| - 1];
    if i == |ks| - 1 {
      ValidatedAllUntouched(controls, s, init, p);
    } else {
      ValidatedAllSingle(controls, s, init, i);
    }
  }

  /** At most one error message under each parent stays so whatever is
      validated. */
  lemma {:induction false} ValidatedAllAtMostOne(controls: seq<Control>, s: DomState, ks: seq<nat>, p: nat)
    requires Fits(controls, s) && Indices(controls, ks) && p < |s.children|
    requires ErrorCount(s.children[p]) <= 1
    ensures ErrorCount(ValidatedAll(controls, s, ks).children[p]) <= 1
    decreases |ks|
  {
    if ks != [] {
      var init := ks[..|ks| - 1];
      ValidatedAllAtMostOne(controls, s, init, p);
      var before := ValidatedAll(controls, s, init);
      var k := ks[|ks| - 1];
      if controls[k].parent == p {
        RedecorateErrorCount(before.children[p], Check(controls[k].attrs, before.values[k]));
      }
    }
  }

  /** Validating a control a second time changes nothing, as long as its
      parent holds at most one error message. */
  lemma ValidatedIdempotent(controls: seq<Control>, s: DomState, k: nat)
    requires Fits(controls, s) && k < |controls|
    requires ErrorCount(s.children[controls[k].parent]) <= 1
    ensures Validated(controls, Validated(controls, s, k), k) == Validated(controls, s, k)
  {
    var c := controls[k];
    RedecorateIdempotent(s.children[c.parent], Check(c.attrs, s.values[k]));
  }
}
