/** `validateForm(form)` (src/js/form.js:107-125): one error per required control
    whose trimmed value is empty, in the order the query returns the controls. */
module FormValidate {
  import opened Wrappers
  import opened Strings

  /** A control marked `required`: its identifier, `name`, current value and, when
      a `<label for=id>` exists, that label's text. */
  datatype Control = Control(id: string, name: string, value: string, labelText: Option<string>)

  /** One entry of the returned list. */
  datatype FieldError = FieldError(field: string, message: string)

  /** `${fieldName} - ${t('required')}`, where the field is named by its label's text
      or, without a label, by its `name`. */
  function Message(c: Control, requiredText: string): string {
    c.labelText.GetOr(c.name) + " - " + requiredText
  }

  /** The required controls whose value is blank, in order. */
  function BlankControls(cs: seq<Control>): (r: seq<Control>)
    ensures |r| <= |cs|
    ensures forall i :: 0 <= i < |r| ==> IsBlank(r[i].value) && r[i] in cs
    decreases |cs|
  {
    if cs == [] then []
    else
      var init := BlankControls(cs[..|cs| - 1]);
      if IsBlank(cs[|cs| - 1].value) then init + [cs[|cs| - 1]] else init
  }

  /** The error list `validateForm` returns. */
  function Errors(cs: seq<Control>, requiredText: string): (errors: seq<FieldError>)
    ensures |errors| == |BlankControls(cs)|
    ensures forall i :: 0 <= i < |errors| ==>
      errors[i] == FieldError(BlankControls(cs)[i].id, Message(BlankControls(cs)[i], requiredText))
  {
    seq(|BlankControls(cs)|, i requires 0 <= i < |BlankControls(cs)| =>
      FieldError(BlankControls(cs)[i].id, Message(BlankControls(cs)[i], requiredText)))
  }

  /** The blank controls keep the query order. */
  lemma {:induction false} BlankControlsInOrder(cs: seq<Control>)
    ensures Subseq(BlankControls(cs), cs)
    decreases |cs|
  {
    if cs != [] {
      var init, last := cs[..|cs| - 1], cs[|cs| - 1];
      assert init + [last] == cs;
      var keep := IsBlank(last.value);
      BlankControlsInOrder(init);
      SubseqAppend(BlankControls(init), init, last, keep);
      assert BlankControls(cs) == if keep then BlankControls(init) + [last] else BlankControls(init);
    }
  }

  /** Every blank control is among the blank controls. */
  lemma {:induction false} BlankControlsComplete(cs: seq<Control>)
    ensures forall c :: c in cs && IsBlank(c.value) ==> c in BlankControls(cs)
    decreases |cs|
  {
    if cs != [] {
      var init, last := cs[..|cs| - 1], cs[|cs| - 1];
      BlankControlsComplete(init);
      forall c | c in cs && IsBlank(c.value)
        ensures c in BlankControls(cs)
      {
        if c != last {
          assert cs == init + [last];
          assert c in init;
        }
      }
    }
  }

  /** No blank control is reported exactly when every required control holds
      something besides whitespace. */
  lemma BlankControlsEmptyIff(cs: seq<Control>)
    ensures BlankControls(cs) == [] <==> forall i :: 0 <= i < |cs| ==> !IsBlank(cs[i].value)
  {
    BlankControlsComplete(cs);
    if BlankControls(cs) != [] {
      var c := BlankControls(cs)[0];
      assert IsBlank(c.value) && c in cs;
    }
  }

  /** One more control adds its error at the end when it is blank. */
  lemma ErrorsAppend(cs: seq<Control>, c: Control, requiredText: string)
    ensures Errors(cs + [c], requiredText) ==
      if IsBlank(c.value) then Errors(cs, requiredText) + [FieldError(c.id, Message(c, requiredText))]
      else Errors(cs, requiredText)
  {
    assert (cs + [c])[..|cs|] == cs;
    assert BlankControls(cs + [c]) ==
      if IsBlank(c.value) then BlankControls(cs) + [c] else BlankControls(cs);
  }

  /** `validateForm` over the controls the query returns, in order. */
  method ValidateForm(required: seq<Control>, requiredText: string) returns (errors: seq<FieldError>)
    ensures errors == Errors(required, requiredText)
    ensures errors == [] <==> forall i :: 0 <= i < |required| ==> !IsBlank(required[i].value)
    ensures forall c :: c in required && IsBlank(c.value) ==>
      FieldError(c.id, Message(c, requiredText)) in errors
  {
    errors := [];
    for i := 0 to |required|
      invariant errors == Errors(required[..i], requiredText)
    {
      var field := required[i];
      var value := Trim(field.value);
      assert required[..i + 1] == required[..i] + [field];
      ErrorsAppend(required[..i], field, requiredText);
      if value == "" {
        var fieldName := if field.labelText.Some? then field.labelText.value else field.name;
        errors := errors + [FieldError(field.id, fieldName + " - " + requiredText)];
      }
    }
    assert required[..|required|] == required;
    ErrorsEmptyIff(required, requiredText);
    ErrorsReportEveryBlank(required, requiredText);
  }

  /** The error list is empty exactly when no required control is blank. */
  lemma ErrorsEmptyIff(cs: seq<Control>, requiredText: string)
    ensures Errors(cs, requiredText) == [] <==> forall i :: 0 <= i < |cs| ==> !IsBlank(cs[i].value)
  {
    BlankControlsEmptyIff(cs);
    assert |Errors(cs, requiredText)| == |BlankControls(cs)|;
  }

  /** Every blank control has its error in the error list. */
  lemma ErrorsReportEveryBlank(cs: seq<Control>, requiredText: string)
    ensures forall c :: c in cs && IsBlank(c.value) ==>
      FieldError(c.id, Message(c, requiredText)) in Errors(cs, requiredText)
  {
    BlankControlsComplete(cs);
    forall c | c in cs && IsBlank(c.value)
      ensures FieldError(c.id, Message(c, requiredText)) in Errors(cs, requiredText)
    {
      var blank := BlankControls(cs);
      var k :| 0 <= k < |blank| && blank[k] == c;
      assert Errors(cs, requiredText)[k] == FieldError(c.id, Message(c, requiredText));
    }
  }
}
