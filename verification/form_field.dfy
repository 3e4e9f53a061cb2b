/**
 * The labelled form controls `Input`, `Select` and `Textarea`: how each
 * picks its element id, and how the id, the `aria-invalid` and
 * `aria-describedby` attributes and the alert paragraph follow from the
 * `error` prop. The three components share this logic line for line.
 */
module FormField {
  import opened Wrappers
  import opened Text

  /** One `{ value, label }` entry of a select's option list. */
  datatype SelectOption = SelectOption(value: string, labelText: string)

  /** The props the id and ARIA logic reads; `None` is an absent prop. */
  datatype Props = Props(labelText: string, id: Option<string>, error: Option<string>)

  /** The `<p role="alert">` rendered under a control with an error. */
  datatype Alert = Alert(id: string, text: string)

  /**
   * The attributes a rendered field ties together: the label's `htmlFor`,
   * the control's `id`, `aria-invalid` and `aria-describedby` (`None` when
   * left undefined), and the alert paragraph if one is rendered.
   */
  datatype Control = Control(
    labelFor: string,
    id: string,
    ariaInvalid: string,
    ariaDescribedBy: Option<string>,
    alert: Option<Alert>)

  /** A rendered `Select`: the control and its `<option>` list in order. */
  datatype SelectView = SelectView(control: Control, options: seq<SelectOption>)

  /** JavaScript truthiness of an optional string prop. */
  predicate Truthy(s: Option<string>) {
    s.Some? && s.value != ""
  }

  /**
   * `s.replace(/\s+/g, '-')`: scanning from the left, each whitespace
   * character starts a greedy match of the longest run of whitespace there,
   * and the whole run becomes one `-`.
   */
  function ReplaceSpaceRuns(s: string): (r: string)
    ensures NoSpace(r)
    ensures |r| <= |s|
    decreases |s|
  {
    if s == [] then []
    else if IsSpace(s[0]) then "-" + ReplaceSpaceRuns(s[LeadingSpaces(s)..])
    else [s[0]] + ReplaceSpaceRuns(s[1..])
  }

  /**
   * A character-at-a-time reading of the same replacement: a
   * non-whitespace character is copied, a whitespace character becomes `-`
   * when it starts a run and vanishes when it continues one.
   * `afterSpace` says whether the previous character was whitespace.
   */
  function Collapse(s: string, afterSpace: bool): string {
    if s == [] then []
    else
      var out := if !IsSpace(s[0]) then [s[0]] else if afterSpace then [] else "-";
      out + Collapse(s[1..], IsSpace(s[0]))
  }

  /** Past a whitespace run, the next character does not depend on the run. */
  lemma CollapseAfterRun(s: string)
    requires s == [] || !IsSpace(s[0])
    ensures Collapse(s, true) == Collapse(s, false)
  {
  }

  /** A run of whitespace contributes one `-`, or nothing if it continues an earlier run. */
  lemma {:induction false} CollapseRun(s: string, afterSpace: bool)
    requires s != [] && IsSpace(s[0])
    ensures Collapse(s, afterSpace) ==
      (if afterSpace then [] else "-") + Collapse(s[LeadingSpaces(s)..], false)
    decreases |s|
  {
    var t := s[1..];
    if t == [] || !IsSpace(t[0]) {
      assert LeadingSpaces(s) == 1;
      CollapseAfterRun(t);
    } else {
      CollapseRun(t, true);
      assert LeadingSpaces(s) == 1 + LeadingSpaces(t);
      assert t[LeadingSpaces(t)..] == s[LeadingSpaces(s)..];
    }
  }

  /** The regular-expression replacement and the character-at-a-time reading agree. */
  lemma {:induction false} ReplaceSpaceRunsIsCollapse(s: string)
    ensures ReplaceSpaceRuns(s) == Collapse(s, false)
    decreases |s|
  {
    if s != [] {
      if IsSpace(s[0]) {
        CollapseRun(s, false);
        ReplaceSpaceRunsIsCollapse(s[LeadingSpaces(s)..]);
      } else {
        ReplaceSpaceRunsIsCollapse(s[1..]);
      }
    }
  }

  /** The replacement changes a string exactly when it holds whitespace. */
  lemma {:induction false} ReplaceSpaceRunsFixpoint(s: string)
    ensures ReplaceSpaceRuns(s) == s <==> NoSpace(s)
    decreases |s|
  {
    if s != [] && NoSpace(s) {
      assert !IsSpace(s[0]);
      assert NoSpace(s[1..]) by {
        forall i | 0 <= i < |s| - 1 ensures !IsSpace(s[1..][i]) { assert s[1..][i] == s[i + 1]; }
      }
      ReplaceSpaceRunsFixpoint(s[1..]);
      assert s == [s[0]] + s[1..];
    }
  }

  /** `label.toLowerCase().replace(/\s+/g, '-')`. */
  function DeriveId(labelText: string): string {
    ReplaceSpaceRuns(ToLower(labelText))
  }

  /**
   * A derived id holds no whitespace, and deriving again changes nothing:
   * it is already lower case and free of whitespace.
   */
  lemma DeriveIdIdempotent(labelText: string)
    ensures NoSpace(DeriveId(labelText))
    ensures DeriveId(DeriveId(labelText)) == DeriveId(labelText)
  {
    var r := DeriveId(labelText);
    assert ToLower(r) == r by {
      forall i | 0 <= i < |r| ensures LowerChar(r[i]) == r[i] {
        LowerCharStable(labelText, i, r);
      }
    }
    ReplaceSpaceRunsFixpoint(r);
  }

  /** Characters of a derived id are never upper-case ASCII letters. */
  lemma LowerCharStable(labelText: string, i: int, r: string)
    requires r == DeriveId(labelText) && 0 <= i < |r|
    ensures LowerChar(r[i]) == r[i]
  {
    NoUpper(ToLower(labelText));
  }

  /** `ReplaceSpaceRuns` never produces an upper-case ASCII letter from a string without one. */
  lemma {:induction false} NoUpper(s: string)
    requires forall i :: 0 <= i < |s| ==> !('A' <= s[i] <= 'Z')
    ensures forall i :: 0 <= i < |ReplaceSpaceRuns(s)| ==> !('A' <= ReplaceSpaceRuns(s)[i] <= 'Z')
    decreases |s|
  {
    if s != [] {
      if IsSpace(s[0]) {
        NoUpper(s[LeadingSpaces(s)..]);
      } else {
        NoUpper(s[1..]);
      }
    }
  }

  /** `id || label.toLowerCase().replace(/\s+/g, '-')`. */
  function ControlId(id: Option<string>, labelText: string): (r: string)
    ensures Truthy(id) ==> r == id.value
    ensures !Truthy(id) ==> r == DeriveId(labelText) && NoSpace(r)
  {
    if Truthy(id) then id.value else DeriveId(labelText)
  }

  /**
   * The id and ARIA wiring of `Input`, `Select` and `Textarea` alike. The
   * label points at the control; `aria-invalid` is `'true'` exactly when the
   * error is truthy; `aria-describedby` is set exactly when the alert is
   * rendered, and names the alert's id, which is the control's id followed by
   * `-error`.
   */
  function RenderControl(props: Props): (c: Control)
    ensures c.labelFor == c.id == ControlId(props.id, props.labelText)
    ensures c.ariaInvalid == "true" <==> Truthy(props.error)
    ensures c.ariaInvalid == "true" || c.ariaInvalid == "false"
    ensures c.ariaDescribedBy.Some? <==> Truthy(props.error)
    ensures c.alert.Some? <==> Truthy(props.error)
    ensures c.alert.Some? ==>
      && c.ariaDescribedBy == Some(c.alert.value.id)
      && c.alert.value.id == c.id + "-error"
      && c.alert.value.text == props.error.value
  {
    var id := ControlId(props.id, props.labelText);
    var errorId := id + "-error";
    Control(
      id,
      id,
      if Truthy(props.error) then "true" else "false",
      if Truthy(props.error) then Some(errorId) else None,
      if Truthy(props.error) then Some(Alert(errorId, props.error.value)) else None)
  }

  const Placeholder := SelectOption("", "Select an option")

  /**
   * `Select`: the control wiring, and the option list with the empty-value
   * placeholder in front of the given options in their order.
   */
  function Select(props: Props, options: seq<SelectOption>): (v: SelectView)
    ensures v.control == RenderControl(props)
    ensures |v.options| == |options| + 1
    ensures v.options[0].value == "" && v.options[0].labelText == "Select an option"
    ensures forall i :: 0 <= i < |options| ==> v.options[i + 1] == options[i]
  {
    SelectView(RenderControl(props), [Placeholder] + options)
  }
}
