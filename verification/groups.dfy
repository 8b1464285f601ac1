/** The accessibility wiring the form groups share: which ids a fieldset's
    `aria-describedby` lists, and when its inputs are marked invalid. A prop
    that is absent or the empty string counts as missing, as JavaScript's
    truthiness test does. */
module Describe {
  import opened Wrappers

  /** The prop is present and non-empty. */
  predicate Given(p: Option<string>) {
    p.Some? && p.value != ""
  }

  function HelpId(name: string): string {
    name + "-help"
  }

  function ErrorId(name: string): string {
    name + "-error"
  }

  /** `[helpId, errId].filter(Boolean).join(" ") || undefined`: the help id
      when there is help text, then the error id when there is an error, one
      space between them, and nothing when neither is given. */
  function DescribedBy(name: string, helpText: Option<string>, error: Option<string>): (r: Option<string>)
    ensures r.None? <==> !Given(helpText) && !Given(error)
    ensures Given(helpText) ==> r.Some? && |HelpId(name)| <= |r.value| && r.value[..|HelpId(name)|] == HelpId(name)
    ensures Given(error) ==> r.Some? && |r.value| >= |ErrorId(name)|
                             && r.value[|r.value| - |ErrorId(name)|..] == ErrorId(name)
    ensures Given(helpText) && !Given(error) ==> r == Some(HelpId(name))
    ensures !Given(helpText) && Given(error) ==> r == Some(ErrorId(name))
    ensures Given(helpText) && Given(error) ==> r == Some(HelpId(name) + " " + ErrorId(name))
  {
    var ids := (if Given(helpText) then [HelpId(name)] else []) + (if Given(error) then [ErrorId(name)] else []);
    var joined := Join(ids);
    assert |ids| == 1 ==> joined == ids[0];
    assert |ids| == 2 ==> joined == ids[0] + " " + ids[1] by {
      if |ids| == 2 {
        assert ids[1..] == [ids[1]];
        assert Join(ids[1..]) == ids[1];
      }
    }
    assert |ids| == 2 ==> ids[0] == HelpId(name) && ids[1] == ErrorId(name);
    assert |ids| == 1 ==> ids[0] == (if Given(helpText) then HelpId(name) else ErrorId(name));
    assert (HelpId(name) + " " + ErrorId(name))[..|HelpId(name)|] == HelpId(name);
    if joined == "" then None else Some(joined)
  }

  /** The attribute can be read back: it starts with the help id exactly when
      help text is given, and ends with the error id exactly when an error
      is given, since `-help` and `-error` differ right after the dash. */
  lemma DescribedByReadBack(name: string, helpText: Option<string>, error: Option<string>)
    ensures var r := DescribedBy(name, helpText, error);
            Given(helpText) <==> r.Some? && |HelpId(name)| <= |r.value| && r.value[..|HelpId(name)|] == HelpId(name)
    ensures var r := DescribedBy(name, helpText, error);
            Given(error) <==> r.Some? && |ErrorId(name)| <= |r.value|
                              && r.value[|r.value| - |ErrorId(name)|..] == ErrorId(name)
  {
    var r := DescribedBy(name, helpText, error);
    var n := |name|;
    if !Given(helpText) && Given(error) {
      assert r.value[n + 1] == 'e' && HelpId(name)[n + 1] == 'h';
      assert r.value[..|HelpId(name)|][n + 1] != HelpId(name)[n + 1];
    }
    if Given(helpText) && !Given(error) {
      assert |r.value| == n + 5 < |ErrorId(name)|;
    }
  }

  /** `ids.join(" ")`. */
  function Join(ids: seq<string>): string {
    if |ids| == 0 then "" else if |ids| == 1 then ids[0] else ids[0] + " " + Join(ids[1..])
  }

  /** `!!error || undefined`: every input is marked invalid exactly when an
      error is given. */
  function AriaInvalid(error: Option<string>): (b: bool)
    ensures b <==> Given(error)
  {
    error.Some? && error.value != ""
  }

  /** Help only, error only, and both, for the name `favorite-color`. */
  lemma DescribedByExamples()
    ensures DescribedBy("favorite-color", Some("Choose one of the options."), Some("You must select a color."))
            == Some("favorite-color-help favorite-color-error")
    ensures DescribedBy("favorite-color", Some("Choose one."), None) == Some("favorite-color-help")
    ensures DescribedBy("favorite-color", Some(""), Some("Required")) == Some("favorite-color-error")
    ensures DescribedBy("favorite-color", None, Some("")) == None
  {
    assert HelpId("favorite-color") == "favorite-color-help";
    assert ErrorId("favorite-color") == "favorite-color-error";
    assert HelpId("favorite-color") + " " + ErrorId("favorite-color") == "favorite-color-help favorite-color-error";
  }
}

/** `CheckboxGroup`: a set of values edited one checkbox at a time. */
module CheckboxGroup {
  import opened Wrappers
  import Seqs
  import Describe

  /** `toggle(val)`: `Array.from` of the `Set` of `values` with `val` deleted
      when it is present and added (at the end) when it is absent. */
  function Toggle(values: seq<string>, v: string): (r: seq<string>)
    ensures Seqs.NoDup(r)
    ensures v in r <==> v !in values
    ensures forall x :: x != v ==> (x in r <==> x in values)
  {
    var set_ := Seqs.Dedup(values);
    if v in set_ then
      var r := Seqs.Filter(set_, (x: string) => x != v);
      Seqs.FilterNoDup(set_, (x: string) => x != v);
      r
    else
      Seqs.NoDupAppend(set_, v);
      set_ + [v]
  }

  /** Toggling the same value twice restores which values are selected. */
  lemma ToggleTwice(values: seq<string>, v: string)
    ensures forall x :: x in Toggle(Toggle(values, v), v) <==> x in values
  {
  }

  /** On a list without duplicates, toggling an absent value appends it, and
      toggling a present value removes it and keeps the others in order. */
  lemma ToggleKeepsOrder(values: seq<string>, v: string)
    requires Seqs.NoDup(values)
    ensures v !in values ==> Toggle(values, v) == values + [v]
    ensures v in values ==> Toggle(values, v) == Seqs.Filter(values, (x: string) => x != v)
  {
    Seqs.DedupOfNoDup(values);
  }

  /** `checked={values.includes(it.value)}`. */
  function Checked(values: seq<string>, item: string): (b: bool)
    ensures b <==> item in values
  {
    item in values
  }

  /** Clicking a checkbox flips that box and no other. */
  lemma ToggleFlipsOneBox(values: seq<string>, v: string, item: string)
    ensures Checked(Toggle(values, v), item) == (if item == v then !Checked(values, item) else Checked(values, item))
  {
  }

}

/** `RadioGroup`: one value chosen among items. */
module RadioGroup {
  import opened Wrappers
  import Seqs
  import Describe

  datatype Item = Item(value: string, caption: string, disabled: bool)

  /** What each rendered radio shows. */
  datatype Radio = Radio(value: string, checked: bool, invalid: bool)

  /** The radios for `items` with the group value `value` and `error`:
      `checked={value === it.value}` and `aria-invalid={!!error || undefined}`. */
  function Radios(items: seq<Item>, value: Option<string>, error: Option<string>): (rs: seq<Radio>)
    ensures |rs| == |items|
    ensures forall k :: 0 <= k < |rs| ==> rs[k].value == items[k].value
    ensures forall k :: 0 <= k < |rs| ==> (rs[k].checked <==> value == Some(items[k].value))
    ensures forall k :: 0 <= k < |rs| ==> (rs[k].invalid <==> Describe.Given(error))
  {
    seq(|items|, k requires 0 <= k < |items| =>
      Radio(items[k].value, value.Some? && value.value == items[k].value, Describe.AriaInvalid(error)))
  }

  /** The item values, in order. */
  function Values(items: seq<Item>): (vs: seq<string>)
    ensures |vs| == |items| && forall k :: 0 <= k < |items| ==> vs[k] == items[k].value
  {
    seq(|items|, k requires 0 <= k < |items| => items[k].value)
  }

  /** With distinct item values, at most one radio is checked, and one is
      checked exactly when the group value is one of the item values. */
  lemma AtMostOneChecked(items: seq<Item>, value: Option<string>, error: Option<string>)
    requires Seqs.NoDup(Values(items))
    ensures forall i, j ::
      (0 <= i < |items| && 0 <= j < |items|
       && Radios(items, value, error)[i].checked && Radios(items, value, error)[j].checked) ==> i == j
    ensures (exists k :: 0 <= k < |items| && Radios(items, value, error)[k].checked)
      <==> value.Some? && value.value in Values(items)
  {
    var rs := Radios(items, value, error);
    var vs := Values(items);
    forall i, j | 0 <= i < |items| && 0 <= j < |items| && rs[i].checked && rs[j].checked
      ensures i == j
    {
      assert vs[i] == vs[j];
    }
    if value.Some? && value.value in vs {
      var k :| 0 <= k < |vs| && vs[k] == value.value;
      assert rs[k].checked;
    }
  }

  /** `onChange?.(e.target.value)` on a radio rendered with
      `disabled={it.disabled}`: clicking the radio at `k` reports that item's
      value, unless the item is disabled (a disabled input fires no change)
      or there is no handler. */
  function Clicked(items: seq<Item>, k: nat, onChange: bool): (r: Option<string>)
    requires k < |items|
    ensures r.Some? <==> onChange && !items[k].disabled
    ensures r.Some? ==> r.value == Radios(items, None, None)[k].value
  {
    if onChange && !items[k].disabled then Some(items[k].value) else None
  }

  /** With distinct item values, once the parent stores a reported click as
      the group value, the clicked radio is the one and only checked radio. */
  lemma ClickSelects(items: seq<Item>, k: nat, error: Option<string>)
    requires k < |items| && !items[k].disabled
    requires Seqs.NoDup(Values(items))
    ensures forall j :: 0 <= j < |items| ==> (Radios(items, Clicked(items, k, true), error)[j].checked <==> j == k)
  {
    var vs := Values(items);
    forall j | 0 <= j < |items|
      ensures Radios(items, Clicked(items, k, true), error)[j].checked <==> j == k
    {
      assert vs[j] == items[j].value && vs[k] == items[k].value;
    }
  }

}
