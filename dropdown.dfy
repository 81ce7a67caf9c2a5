/** The select box of `src/ui/NorunoDropdown.tsx`: a label lookup for the
    current value and a small state machine over `isOpen` and `focusedIndex`
    driven by keys, clicks and the mouse. */
module Dropdown {
  import opened Basics

  datatype DropdownOption = DropdownOption(value: string, labelText: string)

  const DefaultPlaceholder: string := "Select..."

  /** `options.find(opt => opt.value === value)`. */
  function FindOption(options: seq<DropdownOption>, value: string): (i: int)
    ensures -1 <= i < |options|
    ensures 0 <= i ==> options[i].value == value && forall j :: 0 <= j < i ==> options[j].value != value
    ensures i < 0 ==> forall j :: 0 <= j < |options| ==> options[j].value != value
  {
    if options == [] then -1
    else if options[0].value == value then 0
    else
      var k := FindOption(options[1..], value);
      if k < 0 then -1 else k + 1
  }

  /** The button text: the label of the first option holding `value`, else
      the placeholder (`"Select..."` when none is given). */
  function DisplayText(options: seq<DropdownOption>, value: string, placeholder: Option<string>): (r: string)
    ensures (exists j :: 0 <= j < |options| && options[j].value == value) ==>
              exists j :: 0 <= j < |options| && options[j].value == value && r == options[j].labelText
                          && forall k :: 0 <= k < j ==> options[k].value != value
    ensures (forall j :: 0 <= j < |options| ==> options[j].value != value) ==>
              r == placeholder.GetOr(DefaultPlaceholder)
  {
    var i := FindOption(options, value);
    if i >= 0 then options[i].labelText else placeholder.GetOr(DefaultPlaceholder)
  }

  /** An option holding the value is found even when a later option shares
      it: the first one wins. */
  lemma DuplicateValuesShowFirst(a: DropdownOption, b: DropdownOption)
    requires a.value == b.value && a.labelText != b.labelText
    ensures DisplayText([a, b], a.value, None) == a.labelText
  {
  }

  class Select {
    const options: seq<DropdownOption>
    var isOpen: bool
    var focusedIndex: int

    /** The closed list with no focused option. */
    constructor (options: seq<DropdownOption>)
      ensures this.options == options && !isOpen && focusedIndex == -1
      ensures Valid()
    {
      this.options := options;
      isOpen := false;
      focusedIndex := -1;
    }

    /** The focus is -1 (none) or an option; with no options it may sit at 0,
        where opening puts it. */
    predicate Valid()
      reads this
    {
      -1 <= focusedIndex <= Max(0, |options| - 1)
    }

    /** `handleKeyDown`. Closed: Enter, Space or ArrowDown opens on the first
        option. Open: the arrows move the focus within the list, Enter
        emits the focused option and closes, Escape closes. */
    method HandleKeyDown(key: string) returns (emitted: Option<string>)
      requires Valid()
      modifies this
      ensures Valid()
      ensures !old(isOpen) ==>
                emitted == None
                && if key == "Enter" || key == " " || key == "ArrowDown" then isOpen && focusedIndex == 0
                   else isOpen == old(isOpen) && focusedIndex == old(focusedIndex)
      ensures old(isOpen) && key == "ArrowDown" ==>
                emitted == None && isOpen
                && focusedIndex == (if old(focusedIndex) < |options| - 1 then old(focusedIndex) + 1 else old(focusedIndex))
      ensures old(isOpen) && key == "ArrowUp" ==>
                emitted == None && isOpen
                && focusedIndex == (if old(focusedIndex) > 0 then old(focusedIndex) - 1 else old(focusedIndex))
      ensures old(isOpen) && key == "Enter" ==>
                if 0 <= old(focusedIndex) < |options| then
                  emitted == Some(options[old(focusedIndex)].value) && !isOpen && focusedIndex == -1
                else
                  emitted == None && isOpen && focusedIndex == old(focusedIndex)
      ensures old(isOpen) && key == "Escape" ==> emitted == None && !isOpen && focusedIndex == -1
      ensures old(isOpen) && key !in {"ArrowDown", "ArrowUp", "Enter", "Escape"} ==>
                emitted == None && isOpen && focusedIndex == old(focusedIndex)
    {
      emitted := None;
      if !isOpen {
        if key == "Enter" || key == " " || key == "ArrowDown" {
          isOpen := true;
          focusedIndex := 0;
        }
        return;
      }
      if key == "ArrowDown" {
        if focusedIndex < |options| - 1 {
          focusedIndex := focusedIndex + 1;
        }
      } else if key == "ArrowUp" {
        if focusedIndex > 0 {
          focusedIndex := focusedIndex - 1;
        }
      } else if key == "Enter" {
        if focusedIndex >= 0 && focusedIndex < |options| {
          emitted := Some(options[focusedIndex].value);
          isOpen := false;
          focusedIndex := -1;
        }
      } else if key == "Escape" {
        isOpen := false;
        focusedIndex := -1;
      }
    }

    /** Clicking an option emits its value and closes the list. */
    method HandleOptionClick(optionValue: string) returns (emitted: Option<string>)
      modifies this
      ensures emitted == Some(optionValue)
      ensures !isOpen && focusedIndex == -1
      ensures Valid()
    {
      emitted := Some(optionValue);
      isOpen := false;
      focusedIndex := -1;
    }

    /** A mouse press while open: outside the component it closes the list
        and clears the focus, emitting nothing. */
    method HandleMouseDown(inside: bool)
      requires Valid()
      modifies this
      ensures Valid()
      ensures old(isOpen) && !inside ==> !isOpen && focusedIndex == -1
      ensures !(old(isOpen) && !inside) ==> isOpen == old(isOpen) && focusedIndex == old(focusedIndex)
    {
      if isOpen && !inside {
        isOpen := false;
        focusedIndex := -1;
      }
    }

    /** The button toggles the list and leaves the focus alone. */
    method Toggle()
      requires Valid()
      modifies this
      ensures Valid()
      ensures isOpen == !old(isOpen) && focusedIndex == old(focusedIndex)
    {
      isOpen := !isOpen;
    }

    /** Hovering option `index` focuses it. */
    method HandleMouseEnter(index: int)
      requires 0 <= index < |options|
      modifies this
      ensures Valid()
      ensures focusedIndex == index && isOpen == old(isOpen)
    {
      focusedIndex := index;
    }
  }

  /** Keyboard selection: opening, stepping down once and pressing Enter on
      a two-option list emits the second value. */
  method KeyboardScenario() returns (emitted: Option<string>)
    ensures emitted == Some("b")
  {
    var s := new Select([DropdownOption("a", "A"), DropdownOption("b", "B")]);
    var e1 := s.HandleKeyDown("ArrowDown");
    assert s.isOpen && s.focusedIndex == 0;
    var e2 := s.HandleKeyDown("ArrowDown");
    assert s.focusedIndex == 1;
    emitted := s.HandleKeyDown("Enter");
  }
}
