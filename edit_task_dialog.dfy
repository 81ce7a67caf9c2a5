/** The task edit dialog of `src/components/ToDoList/EditTaskDialog.tsx`:
    stored ISO-8601 date-times are shown in the picker as `"YYYY-MM-DD HH:mm"`,
    and saving copies the task with its description and both date-times
    replaced. */
module EditTaskDialog {
  import opened Basics
  import opened TaskTypes
  import DatePicker

  /** The position of the first 'T' in `s`, for the one-shot `replace`. */
  predicate IsFirstT(s: string, i: int)
    requires 0 <= i < |s|
  {
    s[i] == 'T' && forall j :: 0 <= j < i ==> s[j] != 'T'
  }

  /** `s.replace("T", " ")`: a string pattern replaces its first match only. */
  function ReplaceFirstT(s: string): (r: string)
    ensures |r| == |s|
    ensures forall i :: 0 <= i < |s| ==> r[i] == if IsFirstT(s, i) then ' ' else s[i]
  {
    if s == [] then []
    else if s[0] == 'T' then [' '] + s[1..]
    else
      var rest := ReplaceFirstT(s[1..]);
      assert forall i :: 1 <= i < |s| ==> (IsFirstT(s, i) <==> IsFirstT(s[1..], i - 1));
      [s[0]] + rest
  }

  /** `formatToPicker`: "" for a missing or empty date-time; otherwise the
      first 'T' becomes a space and the text is cut to 16 characters. */
  function FormatToPicker(iso: Option<string>): (r: string)
    ensures !Truthy(iso) ==> r == ""
    ensures Truthy(iso) ==> |r| == Min(16, |iso.value|)
    ensures Truthy(iso) ==> forall i :: 0 <= i < |r| ==>
              r[i] == if IsFirstT(iso.value, i) then ' ' else iso.value[i]
  {
    if !Truthy(iso) then ""
    else
      var replaced := ReplaceFirstT(iso.value);
      replaced[..Min(16, |replaced|)]
  }

  /** A stored `"YYYY-MM-DDTHH:mm…"` value is shown as `"YYYY-MM-DD HH:mm"`. */
  lemma IsoToPicker(date: string, time: string, rest: string)
    requires |date| == 10 && 'T' !in date && |time| == 5
    ensures FormatToPicker(Some(date + "T" + time + rest)) == date + " " + time
  {
    var s := date + "T" + time + rest;
    var r := FormatToPicker(Some(s));
    assert IsFirstT(s, 10);
    forall i | 0 <= i < 16 ensures r[i] == (date + " " + time)[i] {
      if i < 10 {
        assert s[i] == date[i];
        assert !IsFirstT(s, i);
      } else if i > 10 {
        assert !IsFirstT(s, i) by { assert s[10] == 'T'; }
      }
    }
  }

  /** Opening the picker on such a value selects the stored date and time. */
  lemma PickerSeesStoredDateTime(date: string, time: string, rest: string)
    requires |date| == 10 && 'T' !in date && |time| == 5
    requires ' ' !in date && ' ' !in time
    ensures DatePicker.InitialDate(FormatToPicker(Some(date + "T" + time + rest))) == date
    ensures DatePicker.InitialTime(FormatToPicker(Some(date + "T" + time + rest))) == time
  {
    IsoToPicker(date, time, rest);
    assert date + " " + time == DatePicker.Emit(date, time);
    DatePicker.EmitRoundTrip(date, time);
  }

  /** The dialog's fields. */
  datatype Form = Form(description: string, startDate: string, endDate: string)

  /** The fields loaded when the dialog opens on `task`. */
  function Load(task: Task): (f: Form)
    ensures f.description == task.description
    ensures f.startDate == FormatToPicker(task.start_datetime)
    ensures f.endDate == FormatToPicker(task.end_datetime)
  {
    Form(task.description, FormatToPicker(task.start_datetime), FormatToPicker(task.end_datetime))
  }

  /** `formatToISO`: nothing for an empty picker string; otherwise
      `toIso`, which stands for `new Date(…).toISOString()` and yields
      nothing for an unparsable date. */
  function FormatToIso(pickerDate: string, toIso: string -> Option<string>): (r: Option<string>)
    ensures pickerDate == "" ==> r == None
  {
    if pickerDate == "" then None else toIso(pickerDate)
  }

  /** The task `handleSave` passes to `onSave`. */
  function SavedTask(task: Task, form: Form, toIso: string -> Option<string>): (r: Task)
    ensures r.(description := task.description, start_datetime := task.start_datetime,
               end_datetime := task.end_datetime) == task
    ensures r.description == form.description
    ensures form.startDate == "" ==> r.start_datetime == None
    ensures form.endDate == "" ==> r.end_datetime == None
  {
    task.(description := form.description,
          start_datetime := FormatToIso(form.startDate, toIso),
          end_datetime := FormatToIso(form.endDate, toIso))
  }

  /** Saving an untouched form of a task without dates keeps the task. */
  lemma SaveUntouchedUndated(task: Task, toIso: string -> Option<string>)
    requires task.start_datetime == None && task.end_datetime == None
    ensures SavedTask(task, Load(task), toIso) == task
  {
  }
}
