/** The habit dialog and the habit table of src/views/habits.py: how the
    seven weekday boxes are written to and read back from the
    `specific_days_of_week` string, and how the table shows a habit's
    frequency. Widgets are plain fields; the two spin-box bounds are the
    ones the dialog sets. */
module HabitsView {
  import opened Wrappers
  import opened Dates
  import opened Text
  import opened Models
  import opened HabitService

  /** The labels of the seven boxes, Monday first. */
  const DayNames: seq<string> := ["Mon", "Tue", "Wed", "Thu", "Fri", "Sat", "Sun"]

  /** The range `setRange(0, 10000)` gives the target spin box. */
  const TargetMax: real := 10000.0

  // ---------------------------------------------------------------
  // Encoding the boxes
  // ---------------------------------------------------------------

  /** The indices `i, i + 1, ...` of the checked boxes, ascending. */
  function CheckedFrom(checked: seq<bool>, i: nat): (r: seq<nat>)
    requires i <= |checked|
    ensures forall v :: v in r <==> i <= v < |checked| && checked[v]
    ensures forall k :: 0 <= k < |r| ==> i <= r[k] < |checked|
    ensures forall k, l :: 0 <= k < l < |r| ==> r[k] < r[l]
    decreases |checked| - i
  {
    if i == |checked| then []
    else (if checked[i] then [i] else []) + CheckedFrom(checked, i + 1)
  }

  /** `[i for i, cb in enumerate(boxes) if cb.isChecked()]` */
  function CheckedIndices(checked: seq<bool>): seq<nat> {
    CheckedFrom(checked, 0)
  }

  /** `[str(i) for i in indices]` for indices below ten. */
  function DigitStrings(indices: seq<nat>): (r: seq<string>)
    requires forall k :: 0 <= k < |indices| ==> indices[k] < 10
    ensures |r| == |indices|
    ensures forall k :: 0 <= k < |r| ==> r[k] == DigitString(indices[k])
  {
    seq(|indices|, k requires 0 <= k < |indices| => DigitString(indices[k]))
  }

  /** The `specific_days_of_week` value `get_habit_data` returns: present
      exactly for SPECIFIC_DAYS with a checked box, and then the decimal
      checked indices, ascending, separated by commas. */
  function EncodeDays(frequency: Frequency, checked: seq<bool>): (r: Option<string>)
    requires |checked| <= 10
    ensures r.Some? <==> frequency == SpecificDays && true in checked
    ensures r.Some? ==> Split(r.value, ',') == DigitStrings(CheckedIndices(checked))
  {
    var indices := CheckedIndices(checked);
    AnyCheckedIff(checked);
    if frequency == SpecificDays && |indices| > 0 then
      DigitStringsSplit(indices);
      Some(Join(DigitStrings(indices), ","))
    else None
  }

  lemma AnyCheckedIff(checked: seq<bool>)
    ensures true in checked <==> |CheckedIndices(checked)| > 0
  {
    var indices := CheckedIndices(checked);
    if true in checked {
      var i :| 0 <= i < |checked| && checked[i];
      assert i in indices;
    }
    if |indices| > 0 {
      assert indices[0] in indices;
    }
  }

  /** Joining the digit strings with "," and splitting on ',' gives the
      digit strings back. */
  lemma DigitStringsSplit(indices: seq<nat>)
    requires |indices| > 0
    requires forall k :: 0 <= k < |indices| ==> indices[k] < 10
    ensures Split(Join(DigitStrings(indices), ","), ',') == DigitStrings(indices)
  {
    var parts := DigitStrings(indices);
    forall k | 0 <= k < |parts|
      ensures ',' !in parts[k]
    {
      assert parts[k] == DigitString(indices[k]);
    }
    SplitJoin(parts, ',');
  }

  /** Parsing the digit strings of some indices gives those indices back. */
  lemma {:induction false} ParseDigitStrings(indices: seq<nat>)
    requires forall k :: 0 <= k < |indices| ==> indices[k] < 10
    ensures ParseSegments(DigitStrings(indices)) == Some(indices)
    decreases |indices|
  {
    var parts := DigitStrings(indices);
    if |indices| == 0 {
      assert parts == [];
    } else {
      var tail := DigitStrings(indices[1..]);
      assert parts[1..] == tail;
      ParseDigitStrings(indices[1..]);
      assert ParseDecimal(parts[0]) == Some(indices[0]);
      assert ParseSegments(parts) == Some([indices[0]] + indices[1..]);
      assert [indices[0]] + indices[1..] == indices;
    }
  }

  /** The string the dialog writes parses back to the checked indices. */
  lemma EncodedDaysParse(checked: seq<bool>)
    requires |checked| == 7 && |CheckedIndices(checked)| > 0
    ensures ParseDayList(EncodeDays(SpecificDays, checked).value) == Some(CheckedIndices(checked))
  {
    ParseDigitStrings(CheckedIndices(checked));
  }

  // ---------------------------------------------------------------
  // Decoding into the boxes
  // ---------------------------------------------------------------

  /** The frequency the combo shows after `findData`: the habit's own
      when it is one of the four members, the previous one otherwise. */
  function ShownFrequency(h: Habit, current: Frequency): (r: Frequency)
    ensures !h.frequency.Other? ==> r == h.frequency
    ensures h.frequency.Other? ==> r == current
  {
    if h.frequency.Other? then current else h.frequency
  }

  /** The boxes after `load_habit_data`: cleared unless the combo shows
      SPECIFIC_DAYS, then box `i` checked iff `i` is in a non-empty
      weekday string; `None` is the `ValueError` of a malformed string. */
  function LoadedDays(h: Habit, shown: Frequency, before: seq<bool>): (r: Option<seq<bool>>)
    ensures r.None? <==> (h.frequency == SpecificDays && h.specificDays.Some? && h.specificDays.value != "" &&
      ParseDayList(h.specificDays.value).None?)
    ensures r.Some? ==> |r.value| == |before|
  {
    var cleared := if shown != SpecificDays then seq(|before|, _ => false) else before;
    if h.frequency == SpecificDays && h.specificDays.Some? && h.specificDays.value != "" then
      match ParseDayList(h.specificDays.value)
      case None => None
      case Some(days) => Some(seq(|before|, i => i in days))
    else Some(cleared)
  }

  /** Saving the boxes and loading the saved habit into a new dialog
      restores exactly the boxes that were checked. */
  lemma DaysRoundTrip(checked: seq<bool>, h: Habit)
    requires |checked| == 7
    requires h.frequency == SpecificDays && h.specificDays == EncodeDays(SpecificDays, checked)
    ensures LoadedDays(h, ShownFrequency(h, Daily), seq(7, _ => false)) == Some(checked)
  {
    var indices := CheckedIndices(checked);
    if |indices| > 0 {
      EncodedDaysParse(checked);
      var restored := seq(7, i => i in indices);
      assert forall i :: 0 <= i < 7 ==> restored[i] == checked[i];
      assert restored == checked;
    } else {
      assert forall i :: 0 <= i < 7 ==> !checked[i];
      assert checked == seq(7, _ => false);
    }
  }

  /** A saved SPECIFIC_DAYS habit is due on exactly the weekdays whose
      boxes were checked (none checked: never due). */
  lemma SavedDaysAreDueDays(checked: seq<bool>, h: Habit, d: int)
    requires |checked| == 7
    requires h.status == Active && h.frequency == SpecificDays && h.specificDays == EncodeDays(SpecificDays, checked)
    ensures IsDueOn(h, d) == Some(checked[Weekday(d)])
  {
    if |CheckedIndices(checked)| > 0 {
      EncodedDaysParse(checked);
    } else {
      assert checked[Weekday(d)] ==> Weekday(d) in CheckedIndices(checked);
    }
  }

  /** `QDoubleSpinBox.setValue` keeps a value inside the box's range. */
  function ClampTarget(x: real): (r: real)
    ensures 0.0 <= r <= TargetMax
    ensures 0.0 <= x <= TargetMax ==> r == x
  {
    if x < 0.0 then 0.0 else if x > TargetMax then TargetMax else x
  }

  function UsesTarget(c: CompletionType): bool {
    c == Quantitative || c == Duration
  }

  /** The dictionary `get_habit_data` returns. */
  datatype HabitData = HabitData(
    name: string,
    description: string,
    frequency: Frequency,
    specificDays: Option<string>,
    completionType: CompletionType,
    targetValue: Option<real>,
    unit: Option<string>,
    status: HabitStatus)

  /** `HabitDialog`: the values its widgets hold. */
  class HabitDialog {
    var name: string
    var description: string
    var frequency: Frequency
    const dayChecked: array<bool>
    var completionType: CompletionType
    var targetValue: real
    var unit: string
    var status: HabitStatus

    /** Seven boxes; the combos hold only real members; the target lies
        in the spin box's range. */
    ghost predicate Valid()
      reads this
    {
      dayChecked.Length == 7 && !frequency.Other? && 0.0 <= targetValue <= TargetMax
    }

    /** A new dialog: empty texts, every combo on its first item, every
        box unchecked. */
    constructor ()
      ensures Valid() && fresh(dayChecked)
      ensures name == "" && description == "" && frequency == Daily && completionType == Binary
      ensures targetValue == 0.0 && unit == "" && status == Active
      ensures dayChecked[..] == seq(7, _ => false)
    {
      name, description, frequency := "", "", Daily;
      dayChecked := new bool[7](_ => false);
      completionType, targetValue, unit, status := Binary, 0.0, "", Active;
    }

    /** `on_frequency_changed`: leaving SPECIFIC_DAYS unchecks every box. */
    method OnFrequencyChanged()
      requires Valid()
      modifies dayChecked
      ensures Valid()
      ensures frequency != SpecificDays ==> dayChecked[..] == seq(7, _ => false)
      ensures frequency == SpecificDays ==> dayChecked[..] == old(dayChecked[..])
    {
      if frequency != SpecificDays {
        for i := 0 to 7
          invariant forall k :: 0 <= k < i ==> !dayChecked[k]
        {
          dayChecked[i] := false;
        }
        assert dayChecked[..] == seq(7, _ => false);
      }
    }

    /** The user picks a frequency in the combo. */
    method SelectFrequency(f: Frequency)
      requires Valid() && !f.Other?
      modifies this, dayChecked
      ensures Valid() && frequency == f
      ensures f != SpecificDays ==> dayChecked[..] == seq(7, _ => false)
      ensures f == SpecificDays ==> dayChecked[..] == old(dayChecked[..])
      ensures name == old(name) && description == old(description) && completionType == old(completionType)
      ensures targetValue == old(targetValue) && unit == old(unit) && status == old(status)
    {
      frequency := f;
      OnFrequencyChanged();
    }

    /** The user picks a completion type: outside QUANTITATIVE and
        DURATION the target and unit are reset. */
    method SelectCompletionType(c: CompletionType)
      requires Valid()
      modifies this
      ensures Valid() && completionType == c
      ensures !UsesTarget(c) ==> targetValue == 0.0 && unit == ""
      ensures UsesTarget(c) ==> targetValue == old(targetValue) && unit == old(unit)
      ensures name == old(name) && description == old(description) && frequency == old(frequency)
      ensures status == old(status)
    {
      completionType := c;
      if !UsesTarget(c) {
        targetValue, unit := 0.0, "";
      }
    }

    /** `load_habit_data`. `false` is the `ValueError` of a malformed
        weekday string, raised after name, description and frequency are
        shown and the boxes cleared by the frequency change. */
    method LoadHabitData(h: Habit) returns (ok: bool)
      requires Valid()
      modifies this, dayChecked
      ensures Valid()
      ensures ok <==> LoadedDays(h, ShownFrequency(h, old(frequency)), old(dayChecked[..])).Some?
      ensures name == h.name && description == h.description.GetOr("")
      ensures frequency == ShownFrequency(h, old(frequency))
      ensures ok ==> dayChecked[..] == LoadedDays(h, frequency, old(dayChecked[..])).value
      ensures ok ==> completionType == h.completionType && status == h.status
      ensures ok && UsesTarget(h.completionType) ==>
        targetValue == ClampTarget(h.targetValue.GetOr(0.0)) && unit == h.unit.GetOr("")
      ensures ok && !UsesTarget(h.completionType) ==> targetValue == 0.0 && unit == ""
    {
      name := h.name;
      description := h.description.GetOr("");
      if !h.frequency.Other? {
        frequency := h.frequency;
      }
      OnFrequencyChanged();
      if h.frequency == SpecificDays && h.specificDays.Some? && h.specificDays.value != "" {
        var parsed := ParseDayList(h.specificDays.value);
        if parsed.None? {
          return false;
        }
        for i := 0 to 7
          modifies dayChecked
          invariant forall k :: 0 <= k < i ==> dayChecked[k] == (k in parsed.value)
        {
          dayChecked[i] := i in parsed.value;
        }
        assert dayChecked[..] == seq(7, i => i in parsed.value);
      }
      completionType := h.completionType;
      if UsesTarget(h.completionType) {
        targetValue := ClampTarget(h.targetValue.GetOr(0.0));
        unit := h.unit.GetOr("");
      } else {
        targetValue, unit := 0.0, "";
      }
      status := h.status;
      ok := true;
    }

    /** `get_habit_data`: the weekday string only for SPECIFIC_DAYS with
        a checked box, target and unit only for QUANTITATIVE and
        DURATION. */
    method GetHabitData() returns (data: HabitData)
      requires Valid()
      ensures data.name == name && data.description == description && data.status == status
      ensures data.frequency == frequency && data.completionType == completionType
      ensures data.specificDays == EncodeDays(frequency, dayChecked[..])
      ensures data.specificDays.Some? <==> frequency == SpecificDays && exists i :: 0 <= i < 7 && dayChecked[i]
      ensures data.targetValue == (if UsesTarget(completionType) then Some(targetValue) else None)
      ensures data.unit == (if UsesTarget(completionType) then Some(unit) else None)
    {
      var checked := dayChecked[..];
      var days := EncodeDays(frequency, checked);
      if exists i :: 0 <= i < 7 && dayChecked[i] {
        var i :| 0 <= i < 7 && dayChecked[i];
        assert i in CheckedIndices(checked);
      }
      if |CheckedIndices(checked)| > 0 {
        assert CheckedIndices(checked)[0] in CheckedIndices(checked);
      }
      var uses := UsesTarget(completionType);
      data := HabitData(name, description, frequency, days, completionType,
        if uses then Some(targetValue) else None, if uses then Some(unit) else None, status);
    }
  }

  // ---------------------------------------------------------------
  // The frequency column
  // ---------------------------------------------------------------

  /** `frequency.value.capitalize()` for the four members; a stored value
      outside them is shown as it is. */
  function FrequencyLabel(f: Frequency): (r: string)
    ensures !f.Other? ==> r == Capitalize(FrequencyValue(f))
    ensures f.Other? ==> r == f.raw
  {
    CapitalizedAs("daily", "Daily");
    CapitalizedAs("weekly", "Weekly");
    CapitalizedAs("monthly", "Monthly");
    CapitalizedAs("specific_days", "Specific_days");
    match f
    case Daily => "Daily"
    case Weekly => "Weekly"
    case Monthly => "Monthly"
    case SpecificDays => "Specific_days"
    case Other(raw) => raw
  }

  lemma CapitalizedAs(s: string, t: string)
    requires |s| == |t| > 0 && t[0] == UpperAscii(s[0])
    requires forall k :: 1 <= k < |s| ==> t[k] == LowerAscii(s[k])
    ensures Capitalize(s) == t
  {
  }

  /** `[days_map[i] for i in indices]`; `None` is the `IndexError` of an
      index past Sunday. */
  function DayLabels(indices: seq<nat>): (r: Option<seq<string>>)
    ensures r.Some? <==> forall k :: 0 <= k < |indices| ==> indices[k] < 7
    ensures r.Some? ==> (|r.value| == |indices| &&
      forall k :: 0 <= k < |indices| ==> r.value[k] == DayNames[indices[k]])
    decreases |indices|
  {
    if |indices| == 0 then Some([])
    else if indices[0] >= 7 then None
    else
      var rest := DayLabels(indices[1..]);
      assert forall k :: 1 <= k < |indices| ==> indices[k] == indices[1..][k - 1];
      if rest.None? then None else Some([DayNames[indices[0]]] + rest.value)
  }

  /** The text of the frequency column in `load_habits`; `None` is an
      exception that aborts loading the table. */
  function FrequencyDisplay(h: Habit): (r: Option<string>)
    ensures h.frequency != SpecificDays ==> r == Some(FrequencyLabel(h.frequency))
    ensures h.frequency == SpecificDays && (h.specificDays.None? || h.specificDays.value == "") ==>
      r == Some("Days: None")
  {
    if h.frequency != SpecificDays then Some(FrequencyLabel(h.frequency))
    else if h.specificDays.None? || h.specificDays.value == "" then Some("Days: None")
    else match ParseDayList(h.specificDays.value)
      case None => None
      case Some(indices) =>
        match DayLabels(indices)
        case None => None
        case Some(labels) => Some("Days: " + Join(labels, ", "))
  }

  /** The display fails exactly on a weekday string that does not parse
      or names an index past Sunday. */
  lemma DisplayFailsIff(h: Habit)
    requires h.frequency == SpecificDays && h.specificDays.Some? && h.specificDays.value != ""
    ensures FrequencyDisplay(h).None? <==>
      ParseDayList(h.specificDays.value).None? ||
      exists k :: 0 <= k < |ParseDayList(h.specificDays.value).value| && ParseDayList(h.specificDays.value).value[k] >= 7
  {
  }

  /** A habit saved from the dialog is displayed with the labels of its
      checked boxes, Monday first, or as "Days: None" when none was
      checked: the column never fails on a string the dialog wrote. */
  lemma DisplayOfSavedDays(checked: seq<bool>, h: Habit, indices: seq<nat>)
    requires |checked| == 7 && indices == CheckedIndices(checked)
    requires h.frequency == SpecificDays && h.specificDays == EncodeDays(SpecificDays, checked)
    ensures FrequencyDisplay(h) == if |indices| == 0 then Some("Days: None")
      else Some("Days: " + Join(seq(|indices|, k requires 0 <= k < |indices| => DayNames[indices[k]]), ", "))
  {
    if |indices| > 0 {
      EncodedDaysParse(checked);
      LabelsOfWeekdays(indices);
    }
  }

  lemma LabelsOfWeekdays(indices: seq<nat>)
    requires forall k :: 0 <= k < |indices| ==> indices[k] < 7
    ensures DayLabels(indices) == Some(seq(|indices|, k requires 0 <= k < |indices| => DayNames[indices[k]]))
  {
    var labels := DayLabels(indices).value;
    var named := seq(|indices|, k requires 0 <= k < |indices| => DayNames[indices[k]]);
    assert |labels| == |named|;
    assert forall k :: 0 <= k < |named| ==> labels[k] == named[k];
    assert labels == named;
    assert DayLabels(indices) == Some(labels);
  }
}
