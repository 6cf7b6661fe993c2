/** Habit scheduling and analytics (src/services/habit_service.py).
    Dates are day ordinals, "today" is a parameter, and the database
    session is the `HabitStore` object. A `ValueError` raised while
    parsing the weekday list is `None`. */
module HabitService {
  import opened Wrappers
  import opened Dates
  import opened Text
  import opened Models

  // ---------------------------------------------------------------
  // Recurrence rule
  // ---------------------------------------------------------------

  /** `[int(d) for d in parts if d]`: the non-empty segments as integers,
      or `None` when one of them is not a decimal number. */
  function ParseSegments(parts: seq<string>): (r: Option<seq<nat>>)
    ensures r.Some? <==>
      forall i :: 0 <= i < |parts| && parts[i] != "" ==> ParseDecimal(parts[i]).Some?
    ensures r.Some? ==> forall v :: v in r.value <==>
      exists i :: 0 <= i < |parts| && parts[i] != "" && ParseDecimal(parts[i]) == Some(v)
    decreases |parts|
  {
    if |parts| == 0 then Some([])
    else
      var rest := ParseSegments(parts[1..]);
      assert forall i :: 1 <= i < |parts| ==> parts[i] == parts[1..][i - 1];
      if parts[0] == "" then rest
      else match ParseDecimal(parts[0])
        case None => None
        case Some(v) =>
          if rest.None? then None
          else
            assert forall i :: 0 <= i < |parts| - 1 ==> parts[1..][i] == parts[i + 1];
            Some([v] + rest.value)
  }

  /** The weekday list of a `specific_days_of_week` string such as
      `"0,2,4"`: it parses exactly when the string holds nothing but
      digits and commas, and it is empty exactly when the string holds
      nothing but commas. */
  function ParseDayList(s: string): (r: Option<seq<nat>>)
    ensures r.Some? <==> forall c :: c in s ==> c == ',' || IsDigit(c)
    ensures r == Some([]) <==> forall c :: c in s ==> c == ','
  {
    DayListParsesIff(s, Split(s, ','));
    DayListEmptyIff(s, Split(s, ','));
    ParseSegments(Split(s, ','))
  }

  lemma DayListParsesIff(s: string, parts: seq<string>)
    requires parts == Split(s, ',')
    ensures ParseSegments(parts).Some? <==> forall c :: c in s ==> c == ',' || IsDigit(c)
  {
    if forall c :: c in s ==> c == ',' || IsDigit(c) {
      forall i | 0 <= i < |parts| && parts[i] != ""
        ensures ParseDecimal(parts[i]).Some?
      {
        assert forall j :: 0 <= j < |parts[i]| ==> parts[i][j] in parts[i];
      }
    } else {
      var c :| c in s && c != ',' && !IsDigit(c);
      var i :| 0 <= i < |parts| && c in parts[i];
      var j :| 0 <= j < |parts[i]| && parts[i][j] == c;
      assert ParseDecimal(parts[i]).None?;
    }
  }

  lemma DayListEmptyIff(s: string, parts: seq<string>)
    requires parts == Split(s, ',')
    ensures ParseSegments(parts) == Some([]) <==> forall c :: c in s ==> c == ','
  {
    if forall c :: c in s ==> c == ',' {
      OnlyCommasGiveNoDays(s, parts);
    } else {
      var c :| c in s && c != ',';
      var i :| 0 <= i < |parts| && c in parts[i];
      if ParseSegments(parts).Some? {
        assert parts[i] != "";
        assert ParseDecimal(parts[i]).value in ParseSegments(parts).value;
      }
    }
  }

  lemma OnlyCommasGiveNoDays(s: string, parts: seq<string>)
    requires parts == Split(s, ',')
    requires forall c :: c in s ==> c == ','
    ensures ParseSegments(parts) == Some([])
  {
    forall i | 0 <= i < |parts|
      ensures parts[i] == ""
    {
      CommaFreePartOfCommas(parts[i], s);
    }
  }

  lemma CommaFreePartOfCommas(p: string, s: string)
    requires ',' !in p && forall c :: c in p ==> c in s
    requires forall c :: c in s ==> c == ','
    ensures p == ""
  {
    FirstIsMember(p);
  }

  lemma FirstIsMember(p: string)
    ensures |p| > 0 ==> p[0] in p
  {
  }

  /** The habit's rule can be evaluated without raising: only an active
      SPECIFIC_DAYS habit whose weekday string holds a character other
      than a digit or a comma raises. */
  predicate Readable(h: Habit)
    ensures Readable(h) <==>
      !(h.status == Active && h.frequency == SpecificDays && h.specificDays.Some? &&
        (exists c :: c in h.specificDays.value && c != ',' && !IsDigit(c)))
  {
    h.status == Active && h.frequency == SpecificDays &&
    h.specificDays.Some? && h.specificDays.value != "" ==>
      ParseDayList(h.specificDays.value).Some?
  }

  /** `is_habit_due_on_date`. */
  function IsDueOn(h: Habit, d: int): (r: Option<bool>)
    ensures r.None? <==> !Readable(h)
    ensures h.status != Active ==> r == Some(false)
    ensures h.frequency.Other? ==> r == Some(false)
  {
    if h.status != Active then Some(false)
    else match h.frequency
      case Daily => Some(true)
      case Weekly => Some(Weekday(h.createdOn) == Weekday(d))
      case Monthly => Some(DayOfMonth(h.createdOn) == DayOfMonth(d))
      case SpecificDays =>
        if h.specificDays.None? || h.specificDays.value == "" then Some(false)
        else (match ParseDayList(h.specificDays.value)
          case None => None
          case Some(due) => Some(Weekday(d) in due))
      case Other(_) => Some(false)
  }

  /** An active daily habit is due every day. */
  lemma DailyAlwaysDue(h: Habit, d: int)
    requires h.status == Active && h.frequency == Daily
    ensures IsDueOn(h, d) == Some(true)
  {
  }

  /** An active weekly habit is due exactly on the days a whole number of
      weeks away from its creation day. */
  lemma WeeklyDueEverySeventhDay(h: Habit, d: int)
    requires h.status == Active && h.frequency == Weekly
    ensures IsDueOn(h, d) == Some(true) <==> (d - h.createdOn) % 7 == 0
  {
    var c := h.createdOn;
    var q1, q2 := (c + 6) / 7, (d + 6) / 7;
    assert c + 6 == 7 * q1 + Weekday(c);
    assert d + 6 == 7 * q2 + Weekday(d);
    assert d - c == 7 * (q2 - q1) + (Weekday(d) - Weekday(c));
  }

  /** A monthly habit created on a day of the month that a month does not
      have (the 31st, say) is never due in that month. */
  lemma MonthlyNeverDueOnMissingDay(h: Habit, d: int)
    requires h.status == Active && h.frequency == Monthly
    requires DayOfMonth(h.createdOn) > DaysInMonth(FromOrdinal(d).year, FromOrdinal(d).month)
    ensures IsDueOn(h, d) == Some(false)
  {
  }

  /** An active SPECIFIC_DAYS habit with a readable non-empty weekday
      string is due on a date iff one of its non-empty segments is that
      date's weekday. */
  lemma SpecificDaysDueIff(h: Habit, d: int, parts: seq<string>)
    requires h.status == Active && h.frequency == SpecificDays
    requires h.specificDays.Some? && h.specificDays.value != "" && Readable(h)
    requires parts == Split(h.specificDays.value, ',')
    ensures IsDueOn(h, d) == Some(true) <==>
      exists i :: 0 <= i < |parts| && parts[i] != "" && ParseDecimal(parts[i]) == Some(Weekday(d))
  {
    var due := ParseSegments(parts);
    var w: nat := Weekday(d);
    assert IsDueOn(h, d) == Some(w in due.value);
  }

  /** A SPECIFIC_DAYS habit without a weekday string is never due. */
  lemma SpecificDaysWithoutListNeverDue(h: Habit, d: int)
    requires h.frequency == SpecificDays
    requires h.specificDays.None? || h.specificDays.value == ""
    ensures IsDueOn(h, d) == Some(false)
  {
  }

  // ---------------------------------------------------------------
  // Sets of days
  // ---------------------------------------------------------------

  /** The days `lo .. hi - 1`. */
  function Interval(lo: int, hi: int): (r: set<int>)
    ensures forall d :: d in r <==> lo <= d < hi
    decreases hi - lo
  {
    if lo >= hi then {} else Interval(lo, hi - 1) + {hi - 1}
  }

  lemma {:induction false} IntervalSize(lo: int, hi: int)
    requires lo <= hi
    ensures |Interval(lo, hi)| == hi - lo
    decreases hi - lo
  {
    if lo < hi {
      IntervalSize(lo, hi - 1);
      assert Interval(lo, hi) == Interval(lo, hi - 1) + {hi - 1};
    } else {
      assert Interval(lo, hi) == {};
    }
  }

  lemma {:induction false} SubsetSize(a: set<int>, b: set<int>)
    requires a <= b
    ensures |a| <= |b|
    decreases |a|
  {
    if a != {} {
      HasElement(a);
      var x :| x in a;
      SubsetSize(a - {x}, b - {x});
    }
  }

  /** A run of consecutive days inside `dates` is no longer than the
      number of dates. */
  lemma RunFits(lo: int, hi: int, dates: set<int>)
    requires lo <= hi
    requires forall d :: lo <= d < hi ==> d in dates
    ensures hi - lo <= |dates|
  {
    IntervalSize(lo, hi);
    SubsetSize(Interval(lo, hi), dates);
  }

  // ---------------------------------------------------------------
  // Completion rate: specification
  // ---------------------------------------------------------------

  function Max(a: int, b: int): int {
    if a >= b then a else b
  }

  /** `calculation_start_date`: the window covers the last `days` days,
      but not the days before the habit was created. */
  function WindowStart(h: Habit, days: int, today: int): int {
    Max(today - (days - 1), h.createdOn)
  }

  /** The days of `[lo, hi]` on which the habit is due. */
  ghost function DueSet(h: Habit, lo: int, hi: int): (r: set<int>)
    ensures r <= Interval(lo, hi + 1)
  {
    set d | lo <= d <= hi && IsDueOn(h, d) == Some(true)
  }

  /** `(completed / due) * 100`, and 0 when nothing is due. */
  function Percent(part: nat, whole: nat): real {
    if whole == 0 then 0.0 else (part as real / whole as real) * 100.0
  }

  /** The share of a part is a percentage, and the whole is 100. */
  lemma PercentBounds(part: nat, whole: nat)
    requires part <= whole
    ensures 0.0 <= Percent(part, whole) <= 100.0
    ensures 0 < part == whole ==> Percent(part, whole) == 100.0
  {
    if whole > 0 {
      var c, n := part as real, whole as real;
      assert c / n <= 1.0 by {
        assert c <= n;
      }
      if part == whole {
        assert c / n == 1.0;
      }
    }
  }

  /** The rate `get_completion_rate` promises: the share, in percent, of
      the due days of the window that have a completed entry. `done` is
      the set of dates with a completed entry. */
  ghost function RateSpec(h: Habit, done: set<int>, days: int, today: int): Option<real> {
    var start := WindowStart(h, days, today);
    if start > today then Some(0.0)
    else if !Readable(h) then None
    else
      var due := DueSet(h, start, today);
      Some(Percent(|due * done|, |due|))
  }

  /** The rate is a percentage. */
  lemma RateIsPercentage(h: Habit, done: set<int>, days: int, today: int)
    requires RateSpec(h, done, days, today).Some?
    ensures 0.0 <= RateSpec(h, done, days, today).value <= 100.0
  {
    var start := WindowStart(h, days, today);
    if start <= today {
      var due := DueSet(h, start, today);
      SubsetSize(due * done, due);
      PercentBounds(|due * done|, |due|);
    }
  }

  /** Completing the habit on a day it is not due never changes the
      rate. */
  lemma RateIgnoresOffDays(h: Habit, done: set<int>, days: int, today: int, d: int)
    requires IsDueOn(h, d) != Some(true)
    ensures RateSpec(h, done + {d}, days, today) == RateSpec(h, done, days, today)
  {
    var start := WindowStart(h, days, today);
    var due := DueSet(h, start, today);
    assert d !in due;
    assert due * (done + {d}) == due * done;
  }

  /** Completing every due day of the window gives 100. */
  lemma RateFullWhenEveryDueDayDone(h: Habit, done: set<int>, days: int, today: int)
    requires WindowStart(h, days, today) <= today && Readable(h)
    requires |DueSet(h, WindowStart(h, days, today), today)| > 0
    requires DueSet(h, WindowStart(h, days, today), today) <= done
    ensures RateSpec(h, done, days, today) == Some(100.0)
  {
    var due := DueSet(h, WindowStart(h, days, today), today);
    assert due * done == due;
    PercentBounds(|due|, |due|);
  }

  // ---------------------------------------------------------------
  // Store
  // ---------------------------------------------------------------

  /** Changes `update_habit` is given; `None` leaves a field as it is
      (the keyword was not passed). */
  datatype HabitPatch = HabitPatch(
    name: Option<string>,
    description: Option<Option<string>>,
    frequency: Option<Frequency>,
    specificDays: Option<Option<string>>,
    completionType: Option<CompletionType>,
    targetValue: Option<Option<real>>,
    unit: Option<Option<string>>,
    status: Option<HabitStatus>)

  /** The habit after `update_habit` has applied `p`: a frequency other
      than SPECIFIC_DAYS forces the weekday string to `None`. */
  function ApplyPatch(h: Habit, p: HabitPatch): (r: Habit)
    ensures p.frequency.Some? && p.frequency.value != SpecificDays ==> r.specificDays.None?
    ensures p.frequency.None? || p.frequency.value == SpecificDays ==>
      r.specificDays == p.specificDays.GetOr(h.specificDays)
    ensures r.name == p.name.GetOr(h.name)
    ensures r.description == p.description.GetOr(h.description)
    ensures r.frequency == p.frequency.GetOr(h.frequency)
    ensures r.completionType == p.completionType.GetOr(h.completionType)
    ensures r.targetValue == p.targetValue.GetOr(h.targetValue)
    ensures r.unit == p.unit.GetOr(h.unit)
    ensures r.status == p.status.GetOr(h.status)
    ensures r.createdOn == h.createdOn
    ensures p == HabitPatch(None, None, None, None, None, None, None, None) ==> r == h
  {
    var days :=
      if p.frequency.Some? && p.frequency.value != SpecificDays then None
      else p.specificDays.GetOr(h.specificDays);
    Habit(
      p.name.GetOr(h.name),
      p.description.GetOr(h.description),
      p.frequency.GetOr(h.frequency),
      days,
      p.completionType.GetOr(h.completionType),
      p.targetValue.GetOr(h.targetValue),
      p.unit.GetOr(h.unit),
      p.status.GetOr(h.status),
      h.createdOn)
  }

  /** Applying the same update twice is the same as applying it once. */
  lemma ApplyPatchIdempotent(h: Habit, p: HabitPatch)
    ensures ApplyPatch(ApplyPatch(h, p), p) == ApplyPatch(h, p)
  {
  }

  /** After an update that moves a habit off SPECIFIC_DAYS its rule can
      always be evaluated. */
  lemma PatchAwayFromSpecificDaysReadable(h: Habit, p: HabitPatch)
    requires p.frequency.Some? && p.frequency.value != SpecificDays
    ensures Readable(ApplyPatch(h, p))
  {
  }

  /** The first loop of `get_completion_rate`: the number of due days in
      `[start, today]`, or `None` when the rule raises. */
  method CountDueDays(h: Habit, start: int, today: int) returns (r: Option<nat>)
    requires start <= today
    ensures r.None? <==> !Readable(h)
    ensures r.Some? ==> r.value == |DueSet(h, start, today)|
  {
    var count := 0;
    var current := start;
    DueCountExtend(h, start, start - 1);
    while current <= today
      invariant start <= current <= today + 1
      invariant current > start ==> Readable(h)
      invariant count == |DueSet(h, start, current - 1)|
      decreases today - current
    {
      var isDue := IsDueOn(h, current);
      if isDue.None? {
        return None;
      }
      DueCountExtend(h, start, current);
      if isDue.value {
        count := count + 1;
      }
      current := current + 1;
    }
    r := Some(count);
  }

  /** Counting one more day: the due days of `[lo, hi]` are one more
      than those of `[lo, hi - 1]` exactly when `hi` is due, and there
      are none in an empty range. */
  lemma DueCountExtend(h: Habit, lo: int, hi: int)
    ensures |DueSet(h, lo, hi)| ==
      |DueSet(h, lo, hi - 1)| + (if lo <= hi && IsDueOn(h, hi) == Some(true) then 1 else 0)
    ensures hi < lo ==> DueSet(h, lo, hi) == {}
  {
    var a, b := DueSet(h, lo, hi), DueSet(h, lo, hi - 1);
    if lo <= hi && IsDueOn(h, hi) == Some(true) {
      assert hi !in b;
      assert a == b + {hi};
    } else {
      assert a == b;
    }
  }

  /** The second loop of `get_completion_rate`: how many of the distinct
      completed dates `done` of the window are due days. */
  method CountCompletedDueDays(h: Habit, done: set<int>, start: int, today: int) returns (count: nat)
    requires Readable(h)
    ensures count == |DueSet(h, start, today) * done|
  {
    ghost var due := DueSet(h, start, today);
    count := 0;
    ghost var counted: set<int> := {};
    var rest := done;
    while rest != {}
      invariant rest <= done
      invariant counted == (done - rest) * due
      invariant count == |counted|
      decreases |rest|
    {
      HasElement(rest);
      var d :| d in rest;
      var isDue := IsDueOn(h, d);
      var hit := isDue == Some(true) && start <= d <= today;
      assert hit <==> d in due;
      CountStep(done, rest, due, d);
      if hit {
        counted := counted + {d};
        count := count + 1;
      }
      rest := rest - {d};
    }
    FinishCount(done, due);
  }

  lemma CountStep(done: set<int>, rest: set<int>, due: set<int>, d: int)
    requires d in rest && rest <= done
    ensures d !in (done - rest) * due
    ensures (done - (rest - {d})) * due == (done - rest) * due + (if d in due then {d} else {})
  {
  }

  lemma FinishCount(done: set<int>, due: set<int>)
    ensures (done - {}) * due == due * done
  {
  }

  /** The dashboard's status strings. */
  datatype DashboardStatus = NotDueToday | Done | InProgress | Pending {
    function Label(): string {
      match this
      case NotDueToday => "Not Due Today"
      case Done => "Completed"
      case InProgress => "In Progress"
      case Pending => "Pending"
    }
  }

  /** The `habits` and `habit_entries` tables. */
  class HabitStore {
    var habits: map<int, Habit>
    var entries: map<int, HabitEntry>

    /** Every entry belongs to a stored habit, and a habit has at most
        one entry per calendar date (the upsert rule keeps it so). */
    ghost predicate Valid()
      reads this
    {
      (forall id :: id in entries ==> entries[id].habitId in habits) &&
      (forall a, b ::
        a in entries && b in entries &&
        entries[a].habitId == entries[b].habitId && entries[a].day == entries[b].day
        ==> a == b)
    }

    constructor ()
      ensures Valid()
      ensures habits == map[] && entries == map[]
    {
      habits := map[];
      entries := map[];
    }

    /** Ids of the entries of `habitId` dated `day`. */
    function EntryIdsOn(habitId: int, day: int): (r: set<int>)
      reads this
      ensures forall id :: id in r <==>
        id in entries && entries[id].habitId == habitId && entries[id].day == day
    {
      set id | id in entries && entries[id].habitId == habitId && entries[id].day == day
    }

    /** Dates on which `habitId` has a completed entry. */
    function CompletedDays(habitId: int): (r: set<int>)
      reads this
      ensures forall d :: d in r <==>
        exists id :: id in entries && entries[id].habitId == habitId &&
          entries[id].completed && entries[id].day == d
    {
      set id | id in entries && entries[id].habitId == habitId && entries[id].completed
        :: entries[id].day
    }

    /** The distinct dates up to `today` with a completed entry. */
    function CompletedUpTo(habitId: int, today: int): (r: set<int>)
      reads this
      ensures forall d :: d in r <==> d in CompletedDays(habitId) && d <= today
    {
      set d | d in CompletedDays(habitId) && d <= today
    }

    /** `update_habit`: `None` for an unknown habit; otherwise the habit is
        replaced by `ApplyPatch` of it and nothing else changes. */
    method UpdateHabit(habitId: int, p: HabitPatch) returns (r: Option<Habit>)
      requires Valid()
      modifies this
      ensures Valid()
      ensures entries == old(entries)
      ensures habitId !in old(habits) ==> r.None? && habits == old(habits)
      ensures habitId in old(habits) ==>
        habits == old(habits)[habitId := ApplyPatch(old(habits)[habitId], p)] &&
        r == Some(habits[habitId])
    {
      if habitId in habits {
        var h := ApplyPatch(habits[habitId], p);
        habits := habits[habitId := h];
        r := Some(h);
      } else {
        r := None;
      }
    }

    /** `record_habit_entry`: an upsert on (habit, date). An existing
        entry of that date is overwritten in place; otherwise a new entry
        is added if the habit exists, and `None` (`ValueError`) is
        returned if it does not. Every other entry is unchanged. */
    method RecordEntry(habitId: int, day: int, completed: bool, value: Option<real>, notes: Option<string>)
      returns (r: Option<int>)
      requires Valid()
      modifies this
      ensures Valid()
      ensures habits == old(habits)
      ensures r.None? <==> old(EntryIdsOn(habitId, day)) == {} && habitId !in habits
      ensures r.None? ==> entries == old(entries)
      ensures r.Some? ==>
        entries == old(entries)[r.value := HabitEntry(habitId, day, completed, value, notes)] &&
        EntryIdsOn(habitId, day) == {r.value}
      ensures r.Some? && old(EntryIdsOn(habitId, day)) != {} ==>
        old(EntryIdsOn(habitId, day)) == {r.value}
      ensures r.Some? && old(EntryIdsOn(habitId, day)) == {} ==> r.value !in old(entries)
    {
      var e := HabitEntry(habitId, day, completed, value, notes);
      if exists id :: id in entries && entries[id].habitId == habitId && entries[id].day == day {
        var id :| id in entries && entries[id].habitId == habitId && entries[id].day == day;
        forall j | j in EntryIdsOn(habitId, day)
          ensures j == id
        {
          assert entries[j].habitId == entries[id].habitId && entries[j].day == entries[id].day;
        }
        assert EntryIdsOn(habitId, day) == {id};
        entries := entries[id := e];
        r := Some(id);
      } else if habitId in habits {
        var id := FreshId(entries.Keys);
        entries := entries[id := e];
        r := Some(id);
      } else {
        r := None;
      }
    }

    /** `get_dashboard_habit_status_for_display` for habit `h` stored under
        `habitId`; `None` when the rule raises. */
    method StatusForDisplay(habitId: int, h: Habit, day: int) returns (r: Option<DashboardStatus>)
      requires Valid()
      ensures r.None? <==> IsDueOn(h, day).None?
      ensures r == Some(NotDueToday) <==> IsDueOn(h, day) == Some(false)
      ensures r == Some(Done) <==> IsDueOn(h, day) == Some(true) && day in CompletedDays(habitId)
      ensures r == Some(DashboardStatus.InProgress) <==>
        IsDueOn(h, day) == Some(true) && day !in CompletedDays(habitId) &&
        EntryIdsOn(habitId, day) != {} && h.completionType != Binary
      ensures r == Some(Pending) <==>
        IsDueOn(h, day) == Some(true) && day !in CompletedDays(habitId) &&
        (EntryIdsOn(habitId, day) == {} || h.completionType == Binary)
    {
      var due := IsDueOn(h, day);
      if due.None? {
        return None;
      }
      if !due.value {
        return Some(NotDueToday);
      }
      if exists id :: id in entries && entries[id].habitId == habitId && entries[id].day == day {
        var id :| id in entries && entries[id].habitId == habitId && entries[id].day == day;
        forall j | j in EntryIdsOn(habitId, day)
          ensures j == id
        {
          assert entries[j].habitId == entries[id].habitId && entries[j].day == entries[id].day;
        }
        assert EntryIdsOn(habitId, day) == {id};
        if entries[id].completed {
          r := Some(Done);
        } else if h.completionType == Quantitative || h.completionType == Duration {
          r := Some(DashboardStatus.InProgress);
        } else {
          r := Some(Pending);
        }
      } else {
        assert EntryIdsOn(habitId, day) == {};
        r := Some(Pending);
      }
    }

    /** `get_current_streak`: the number of consecutive days ending today
        that have a completed entry. */
    method CurrentStreak(habitId: int, today: int) returns (streak: nat)
      ensures forall d :: today - streak < d <= today ==> d in CompletedDays(habitId)
      ensures today - streak !in CompletedDays(habitId)
      ensures streak <= |CompletedUpTo(habitId, today)|
    {
      var dates := CompletedUpTo(habitId, today);
      streak := 0;
      var expected := today;
      while expected in dates
        invariant expected == today - streak
        invariant forall d :: expected < d <= today ==> d in dates
        invariant streak <= |dates|
        decreases |dates| - streak
      {
        RunFits(expected, today + 1, dates);
        streak := streak + 1;
        expected := expected - 1;
      }
    }

    /** `get_completion_rate`: 0 for an unknown habit, otherwise the rate
        `RateSpec` defines. */
    method CompletionRate(habitId: int, days: int, today: int) returns (r: Option<real>)
      ensures habitId !in habits ==> r == Some(0.0)
      ensures habitId in habits ==> r == RateSpec(habits[habitId], CompletedDays(habitId), days, today)
    {
      if habitId !in habits {
        return Some(0.0);
      }
      var h := habits[habitId];
      var start := WindowStart(h, days, today);
      if start > today {
        return Some(0.0);
      }
      var dueCount := CountDueDays(h, start, today);
      if dueCount.None? {
        return None;
      }
      if dueCount.value == 0 {
        return Some(0.0);
      }
      var done := set d | d in CompletedDays(habitId) && start <= d <= today;
      var completedCount := CountCompletedDueDays(h, done, start, today);
      assert DueSet(h, start, today) * done == DueSet(h, start, today) * CompletedDays(habitId);
      r := Some(Percent(completedCount, dueCount.value));
    }

    /** `get_completion_trend`: one flag per day of the last `days` days,
        oldest first, true iff that day has a completed entry. */
    method CompletionTrend(habitId: int, days: int, today: int) returns (trend: seq<bool>)
      ensures |trend| == Max(days, 0)
      ensures forall i :: 0 <= i < |trend| ==>
        (trend[i] <==> today - (days - 1 - i) in CompletedDays(habitId))
    {
      trend := [];
      var i := days - 1;
      while i >= 0
        invariant i <= days - 1
        invariant days > 0 ==> i >= -1
        invariant days <= 0 ==> i == days - 1
        invariant |trend| == days - 1 - i
        invariant forall k :: 0 <= k < |trend| ==>
          (trend[k] <==> today - (days - 1 - k) in CompletedDays(habitId))
        decreases i
      {
        var hit := today - i in CompletedDays(habitId);
        trend := trend + [hit];
        i := i - 1;
      }
    }
  }
}
