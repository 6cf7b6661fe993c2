/** The day markers and event snippets of the calendar screen
    (src/views/calendar_view.py). The calendar's per-date text formats
    are a map from dates to a `DayFormat`; a date the map does not hold,
    or holds as `Cleared`, shows the default format. What the services
    return for the shown month is passed in. */
module CalendarView {
  import opened Wrappers
  import opened Dates
  import opened Text

  // ---------------------------------------------------------------
  // Snippets
  // ---------------------------------------------------------------

  /** `s[:limit] + '...' if len(s) > limit else s` */
  function Truncate(s: string, limit: nat): (r: string)
    ensures |s| <= limit ==> r == s
    ensures |s| > limit ==> |r| == limit + 3 && r[..limit] == s[..limit] && r[limit..] == "..."
  {
    if |s| > limit then s[..limit] + "..." else s
  }

  /** The reflection line of a check-in: cut to 50 characters plus
      "...", and empty when there is no reflection. */
  function ReflectionSnippet(reflection: Option<string>): (r: string)
    ensures reflection.None? ==> r == ""
    ensures reflection.Some? ==> r == Truncate(reflection.value, 50)
  {
    if reflection.Some? && |reflection.value| > 50 then reflection.value[..50] + "..."
    else reflection.GetOr("")
  }

  /** The text under a note: its content cut to 75 characters plus
      "...", then only the first line of that. */
  function NoteSnippet(content: string): (r: string)
    ensures r == FirstLine(Truncate(content, 75))
  {
    var snippet := if |content| > 75 then content[..75] + "..." else content;
    if snippet != "" then FirstLine(snippet) else ""
  }

  /** A note snippet is one line, at most 78 characters, and begins the
      note's own text: it is the whole first line of a short note, and
      a prefix of the first 75 characters (with "...") of a long one. */
  lemma NoteSnippetShape(content: string)
    ensures |NoteSnippet(content)| <= 78
    ensures forall i :: 0 <= i < |NoteSnippet(content)| ==> !IsLineBreak(NoteSnippet(content)[i])
    ensures |content| <= 75 ==> NoteSnippet(content) == FirstLine(content)
    ensures |content| > 75 && |NoteSnippet(content)| <= 75 ==> NoteSnippet(content) == content[..|NoteSnippet(content)|]
  {
    var r := NoteSnippet(content);
    if |content| > 75 && |r| <= 75 {
      var t := Truncate(content, 75);
      assert r == t[..|r|];
      assert t[..75] == content[..75];
      assert t[..|r|] == t[..75][..|r|];
    }
  }

  // ---------------------------------------------------------------
  // Which categories are fetched
  // ---------------------------------------------------------------

  /** `view_filter in ['All Events', category]`: "All Events" shows every
      category, any other filter only the category of its own name. */
  predicate Shows(filter: string, category: string)
    ensures filter == "All Events" ==> Shows(filter, category)
    ensures filter != "All Events" ==> (Shows(filter, category) <==> category == filter)
  {
    filter == "All Events" || filter == category
  }

  // ---------------------------------------------------------------
  // Day formats
  // ---------------------------------------------------------------

  datatype DayFormat =
    | Cleared         // the empty QTextCharFormat
    | GoalTarget      // goal_format
    | HabitLogged     // general_habit_format
    | CheckInMade     // checkin_format
    | MultipleEvents  // multiple_events_format
    | HabitCompleted  // habit_completed_format
    | HabitMissed     // habit_missed_format

  function Flag(b: bool): nat {
    if b then 1 else 0
  }

  /** The general-mode marker of one day: "multiple" for more than one
      kind of event, otherwise the one kind present, with goal before
      habit before check-in; nothing for a day without events. */
  function Classify(hasGoal: bool, hasHabit: bool, hasCheckIn: bool): (r: DayFormat)
    ensures r == MultipleEvents <==> Flag(hasGoal) + Flag(hasHabit) + Flag(hasCheckIn) > 1
    ensures r == GoalTarget <==> hasGoal && !hasHabit && !hasCheckIn
    ensures r == HabitLogged <==> hasHabit && !hasGoal && !hasCheckIn
    ensures r == CheckInMade <==> hasCheckIn && !hasGoal && !hasHabit
    ensures r == Cleared <==> !hasGoal && !hasHabit && !hasCheckIn
  {
    if Flag(hasGoal) + Flag(hasHabit) + Flag(hasCheckIn) > 1 then MultipleEvents
    else if hasGoal then GoalTarget
    else if hasHabit then HabitLogged
    else if hasCheckIn then CheckInMade
    else Cleared
  }

  /** The general-mode marker of `date` under `filter`: a category's
      dates count only when the filter shows that category. */
  function GeneralFormat(filter: string, goalDates: set<Ymd>, habitDates: set<Ymd>, checkInDates: set<Ymd>,
                         date: Ymd): (r: DayFormat)
    ensures filter == "All Events" ==>
      r == Classify(date in goalDates, date in habitDates, date in checkInDates)
    ensures r == MultipleEvents ==> filter == "All Events"
    ensures filter != "All Events" && filter != "Goals" && filter != "Habits" && filter != "Check-ins" ==>
      r == Cleared
  {
    Classify(Shows(filter, "Goals") && date in goalDates,
             Shows(filter, "Habits") && date in habitDates,
             Shows(filter, "Check-ins") && date in checkInDates)
  }

  /** With one category selected a day is marked for that category or
      not at all. */
  lemma SingleFilterMarksOneKind(goalDates: set<Ymd>, habitDates: set<Ymd>, checkInDates: set<Ymd>, date: Ymd)
    ensures GeneralFormat("Goals", goalDates, habitDates, checkInDates, date) ==
      (if date in goalDates then GoalTarget else Cleared)
    ensures GeneralFormat("Habits", goalDates, habitDates, checkInDates, date) ==
      (if date in habitDates then HabitLogged else Cleared)
    ensures GeneralFormat("Check-ins", goalDates, habitDates, checkInDates, date) ==
      (if date in checkInDates then CheckInMade else Cleared)
    ensures GeneralFormat("Notes", goalDates, habitDates, checkInDates, date) == Cleared
  {
  }

  /** A habit entry of the heatmap habit, in the order the service
      returns them (ascending date). */
  datatype HeatEntry = HeatEntry(date: Ymd, completed: bool)

  /** `{e.completion_date.date(): e for e in entries}`: every date that
      has an entry, mapped to the completion flag of its last entry. */
  function EntriesByDate(entries: seq<HeatEntry>): (r: map<Ymd, bool>)
    ensures forall d :: d in r <==> exists k :: 0 <= k < |entries| && entries[k].date == d
    ensures forall d :: d in r ==> exists k :: (0 <= k < |entries| && entries[k].date == d &&
      r[d] == entries[k].completed && forall j :: k < j < |entries| ==> entries[j].date != d)
    decreases |entries|
  {
    if |entries| == 0 then map[]
    else
      var init := entries[..|entries| - 1];
      var last := entries[|entries| - 1];
      assert entries == init + [last];
      var prev := EntriesByDate(init);
      LastEntryStep(init, last, prev);
      prev[last.date := last.completed]
  }

  /** Adding one entry at the end: its date now maps to its flag, every
      other date keeps the entry that won before. */
  lemma LastEntryStep(init: seq<HeatEntry>, last: HeatEntry, prev: map<Ymd, bool>)
    requires forall d :: d in prev <==> exists k :: 0 <= k < |init| && init[k].date == d
    requires forall d :: d in prev ==> exists k :: (0 <= k < |init| && init[k].date == d &&
      prev[d] == init[k].completed && forall j :: k < j < |init| ==> init[j].date != d)
    ensures var entries, r := init + [last], prev[last.date := last.completed];
      (forall d :: d in r <==> exists k :: 0 <= k < |entries| && entries[k].date == d) &&
      (forall d :: d in r ==> exists k :: (0 <= k < |entries| && entries[k].date == d &&
        r[d] == entries[k].completed && forall j :: k < j < |entries| ==> entries[j].date != d))
  {
    var entries, r := init + [last], prev[last.date := last.completed];
    var n := |init|;
    assert entries[n] == last;
    forall d | d in r
      ensures exists k :: (0 <= k < |entries| && entries[k].date == d &&
        r[d] == entries[k].completed && forall j :: k < j < |entries| ==> entries[j].date != d)
    {
      if d == last.date {
        assert entries[n].date == d && r[d] == entries[n].completed;
      } else {
        var k :| 0 <= k < n && init[k].date == d && prev[d] == init[k].completed &&
          forall j :: k < j < n ==> init[j].date != d;
        assert entries[k] == init[k];
        assert forall j :: k < j < |entries| ==> entries[j].date != d by {
          forall j | k < j < |entries|
            ensures entries[j].date != d
          {
            if j < n {
              assert entries[j] == init[j];
            }
          }
        }
      }
    }
    forall d | (exists k :: 0 <= k < |entries| && entries[k].date == d)
      ensures d in r
    {
      var k :| 0 <= k < |entries| && entries[k].date == d;
      if k < n {
        assert init[k] == entries[k];
      }
    }
  }

  /** The heatmap marker of `date`: completed or missed by the entry
      that wins for that date, nothing without an entry. */
  function HeatFormat(byDate: map<Ymd, bool>, date: Ymd): (r: DayFormat)
    ensures r == Cleared <==> date !in byDate
    ensures r == HabitCompleted <==> date in byDate && byDate[date]
    ensures r == HabitMissed <==> date in byDate && !byDate[date]
  {
    if date !in byDate then Cleared else if byDate[date] then HabitCompleted else HabitMissed
  }

  /** The last entry of a date decides its heatmap colour, whatever the
      earlier entries of that date say. */
  lemma LastEntryWins(entries: seq<HeatEntry>, k: int)
    requires 0 <= k < |entries|
    requires forall j :: k < j < |entries| ==> entries[j].date != entries[k].date
    ensures HeatFormat(EntriesByDate(entries), entries[k].date) ==
      if entries[k].completed then HabitCompleted else HabitMissed
  {
    var byDate := EntriesByDate(entries);
    var d := entries[k].date;
    var w :| 0 <= w < |entries| && entries[w].date == d && byDate[d] == entries[w].completed &&
      forall j :: w < j < |entries| ==> entries[j].date != d;
    assert w == k;
  }

  /** The date `day` of the shown month. */
  function DayOf(year: int, month: int, day: int): Ymd {
    Ymd(year, month, day)
  }

  predicate InMonth(d: Ymd, year: int, month: int)
    requires 1 <= month <= 12
  {
    d.year == year && d.month == month && 1 <= d.day <= DaysInMonth(year, month)
  }

  /** The formats after the per-day loop of heatmap mode: a day with an
      entry is marked completed or missed by its winning entry, a day
      without one keeps its format. */
  method MarkHeatmap(formats: map<Ymd, DayFormat>, year: int, month: int, byDate: map<Ymd, bool>)
    returns (marked: map<Ymd, DayFormat>)
    requires 1 <= month <= 12
    requires forall d :: InMonth(d, year, month) ==> d in formats && formats[d] == Cleared
    ensures forall d :: InMonth(d, year, month) ==> d in marked && marked[d] == HeatFormat(byDate, d)
    ensures forall d :: !InMonth(d, year, month) ==>
      (d in marked <==> d in formats) && (d in marked ==> marked[d] == formats[d])
  {
    marked := formats;
    for day := 1 to DaysInMonth(year, month) + 1
      invariant forall d :: InMonth(d, year, month) ==>
        d in marked && marked[d] == if d.day < day then HeatFormat(byDate, d) else Cleared
      invariant forall d :: !InMonth(d, year, month) ==>
        (d in marked <==> d in formats) && (d in marked ==> marked[d] == formats[d])
    {
      var date := DayOf(year, month, day);
      if date in byDate {
        marked := marked[date := if byDate[date] then HabitCompleted else HabitMissed];
      }
    }
  }

  /** The formats after the per-day loop of general mode over the three
      date sets that were fetched. */
  method MarkEvents(formats: map<Ymd, DayFormat>, year: int, month: int,
                    goals: set<Ymd>, habits: set<Ymd>, checkIns: set<Ymd>)
    returns (marked: map<Ymd, DayFormat>)
    requires 1 <= month <= 12
    requires forall d :: InMonth(d, year, month) ==> d in formats && formats[d] == Cleared
    ensures forall d :: InMonth(d, year, month) ==>
      d in marked && marked[d] == Classify(d in goals, d in habits, d in checkIns)
    ensures forall d :: !InMonth(d, year, month) ==>
      (d in marked <==> d in formats) && (d in marked ==> marked[d] == formats[d])
  {
    marked := formats;
    for day := 1 to DaysInMonth(year, month) + 1
      invariant forall d :: InMonth(d, year, month) ==>
        d in marked && marked[d] == if d.day < day then Classify(d in goals, d in habits, d in checkIns) else Cleared
      invariant forall d :: !InMonth(d, year, month) ==>
        (d in marked <==> d in formats) && (d in marked ==> marked[d] == formats[d])
    {
      var date := DayOf(year, month, day);
      var marker := Classify(date in goals, date in habits, date in checkIns);
      if marker != Cleared {
        marked := marked[date := marker];
      }
    }
  }

  /** The calendar widget as far as the markers go: the month shown,
      the two selectors, and the per-date formats. */
  class CalendarView {
    var year: int
    var month: int
    var filter: string
    var heatmapHabit: Option<int>
    var formats: map<Ymd, DayFormat>

    ghost predicate Valid()
      reads this
    {
      1 <= month <= 12
    }

    constructor (year: int, month: int)
      requires 1 <= month <= 12
      ensures Valid() && this.year == year && this.month == month
      ensures filter == "All Events" && heatmapHabit.None? && formats == map[]
    {
      this.year, this.month := year, month;
      filter, heatmapHabit, formats := "All Events", None, map[];
    }

    /** `_clear_calendar_formats`: each day 1 .. days-in-month of the
        shown month, in order and once each, gets the empty format;
        other dates keep theirs. */
    method ClearFormats() returns (ghost visited: seq<int>)
      requires Valid()
      modifies this
      ensures Valid() && year == old(year) && month == old(month)
      ensures filter == old(filter) && heatmapHabit == old(heatmapHabit)
      ensures visited == seq(DaysInMonth(year, month), i => i + 1)
      ensures forall d :: InMonth(d, year, month) ==> d in formats && formats[d] == Cleared
      ensures forall d :: !InMonth(d, year, month) ==>
        (d in formats <==> d in old(formats)) && (d in formats ==> formats[d] == old(formats)[d])
    {
      var n := DaysInMonth(year, month);
      var cleared := formats;
      visited := [];
      for day := 1 to n + 1
        invariant |visited| == day - 1 && forall i :: 0 <= i < |visited| ==> visited[i] == i + 1
        invariant forall d :: InMonth(d, year, month) && d.day < day ==> d in cleared && cleared[d] == Cleared
        invariant forall d :: !(InMonth(d, year, month) && d.day < day) ==>
          (d in cleared <==> d in formats) && (d in cleared ==> cleared[d] == formats[d])
      {
        cleared := cleared[DayOf(year, month, day) := Cleared];
        visited := visited + [day];
      }
      formats := cleared;
    }

    /** `_update_calendar_date_formats`. In heatmap mode `entries` is the
        service's answer for the selected habit (`None`: it raised, and
        the month stays cleared). In general mode the three date sets are
        the service's answers, fetched only for the categories the filter
        shows; `fetchFailed` is a fetch that raised, after which the
        month stays cleared. */
    method UpdateFormats(entries: Option<seq<HeatEntry>>, goalDates: set<Ymd>, habitDates: set<Ymd>,
                         checkInDates: set<Ymd>, fetchFailed: bool)
      requires Valid()
      modifies this
      ensures Valid() && year == old(year) && month == old(month)
      ensures filter == old(filter) && heatmapHabit == old(heatmapHabit)
      ensures forall d :: InMonth(d, year, month) ==> d in formats
      ensures forall d :: InMonth(d, year, month) && heatmapHabit.Some? ==>
        formats[d] == (if entries.None? then Cleared else HeatFormat(EntriesByDate(entries.value), d))
      ensures forall d :: InMonth(d, year, month) && heatmapHabit.None? ==>
        formats[d] == (if fetchFailed then Cleared else GeneralFormat(filter, goalDates, habitDates, checkInDates, d))
      ensures forall d :: !InMonth(d, year, month) ==>
        (d in formats <==> d in old(formats)) && (d in formats ==> formats[d] == old(formats)[d])
    {
      ghost var visited := ClearFormats();
      if heatmapHabit.Some? {
        if entries.None? {
          return;
        }
        formats := MarkHeatmap(formats, year, month, EntriesByDate(entries.value));
      } else {
        if fetchFailed {
          return;
        }
        var goals := if Shows(filter, "Goals") then goalDates else {};
        var checkIns := if Shows(filter, "Check-ins") then checkInDates else {};
        var habits := if Shows(filter, "Habits") then habitDates else {};
        formats := MarkEvents(formats, year, month, goals, habits, checkIns);
      }
    }
  }
}
