/** The records and enumerations of the persisted model
    (backend/app/models/enhanced_models.py). Dates are day ordinals of
    the Dates module; ids are the integer primary keys. */
module Models {
  import opened Wrappers

  /** `FrequencyType`; `Other` stands for a stored value that is none of
      the four members, which the scheduling code lets fall through. */
  datatype Frequency = Daily | Weekly | Monthly | SpecificDays | Other(raw: string)

  /** `FrequencyType.value`: the string stored for each member. */
  function FrequencyValue(f: Frequency): string {
    match f
    case Daily => "daily"
    case Weekly => "weekly"
    case Monthly => "monthly"
    case SpecificDays => "specific_days"
    case Other(raw) => raw
  }

  datatype CompletionType = Binary | Quantitative | Duration

  datatype HabitStatus = Active | Inactive

  datatype GoalStatus = NotStarted | InProgress | Completed | OnHold | Cancelled

  /** A `habits` row. `specificDays` is the comma-separated weekday string
      (`"0,2,4"`) and `createdOn` the date part of `created_at`. */
  datatype Habit = Habit(
    name: string,
    description: Option<string>,
    frequency: Frequency,
    specificDays: Option<string>,
    completionType: CompletionType,
    targetValue: Option<real>,
    unit: Option<string>,
    status: HabitStatus,
    createdOn: int)

  /** A `habit_entries` row; `day` is the date part of `completion_date`. */
  datatype HabitEntry = HabitEntry(
    habitId: int,
    day: int,
    completed: bool,
    value: Option<real>,
    notes: Option<string>)

  /** A `goals` row with its two many-to-many link sets (Values and
      supporting Habits), given by the ids of the linked rows. */
  datatype Goal = Goal(
    name: string,
    description: Option<string>,
    targetDate: Option<int>,
    status: GoalStatus,
    parentId: Option<int>,
    valueIds: set<int>,
    habitIds: set<int>)

  /** A `goal_check_ins` row with its contributing Habit links. */
  datatype CheckIn = CheckIn(
    goalId: int,
    date: int,
    reflection: Option<string>,
    progress: real,
    notes: Option<string>,
    habitIds: set<int>)

  /** A non-empty set has an element (used before each `:|` pick). */
  lemma HasElement(s: set<int>)
    requires s != {}
    ensures exists x :: x in s
  {
    if forall x :: x !in s {
      assert false;
    }
  }

  /** The primary key SQLite gives a new row of an `INTEGER PRIMARY KEY`
      table: one more than the largest key in use, or 1 for an empty
      table. */
  method FreshId(used: set<int>) returns (id: int)
    ensures id >= 1 && id !in used
    ensures forall k :: k in used ==> k < id
    ensures id == 1 || id - 1 in used
  {
    id := 1;
    var rest := used;
    while rest != {}
      invariant rest <= used
      invariant id >= 1
      invariant forall k :: k in used && k !in rest ==> k < id
      invariant id == 1 || id - 1 in used
      decreases |rest|
    {
      HasElement(rest);
      var x :| x in rest;
      if x >= id {
        id := x + 1;
      }
      rest := rest - {x};
    }
  }
}
