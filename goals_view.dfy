/** The hierarchy logic of the goals screen (src/views/goals.py): its own
    descendant search over the cached `(id, name, parent_id)` rows, the
    eligible-parent list of the edit dialog, the name check before a
    save, and where `load_goals` puts each goal in the tree. */
module GoalsView {
  import opened Wrappers
  import opened Text
  import opened Models
  import opened GoalService

  /** One cached `(id, name, parent_id)` tuple. */
  datatype GoalRow = GoalRow(id: int, name: string, parentId: Option<int>)

  function RowIds(rows: seq<GoalRow>): (r: set<int>)
    ensures forall x :: x in r <==> exists i :: 0 <= i < |rows| && rows[i].id == x
  {
    set i | 0 <= i < |rows| :: rows[i].id
  }

  lemma RowIdsAppend(rows: seq<GoalRow>, r: GoalRow)
    ensures RowIds(rows + [r]) == RowIds(rows) + {r.id}
  {
    var both := rows + [r];
    assert both[|rows|] == r;
    forall x | x in RowIds(rows)
      ensures x in RowIds(both)
    {
      var i :| 0 <= i < |rows| && rows[i].id == x;
      assert both[i] == rows[i];
    }
  }

  /** The rows list exactly the stored goals with their parents. */
  ghost predicate RowsDescribe(rows: seq<GoalRow>, goals: map<int, Goal>) {
    (forall i :: 0 <= i < |rows| ==> rows[i].id in goals && goals[rows[i].id].parentId == rows[i].parentId) &&
    (forall x :: x in goals ==> x in RowIds(rows))
  }

  // ---------------------------------------------------------------
  // Descendants over the rows
  // ---------------------------------------------------------------

  /** Following `n` child links of the rows from `from` leads to `x`. */
  ghost predicate DownReach(rows: seq<GoalRow>, from: int, x: int, n: nat)
    decreases n
  {
    if n == 0 then x == from
    else exists i :: 0 <= i < |rows| && rows[i].parentId == Some(from) && DownReach(rows, rows[i].id, x, n - 1)
  }

  ghost predicate IsProperDescendant(rows: seq<GoalRow>, g: int, x: int) {
    exists n :: n >= 1 && DownReach(rows, g, x, n)
  }

  /** Every row reachable from `g` by one or more child links. */
  ghost function ProperDescendants(rows: seq<GoalRow>, g: int): (r: set<int>)
    ensures forall x :: x in r <==> x in RowIds(rows) && IsProperDescendant(rows, g, x)
  {
    set x | x in RowIds(rows) && IsProperDescendant(rows, g, x)
  }

  lemma {:induction false} DownReachExtend(rows: seq<GoalRow>, g: int, x: int, n: nat, i: int)
    requires DownReach(rows, g, x, n)
    requires 0 <= i < |rows| && rows[i].parentId == Some(x)
    ensures DownReach(rows, g, rows[i].id, n + 1)
    decreases n
  {
    if n == 0 {
      assert DownReach(rows, rows[i].id, rows[i].id, 0);
    } else {
      var k :| 0 <= k < |rows| && rows[k].parentId == Some(g) && DownReach(rows, rows[k].id, x, n - 1);
      DownReachExtend(rows, rows[k].id, x, n - 1, i);
    }
  }

  /** The ids of the rows whose parent is `p`. */
  function ChildrenOf(rows: seq<GoalRow>, p: int): (r: set<int>)
    ensures forall x :: x in r <==> exists i :: 0 <= i < |rows| && rows[i].parentId == Some(p) && rows[i].id == x
  {
    set i | 0 <= i < |rows| && rows[i].parentId == Some(p) :: rows[i].id
  }

  lemma ChildrenAreDescendants(rows: seq<GoalRow>, g: int, cur: int, n: nat)
    requires DownReach(rows, g, cur, n)
    ensures ChildrenOf(rows, cur) <= ProperDescendants(rows, g)
  {
    forall x | x in ChildrenOf(rows, cur)
      ensures x in ProperDescendants(rows, g)
    {
      var i :| 0 <= i < |rows| && rows[i].parentId == Some(cur) && rows[i].id == x;
      DownReachExtend(rows, g, cur, n, i);
    }
  }

  lemma {:induction false} DownReachInClosedSet(rows: seq<GoalRow>, processed: set<int>, found: set<int>,
                                                p: int, x: int, n: nat)
    requires found <= processed && p in processed && n >= 1
    requires forall q :: q in processed ==> ChildrenOf(rows, q) <= found
    requires DownReach(rows, p, x, n)
    ensures x in found
    decreases n
  {
    var k :| 0 <= k < |rows| && rows[k].parentId == Some(p) && DownReach(rows, rows[k].id, x, n - 1);
    assert rows[k].id in ChildrenOf(rows, p);
    if n > 1 {
      DownReachInClosedSet(rows, processed, found, rows[k].id, x, n - 1);
    }
  }

  /** A set closed under children that holds `g` holds all of its
      descendants. */
  lemma ClosedSetHoldsDescendants(rows: seq<GoalRow>, g: int, processed: set<int>, found: set<int>)
    requires found <= processed && g in processed
    requires forall q :: q in processed ==> ChildrenOf(rows, q) <= found
    ensures ProperDescendants(rows, g) <= found
  {
    forall x | x in ProperDescendants(rows, g)
      ensures x in found
    {
      var n: nat :| n >= 1 && DownReach(rows, g, x, n);
      DownReachInClosedSet(rows, processed, found, g, x, n);
    }
  }

  lemma VisitShrinks(universe: set<int>, processed: set<int>, cur: int)
    requires cur in universe && cur !in processed
    ensures |universe - (processed + {cur})| < |universe - processed|
  {
    assert universe - processed == (universe - (processed + {cur})) + {cur};
  }

  lemma VisitKeepsClosed(rows: seq<GoalRow>, processed: set<int>, found: set<int>, cur: int)
    requires forall q :: q in processed ==> ChildrenOf(rows, q) <= found
    ensures forall q :: q in processed + {cur} ==> ChildrenOf(rows, q) <= found + ChildrenOf(rows, cur)
  {
  }

  /** The inner scan over the rows: every child of `cur` not yet found
      is added to both sets. */
  method CollectChildren(rows: seq<GoalRow>, cur: int, found: set<int>, pending: set<int>)
    returns (found': set<int>, pending': set<int>)
    ensures found' == found + ChildrenOf(rows, cur)
    ensures pending' == pending + (ChildrenOf(rows, cur) - found)
  {
    found', pending' := found, pending;
    for i := 0 to |rows|
      invariant found' == found + ChildrenOf(rows[..i], cur)
      invariant pending' == pending + (ChildrenOf(rows[..i], cur) - found)
    {
      assert rows[..i + 1] == rows[..i] + [rows[i]];
      assert ChildrenOf(rows[..i + 1], cur) ==
        ChildrenOf(rows[..i], cur) + (if rows[i].parentId == Some(cur) then {rows[i].id} else {});
      if rows[i].parentId == Some(cur) && rows[i].id !in found' {
        found' := found' + {rows[i].id};
        pending' := pending' + {rows[i].id};
      }
    }
    assert rows[..|rows|] == rows;
  }

  /** What the search keeps true: everything found is a descendant,
      everything pending or processed is found or the start, whatever
      was found is processed or pending, and the children of every
      processed goal are found. */
  ghost predicate SearchInv(rows: seq<GoalRow>, g: int, found: set<int>, pending: set<int>, processed: set<int>) {
    found <= ProperDescendants(rows, g) &&
    pending <= found + {g} && processed <= found + {g} &&
    found <= processed + pending &&
    g in processed + pending &&
    forall q :: q in processed ==> ChildrenOf(rows, q) <= found
  }

  /** The search starts with only the start goal pending. */
  lemma SearchStarts(rows: seq<GoalRow>, g: int)
    ensures SearchInv(rows, g, {}, {g}, {})
  {
  }

  /** Dropping a goal already processed keeps the search invariant. */
  lemma SkipStep(rows: seq<GoalRow>, g: int, found: set<int>, pending: set<int>, processed: set<int>, cur: int)
    requires SearchInv(rows, g, found, pending, processed)
    requires cur in pending && cur in processed
    ensures SearchInv(rows, g, found, pending - {cur}, processed)
  {
  }

  /** Processing a goal not yet processed keeps the search invariant and
      shrinks the set of goals left to process. */
  lemma VisitStep(rows: seq<GoalRow>, g: int, found: set<int>, pending: set<int>, processed: set<int>, cur: int)
    requires SearchInv(rows, g, found, pending, processed)
    requires cur in pending && cur !in processed
    ensures SearchInv(rows, g, found + ChildrenOf(rows, cur), (pending - {cur}) + (ChildrenOf(rows, cur) - found),
      processed + {cur})
    ensures |(RowIds(rows) + {g}) - (processed + {cur})| < |(RowIds(rows) + {g}) - processed|
  {
    var reachCur: nat := 0;
    if cur != g {
      reachCur :| reachCur >= 1 && DownReach(rows, g, cur, reachCur);
    }
    ChildrenAreDescendants(rows, g, cur, reachCur);
    VisitKeepsClosed(rows, processed, found, cur);
    VisitShrinks(RowIds(rows) + {g}, processed, cur);
  }

  /** `GoalsView._get_all_descendant_ids`: the rows reachable from
      `goalId` by child links. The processed set makes it end on any
      data, cycles included. */
  method ViewDescendantIds(goalId: int, rows: seq<GoalRow>) returns (descendants: set<int>)
    ensures descendants == ProperDescendants(rows, goalId)
  {
    descendants := {};
    var toProcess := {goalId};
    var processed: set<int> := {};
    SearchStarts(rows, goalId);
    while toProcess != {}
      invariant SearchInv(rows, goalId, descendants, toProcess, processed)
      decreases |(RowIds(rows) + {goalId}) - processed|, |toProcess|
    {
      descendants, toProcess, processed := ProcessOne(rows, goalId, descendants, toProcess, processed);
    }
    ClosedSetHoldsDescendants(rows, goalId, processed, descendants);
  }

  /** One turn of the search loop: pop a pending goal; skip it when it
      was processed already, otherwise mark it processed and collect its
      children. Either more goals are processed or fewer are pending. */
  method ProcessOne(rows: seq<GoalRow>, g: int, found: set<int>, pending: set<int>, processed: set<int>)
    returns (found': set<int>, pending': set<int>, processed': set<int>)
    requires SearchInv(rows, g, found, pending, processed) && pending != {}
    ensures SearchInv(rows, g, found', pending', processed')
    ensures |(RowIds(rows) + {g}) - processed'| < |(RowIds(rows) + {g}) - processed| ||
      (processed' == processed && |pending'| < |pending|)
  {
    HasElement(pending);
    var cur :| cur in pending;
    if cur in processed {
      SkipStep(rows, g, found, pending, processed, cur);
      found', pending', processed' := found, pending - {cur}, processed;
    } else {
      VisitStep(rows, g, found, pending, processed, cur);
      processed' := processed + {cur};
      found', pending' := CollectChildren(rows, cur, found, pending - {cur});
    }
  }

  /** The last step of an upward path. */
  lemma {:induction false} ReachLastStep(goals: map<int, Goal>, x: int, g: int, n: nat)
    requires n >= 1 && Reach(goals, x, g, n)
    ensures exists c :: Reach(goals, x, c, n - 1) && ChildOf(goals, c, g)
    decreases n
  {
    if n == 1 {
      assert ChildOf(goals, x, g) && Reach(goals, x, x, 0);
    } else {
      var q := goals[x].parentId.value;
      ReachLastStep(goals, q, g, n - 1);
      var c :| Reach(goals, q, c, n - 2) && ChildOf(goals, c, g);
      assert Reach(goals, x, c, n - 1);
    }
  }

  /** Over rows that describe the goals, a downward path is an upward
      path read backwards. */
  lemma {:induction false} DownReachIffReach(rows: seq<GoalRow>, goals: map<int, Goal>, g: int, x: int, n: nat)
    requires RowsDescribe(rows, goals)
    ensures DownReach(rows, g, x, n) <==> Reach(goals, x, g, n)
    decreases n
  {
    if n > 0 {
      if DownReach(rows, g, x, n) {
        var i :| 0 <= i < |rows| && rows[i].parentId == Some(g) && DownReach(rows, rows[i].id, x, n - 1);
        DownReachIffReach(rows, goals, rows[i].id, x, n - 1);
        assert Reach(goals, rows[i].id, g, 1);
        ReachTrans(goals, x, rows[i].id, g, n - 1, 1);
      }
      if Reach(goals, x, g, n) {
        ReachLastStep(goals, x, g, n);
        var c :| Reach(goals, x, c, n - 1) && ChildOf(goals, c, g);
        var i :| 0 <= i < |rows| && rows[i].id == c;
        DownReachIffReach(rows, goals, c, x, n - 1);
      }
    }
  }

  /** The view's descendants plus the goal itself are the service's
      closure; on an acyclic hierarchy the goal is not among its own
      descendants. */
  lemma ViewDescendantsMatchClosure(rows: seq<GoalRow>, goals: map<int, Goal>, g: int)
    requires RowsDescribe(rows, goals)
    ensures ProperDescendants(rows, g) + {g} == Closure(goals, g)
    ensures Acyclic(goals) ==> g !in ProperDescendants(rows, g)
  {
    forall x | x in ProperDescendants(rows, g)
      ensures x in Closure(goals, g)
    {
      var n: nat :| n >= 1 && DownReach(rows, g, x, n);
      DownReachIffReach(rows, goals, g, x, n);
    }
    forall x | x in Closure(goals, g) && x != g
      ensures x in ProperDescendants(rows, g)
    {
      var n: nat :| Reach(goals, x, g, n);
      DownReachIffReach(rows, goals, g, x, n);
      assert x in goals;
    }
    assert Reach(goals, g, g, 0);
    if Acyclic(goals) && g in ProperDescendants(rows, g) {
      var n: nat :| n >= 1 && DownReach(rows, g, g, n);
      DownReachIffReach(rows, goals, g, g, n);
      assert false;
    }
  }

  // ---------------------------------------------------------------
  // Eligible parents
  // ---------------------------------------------------------------

  /** `[(gid, name, pid) for ... if gid not in excluded]`, order kept. */
  function Eligible(rows: seq<GoalRow>, excluded: set<int>): (r: seq<GoalRow>)
    ensures |r| <= |rows|
    ensures forall x :: x in r <==> x in rows && x.id !in excluded
  {
    if |rows| == 0 then []
    else (if rows[0].id in excluded then [] else [rows[0]]) + Eligible(rows[1..], excluded)
  }

  /** The parent choices the edit dialog offers for goal `g`. */
  ghost function EligibleParents(rows: seq<GoalRow>, g: int): seq<GoalRow> {
    Eligible(rows, ProperDescendants(rows, g) + {g})
  }

  /** A parent picked from the eligible list (or "No Parent") keeps an
      acyclic hierarchy acyclic. */
  lemma EligibleParentKeepsAcyclic(rows: seq<GoalRow>, goals: map<int, Goal>, g: int, ng: Goal)
    requires RowsDescribe(rows, goals) && Acyclic(goals) && g in goals
    requires ng.parentId.None? || exists r :: r in EligibleParents(rows, g) && r.id == ng.parentId.value
    ensures Acyclic(Reparent(goals, g, ng))
  {
    ViewDescendantsMatchClosure(rows, goals, g);
    ReparentOutsideClosureKeepsAcyclic(goals, g, ng);
  }

  // ---------------------------------------------------------------
  // Saving from the dialog
  // ---------------------------------------------------------------

  /** `goal_data['name'].strip()` is non-empty: a name is refused exactly
      when it is empty or only whitespace. */
  predicate NameAccepted(name: string)
    ensures NameAccepted(name) <==> exists i :: 0 <= i < |name| && !IsSpace(name[i])
  {
    StripEmptyIffBlank(name);
    Strip(name) != ""
  }

  /** What the goal dialog hands back. */
  datatype GoalForm = GoalForm(
    name: string,
    description: string,
    targetDate: int,
    status: GoalStatus,
    parentId: Option<int>,
    valueIds: seq<int>,
    habitIds: seq<int>)

  /** The add path of `show_add_goal_dialog`: a blank name is refused
      before the service is called. */
  method SubmitNewGoal(store: GoalStore, form: GoalForm) returns (created: Option<int>)
    requires store.Valid()
    modifies store
    ensures store.Valid()
    ensures created.None? <==> !NameAccepted(form.name)
    ensures created.None? ==> store.goals == old(store.goals)
    ensures store.checkIns == old(store.checkIns)
    ensures created.Some? ==> (created.value !in old(store.goals) &&
      store.goals == old(store.goals)[created.value := Goal(form.name, Some(form.description),
        Some(form.targetDate), form.status, form.parentId,
        Linkable(form.valueIds, store.valueRows), Linkable(form.habitIds, store.habitRows))])
  {
    if !NameAccepted(form.name) {
      return None;
    }
    var id := store.CreateGoal(form.name, Some(form.description), Some(form.targetDate), form.status,
      form.parentId, form.valueIds, form.habitIds);
    created := Some(id);
  }

  /** The edit path of `edit_selected_goal`: a blank name is refused;
      otherwise the goal is updated. When the rows describe the stored
      goals and the parent came from the eligible list, an acyclic
      hierarchy stays acyclic. */
  method SubmitEdit(store: GoalStore, goalId: int, form: GoalForm, rows: seq<GoalRow>) returns (saved: bool)
    requires store.Valid()
    modifies store
    ensures store.Valid()
    ensures store.checkIns == old(store.checkIns)
    ensures saved <==> NameAccepted(form.name) && goalId in old(store.goals)
    ensures !saved ==> store.goals == old(store.goals)
    ensures saved ==> store.goals == old(store.goals)[goalId := Goal(form.name, Some(form.description),
      Some(form.targetDate), form.status, form.parentId,
      Linkable(form.valueIds, store.valueRows), Linkable(form.habitIds, store.habitRows))]
    ensures Acyclic(old(store.goals)) && RowsDescribe(rows, old(store.goals)) &&
      (form.parentId.None? || exists r :: r in EligibleParents(rows, goalId) && r.id == form.parentId.value)
      ==> Acyclic(store.goals)
  {
    if !NameAccepted(form.name) {
      return false;
    }
    ghost var before := store.goals;
    var updated := store.UpdateGoal(goalId, form.name, Some(form.description), Some(form.targetDate),
      form.status, form.parentId, form.valueIds, form.habitIds);
    saved := updated.Some?;
    if saved && Acyclic(before) && RowsDescribe(rows, before) &&
      (form.parentId.None? || exists r :: r in EligibleParents(rows, goalId) && r.id == form.parentId.value)
    {
      EligibleParentKeepsAcyclic(rows, before, goalId, store.goals[goalId]);
      assert store.goals == Reparent(before, goalId, store.goals[goalId]);
    }
  }

  // ---------------------------------------------------------------
  // Tree placement in load_goals
  // ---------------------------------------------------------------

  /** The sort key `(parent_id is not None, name)`: parentless goals
      first, then by name. */
  predicate KeyLess(a: GoalRow, b: GoalRow) {
    (a.parentId.None? && b.parentId.Some?) ||
    (a.parentId.Some? == b.parentId.Some? && StrLess(a.name, b.name))
  }

  lemma KeyLessIrreflexive(a: GoalRow)
    ensures !KeyLess(a, a)
  {
    StrLessIrreflexive(a.name);
  }

  /** `KeyLess` is a strict weak order: if `a < c` then `a < b` or `b < c`. */
  lemma KeyLessSplit(a: GoalRow, b: GoalRow, c: GoalRow)
    requires KeyLess(a, c)
    ensures KeyLess(a, b) || KeyLess(b, c)
  {
    if a.parentId.Some? == c.parentId.Some? && b.parentId.Some? == a.parentId.Some? {
      StrLessTotal(a.name, b.name);
      if StrLess(b.name, a.name) {
        StrLessTransitive(b.name, a.name, c.name);
      }
    }
  }

  lemma KeyLessAsymmetric(a: GoalRow, b: GoalRow)
    requires KeyLess(a, b)
    ensures !KeyLess(b, a)
  {
    if a.parentId.Some? == b.parentId.Some? && StrLess(b.name, a.name) {
      StrLessTransitive(a.name, b.name, a.name);
      StrLessIrreflexive(a.name);
    }
  }

  predicate SortedByKey(s: seq<GoalRow>) {
    forall i, j :: 0 <= i < j < |s| ==> !KeyLess(s[j], s[i])
  }

  function InsertByKey(x: GoalRow, s: seq<GoalRow>): (r: seq<GoalRow>)
    requires SortedByKey(s)
    ensures SortedByKey(r)
    ensures multiset(r) == multiset(s) + multiset{x}
    ensures forall i :: 0 <= i < |r| ==> r[i] == x || r[i] in s
    decreases |s|
  {
    if |s| == 0 then [x]
    else if !KeyLess(s[0], x) then
      assert forall j :: 0 <= j < |s| ==> !KeyLess(s[j], x) by {
        forall j | 0 <= j < |s| && KeyLess(s[j], x)
          ensures false
        {
          KeyLessSplit(s[j], s[0], x);
        }
      }
      [x] + s
    else
      var rest := InsertByKey(x, s[1..]);
      KeyLessAsymmetric(s[0], x);
      assert s == [s[0]] + s[1..];
      assert forall i :: 0 <= i < |rest| ==> !KeyLess(rest[i], s[0]);
      [s[0]] + rest
  }

  /** `sorted(goals, key=lambda g: (g.parent_id is not None, g.name))`. */
  function SortRows(rows: seq<GoalRow>): (r: seq<GoalRow>)
    ensures SortedByKey(r)
    ensures multiset(r) == multiset(rows)
    decreases |rows|
  {
    if |rows| == 0 then []
    else
      assert rows == [rows[0]] + rows[1..];
      InsertByKey(rows[0], SortRows(rows[1..]))
  }

  /** Where a goal's tree item goes. */
  datatype Placement = TopLevel | Under(parent: int)

  /** The placement rule of `load_goals` for the `i`-th sorted goal: under
      its parent when the parent id is non-zero and that goal was placed
      before it, at top level otherwise. A tree edge thus always points to
      the goal's own parent, placed earlier, so the tree has no cycle. */
  function PlaceAsWritten(order: seq<GoalRow>, i: int): (r: Placement)
    requires 0 <= i < |order|
    ensures r.Under? <==>
      (order[i].parentId.Some? && order[i].parentId.value != 0 &&
       exists j :: 0 <= j < i && order[j].id == order[i].parentId.value)
    ensures r.Under? ==> order[i].parentId == Some(r.parent)
  {
    var p := order[i].parentId;
    assert forall j :: 0 <= j < i ==> order[..i][j] == order[j];
    if p.Some? && p.value != 0 && p.value in RowIds(order[..i]) then Under(p.value) else TopLevel
  }

  /** The placement the loop is meant to produce: under the parent
      whenever the parent is among the loaded goals. */
  function PlaceIntended(order: seq<GoalRow>, i: int): Placement
    requires 0 <= i < |order|
  {
    var p := order[i].parentId;
    if p.Some? && p.value != 0 && p.value in RowIds(order) then Under(p.value) else TopLevel
  }

  /** `load_goals`: sort the goals, then give each exactly one tree item,
      placed by the rule `PlaceAsWritten`. */
  method LoadGoals(rows: seq<GoalRow>) returns (order: seq<GoalRow>, placement: seq<Placement>)
    ensures SortedByKey(order) && multiset(order) == multiset(rows)
    ensures |placement| == |order|
    ensures forall i :: 0 <= i < |order| ==> placement[i] == PlaceAsWritten(order, i)
  {
    order := SortRows(rows);
    placement := PlaceInOneScan(order);
  }

  /** The loop of `load_goals`: one pass, looking the parent up among
      the goals already placed. */
  method PlaceInOneScan(order: seq<GoalRow>) returns (placement: seq<Placement>)
    ensures |placement| == |order|
    ensures forall i :: 0 <= i < |order| ==> placement[i] == PlaceAsWritten(order, i)
  {
    placement := [];
    var placed: set<int> := {};
    for i := 0 to |order|
      invariant |placement| == i
      invariant placed == RowIds(order[..i])
      invariant forall k :: 0 <= k < i ==> placement[k] == PlaceAsWritten(order, k)
    {
      var p := order[i].parentId;
      var where := if p.Some? && p.value != 0 && p.value in placed then Under(p.value) else TopLevel;
      placement := placement + [where];
      assert order[..i + 1] == order[..i] + [order[i]];
      RowIdsAppend(order[..i], order[i]);
      placed := placed + {order[i].id};
    }
  }

  /** With parentless goals first, a two-level hierarchy (every loaded
      parent is itself parentless) is placed as intended. */
  lemma TwoLevelPlacedAsIntended(rows: seq<GoalRow>, i: int)
    requires 0 <= i < |SortRows(rows)|
    requires forall a, b :: 0 <= a < |rows| && 0 <= b < |rows| && rows[a].parentId == Some(rows[b].id) ==>
      rows[b].parentId.None?
    ensures PlaceAsWritten(SortRows(rows), i) == PlaceIntended(SortRows(rows), i)
  {
    var order := SortRows(rows);
    var p := order[i].parentId;
    if p.Some? && p.value != 0 && p.value in RowIds(order) {
      var j :| 0 <= j < |order| && order[j].id == p.value;
      assert order[i] in multiset(rows) && order[j] in multiset(rows);
      var a :| 0 <= a < |rows| && rows[a] == order[i];
      var b :| 0 <= b < |rows| && rows[b] == order[j];
      assert order[j].parentId.None?;
      assert KeyLess(order[j], order[i]);
      assert j < i;
      assert order[..i][j] == order[j];
    }
  }

  /** The grandchild that names before its parent: Root (no parent), B
      (child of Root) and A (child of B) sort as Root, A, B, so A is
      placed at top level although its parent B is loaded. */
  lemma GrandchildSortedBeforeParentIsMisplaced(root: GoalRow, b: GoalRow, a: GoalRow)
    requires root == GoalRow(1, "Root", None) && b == GoalRow(2, "B", Some(1)) && a == GoalRow(3, "A", Some(2))
    ensures SortRows([root, b, a])[1] == a
    ensures PlaceAsWritten(SortRows([root, b, a]), 1) == TopLevel
    ensures PlaceIntended(SortRows([root, b, a]), 1) == Under(2)
  {
    ExampleSorted(root, b, a);
    var order := [root, a, b];
    assert order[..1] == [root];
    assert 2 !in RowIds(order[..1]);
    assert order[2].id == 2;
  }

  lemma ExampleSorted(root: GoalRow, b: GoalRow, a: GoalRow)
    requires root == GoalRow(1, "Root", None) && b == GoalRow(2, "B", Some(1)) && a == GoalRow(3, "A", Some(2))
    ensures SortRows([root, b, a]) == [root, a, b]
  {
    var rows := [root, b, a];
    ExampleTailSorted(b, a);
    assert rows[1..] == [b, a];
    assert KeyLess(root, a);
    assert SortRows(rows) == InsertByKey(root, [a, b]);
  }

  lemma ExampleTailSorted(b: GoalRow, a: GoalRow)
    requires b == GoalRow(2, "B", Some(1)) && a == GoalRow(3, "A", Some(2))
    ensures SortRows([b, a]) == [a, b]
  {
    assert StrLess("A", "B");
    assert [b, a][1..] == [a];
    assert SortRows([a]) == [a];
    assert KeyLess(a, b);
    assert SortRows([b, a]) == InsertByKey(b, [a]);
  }

  /** `load_goals` with the placement as intended: every goal is first
      registered, then placed under its parent whenever the parent is
      loaded. */
  method LoadGoalsParentsFirst(rows: seq<GoalRow>) returns (order: seq<GoalRow>, placement: seq<Placement>)
    ensures SortedByKey(order) && multiset(order) == multiset(rows)
    ensures |placement| == |order|
    ensures forall i :: 0 <= i < |order| ==>
      (placement[i].Under? <==> (order[i].parentId.Some? && order[i].parentId.value != 0 &&
        exists j :: 0 <= j < |order| && order[j].id == order[i].parentId.value))
    ensures forall i :: 0 <= i < |order| && placement[i].Under? ==>
      order[i].parentId == Some(placement[i].parent)
  {
    order := SortRows(rows);
    placement := PlaceAfterRegistering(order);
    forall i | 0 <= i < |order|
      ensures placement[i].Under? <==> (order[i].parentId.Some? && order[i].parentId.value != 0 &&
        exists j :: 0 <= j < |order| && order[j].id == order[i].parentId.value)
      ensures placement[i].Under? ==> order[i].parentId == Some(placement[i].parent)
    {
      PlaceIntendedUnderParent(order, i);
    }
  }

  /** The intended loop: register every goal, then place each under its
      parent when the parent id is non-zero and registered. */
  method PlaceAfterRegistering(order: seq<GoalRow>) returns (placement: seq<Placement>)
    ensures |placement| == |order|
    ensures forall k :: 0 <= k < |order| ==> placement[k] == PlaceIntended(order, k)
  {
    var loaded := RegisterAll(order);
    placement := [];
    for i := 0 to |order|
      invariant |placement| == i
      invariant forall k :: 0 <= k < i ==> placement[k] == PlaceIntended(order, k)
    {
      var p := order[i].parentId;
      placement := placement + [if p.Some? && p.value != 0 && p.value in loaded then Under(p.value) else TopLevel];
    }
  }

  /** The first pass of the intended loading: every goal is registered
      before any is placed. */
  method RegisterAll(order: seq<GoalRow>) returns (loaded: set<int>)
    ensures loaded == RowIds(order)
  {
    loaded := {};
    for i := 0 to |order|
      invariant loaded == RowIds(order[..i])
    {
      assert order[..i + 1] == order[..i] + [order[i]];
      RowIdsAppend(order[..i], order[i]);
      loaded := loaded + {order[i].id};
    }
    assert order[..|order|] == order;
  }

  /** The intended placement puts a goal under its own parent exactly
      when the parent id is non-zero and names a loaded goal. */
  lemma PlaceIntendedUnderParent(order: seq<GoalRow>, i: int)
    requires 0 <= i < |order|
    ensures PlaceIntended(order, i).Under? <==> (order[i].parentId.Some? && order[i].parentId.value != 0 &&
      exists j :: 0 <= j < |order| && order[j].id == order[i].parentId.value)
    ensures PlaceIntended(order, i).Under? ==> order[i].parentId == Some(PlaceIntended(order, i).parent)
  {
  }
}
