/** The goal hierarchy and its check-ins (src/services/goal_service.py).
    Goals form one table with a nullable parent id; the store object
    stands for the database and each method for one session, committed
    as a whole or not at all. Dates are day ordinals. */
module GoalService {
  import opened Wrappers
  import opened Models

  // ---------------------------------------------------------------
  // Hierarchy
  // ---------------------------------------------------------------

  /** Following `n` parent links from `x` leads to `y`. */
  ghost predicate Reach(goals: map<int, Goal>, x: int, y: int, n: nat)
    decreases n
  {
    if n == 0 then x == y
    else x in goals && goals[x].parentId.Some? && Reach(goals, goals[x].parentId.value, y, n - 1)
  }

  /** `x` is `g` or one of its descendants. */
  ghost predicate InClosure(goals: map<int, Goal>, x: int, g: int) {
    exists n :: Reach(goals, x, g, n)
  }

  /** `g` together with every goal whose parent chain reaches `g`. */
  ghost function Closure(goals: map<int, Goal>, g: int): (r: set<int>)
    ensures forall x :: x in r <==> InClosure(goals, x, g)
  {
    var r := set x | x in goals.Keys + {g} && InClosure(goals, x, g);
    assert forall x :: InClosure(goals, x, g) ==> x in goals.Keys + {g} by {
      forall x | InClosure(goals, x, g)
        ensures x in goals.Keys + {g}
      {
        var n: nat :| Reach(goals, x, g, n);
      }
    }
    r
  }

  /** No goal is its own ancestor. */
  ghost predicate Acyclic(goals: map<int, Goal>) {
    forall x, n :: n >= 1 ==> !Reach(goals, x, x, n)
  }

  /** `x` is a direct child of `p`. */
  predicate ChildOf(goals: map<int, Goal>, x: int, p: int) {
    x in goals && goals[x].parentId == Some(p)
  }

  lemma {:induction false} ReachTrans(goals: map<int, Goal>, a: int, b: int, c: int, i: nat, j: nat)
    requires Reach(goals, a, b, i) && Reach(goals, b, c, j)
    ensures Reach(goals, a, c, i + j)
    decreases i
  {
    if i > 0 {
      ReachTrans(goals, goals[a].parentId.value, b, c, i - 1, j);
    }
  }

  /** A child of a member of the closure is a member. */
  lemma ChildInClosure(goals: map<int, Goal>, x: int, g: int)
    requires x in goals && goals[x].parentId.Some? && InClosure(goals, goals[x].parentId.value, g)
    ensures InClosure(goals, x, g)
  {
    var n: nat :| Reach(goals, goals[x].parentId.value, g, n);
    assert Reach(goals, x, g, n + 1);
  }

  /** A set that holds `g` and every child of its members holds the
      whole closure of `g`. */
  lemma ClosedSetContainsClosure(goals: map<int, Goal>, s: set<int>, g: int)
    requires g in s
    requires forall c :: c in goals && goals[c].parentId.Some? && goals[c].parentId.value in s ==> c in s
    ensures Closure(goals, g) <= s
  {
    forall x | x in Closure(goals, g)
      ensures x in s
    {
      var n: nat :| Reach(goals, x, g, n);
      ReachInClosedSet(goals, s, g, x, n);
    }
  }

  lemma {:induction false} ReachInClosedSet(goals: map<int, Goal>, s: set<int>, g: int, x: int, n: nat)
    requires g in s
    requires forall c :: c in goals && goals[c].parentId.Some? && goals[c].parentId.value in s ==> c in s
    requires Reach(goals, x, g, n)
    ensures x in s
    decreases n
  {
    if n > 0 {
      ReachInClosedSet(goals, s, g, goals[x].parentId.value, n - 1);
    }
  }

  /** The goal map after goal `g` is overwritten by `ng`. */
  function Reparent(goals: map<int, Goal>, g: int, ng: Goal): (r: map<int, Goal>)
    requires g in goals
    ensures r.Keys == goals.Keys
    ensures r[g] == ng
    ensures forall x :: x in goals && x != g ==> r[x] == goals[x]
  {
    goals[g := ng]
  }

  /** A path of the re-parented map either is a path of the old map, or
      reaches `g` along old links and then continues from the new
      parent. */
  lemma {:induction false} ReparentedPath(goals: map<int, Goal>, g: int, ng: Goal, x: int, y: int, n: nat)
    requires g in goals
    requires Reach(Reparent(goals, g, ng), x, y, n)
    ensures Reach(goals, x, y, n) ||
      (ng.parentId.Some? && exists k :: (0 <= k < n && Reach(goals, x, g, k) &&
        Reach(Reparent(goals, g, ng), ng.parentId.value, y, n - k - 1)))
    decreases n
  {
    var m := Reparent(goals, g, ng);
    if n > 0 {
      if x == g {
        assert m[g] == ng && ng.parentId.Some?;
        var k: nat := 0;
        assert Reach(goals, x, g, k) && Reach(m, ng.parentId.value, y, n - k - 1);
        assert exists k :: (0 <= k < n && Reach(goals, x, g, k) && Reach(m, ng.parentId.value, y, n - k - 1));
      } else {
        var q := goals[x].parentId.value;
        ReparentedPath(goals, g, ng, q, y, n - 1);
        if !Reach(goals, q, y, n - 1) {
          var k: nat :| 0 <= k < n - 1 && Reach(goals, q, g, k) && Reach(m, ng.parentId.value, y, n - 1 - k - 1);
          var k1: nat := k + 1;
          assert Reach(goals, x, g, k1) && Reach(m, ng.parentId.value, y, n - k1 - 1);
          assert exists k :: (0 <= k < n && Reach(goals, x, g, k) && Reach(m, ng.parentId.value, y, n - k - 1));
        }
      }
    }
  }

  /** An old path to `g` gives a path to `g` in the re-parented map (cut
      at the first visit of `g`). */
  lemma {:induction false} PathToTargetSurvives(goals: map<int, Goal>, g: int, ng: Goal, x: int, k: nat)
    requires g in goals
    requires Reach(goals, x, g, k)
    ensures exists j :: 0 <= j <= k && Reach(Reparent(goals, g, ng), x, g, j)
    decreases k
  {
    var m := Reparent(goals, g, ng);
    if x == g {
      assert Reach(m, x, g, 0);
    } else {
      var q := goals[x].parentId.value;
      PathToTargetSurvives(goals, g, ng, q, k - 1);
      var j: nat :| 0 <= j <= k - 1 && Reach(m, q, g, j);
      assert Reach(m, x, g, j + 1);
    }
  }

  /** A path to `g` in the re-parented map gives one in the old map. */
  lemma {:induction false} PathToTargetExisted(goals: map<int, Goal>, g: int, ng: Goal, x: int, k: nat)
    requires g in goals
    requires Reach(Reparent(goals, g, ng), x, g, k)
    ensures InClosure(goals, x, g)
    decreases k
  {
    if x == g {
      assert Reach(goals, x, g, 0);
    } else {
      var q := goals[x].parentId.value;
      PathToTargetExisted(goals, g, ng, q, k - 1);
      ChildInClosure(goals, x, g);
    }
  }

  /** Overwriting goal `g` with a record whose parent lies outside `g`'s
      own closure (or is none) keeps the hierarchy free of cycles. */
  lemma ReparentOutsideClosureKeepsAcyclic(goals: map<int, Goal>, g: int, ng: Goal)
    requires Acyclic(goals) && g in goals
    requires ng.parentId.None? || ng.parentId.value !in Closure(goals, g)
    ensures Acyclic(Reparent(goals, g, ng))
  {
    var m := Reparent(goals, g, ng);
    forall x, n | n >= 1
      ensures !Reach(m, x, x, n)
    {
      if Reach(m, x, x, n) {
        ReparentedPath(goals, g, ng, x, x, n);
        if !Reach(goals, x, x, n) {
          var k: nat :| 0 <= k < n && Reach(goals, x, g, k) && Reach(m, ng.parentId.value, x, n - k - 1);
          PathToTargetSurvives(goals, g, ng, x, k);
          var j: nat :| 0 <= j <= k && Reach(m, x, g, j);
          ReachTrans(m, ng.parentId.value, x, g, n - k - 1, j);
          PathToTargetExisted(goals, g, ng, ng.parentId.value, n - k - 1 + j);
          assert false;
        }
      }
    }
  }

  /** The goals left after deleting `ids`. */
  function WithoutGoals(goals: map<int, Goal>, ids: set<int>): (r: map<int, Goal>)
    ensures forall x :: x in r <==> x in goals && x !in ids
    ensures forall x :: x in r ==> r[x] == goals[x]
  {
    map x | x in goals && x !in ids :: goals[x]
  }

  /** The check-ins left after deleting those of the goals `ids`. */
  function WithoutCheckInsOf(checkIns: map<int, CheckIn>, ids: set<int>): (r: map<int, CheckIn>)
    ensures forall c :: c in r <==> c in checkIns && checkIns[c].goalId !in ids
    ensures forall c :: c in r ==> r[c] == checkIns[c]
  {
    map c | c in checkIns && checkIns[c].goalId !in ids :: checkIns[c]
  }

  /** Deleting a closure leaves no goal whose parent was deleted. */
  lemma DeleteLeavesNoOrphans(goals: map<int, Goal>, g: int)
    ensures forall x :: x in WithoutGoals(goals, Closure(goals, g)) && goals[x].parentId.Some? ==>
      goals[x].parentId.value !in Closure(goals, g)
  {
    forall x | x in WithoutGoals(goals, Closure(goals, g)) && goals[x].parentId.Some?
      ensures goals[x].parentId.value !in Closure(goals, g)
    {
      if goals[x].parentId.value in Closure(goals, g) {
        ChildInClosure(goals, x, g);
        assert false;
      }
    }
  }

  /** Deleting a closure from an acyclic hierarchy leaves it acyclic. */
  lemma {:induction false} DeleteKeepsAcyclic(goals: map<int, Goal>, ids: set<int>)
    requires Acyclic(goals)
    ensures Acyclic(WithoutGoals(goals, ids))
  {
    var m := WithoutGoals(goals, ids);
    forall x, n | n >= 1
      ensures !Reach(m, x, x, n)
    {
      if Reach(m, x, x, n) {
        SubPath(goals, ids, x, x, n);
        assert false;
      }
    }
  }

  lemma {:induction false} SubPath(goals: map<int, Goal>, ids: set<int>, x: int, y: int, n: nat)
    requires Reach(WithoutGoals(goals, ids), x, y, n)
    ensures Reach(goals, x, y, n)
    decreases n
  {
    if n > 0 {
      SubPath(goals, ids, WithoutGoals(goals, ids)[x].parentId.value, y, n - 1);
    }
  }

  /** The ids of `given` that name existing rows: `filter(X.id.in_(...))`. */
  function Linkable(given: seq<int>, rows: set<int>): (r: set<int>)
    ensures forall x :: x in r <==> x in given && x in rows
  {
    set x | x in given && x in rows
  }

  /** `get_goals_due_soon` as written: it raises `NameError` on its first
      line, because `timedelta` is never imported. */
  function GoalsDueSoonAsWritten(goals: map<int, Goal>, today: int, days: int): (r: Option<set<int>>)
    ensures r.None?
  {
    None
  }

  /** The filter `get_goals_due_soon` evidently means: goals with a target
      date no later than `days` days from today that are not completed. */
  function GoalsDueSoon(goals: map<int, Goal>, today: int, days: int): (r: set<int>)
    ensures forall id :: id in r <==>
      id in goals && goals[id].targetDate.Some? &&
      goals[id].targetDate.value <= today + days && goals[id].status != Completed
  {
    set id | id in goals && goals[id].targetDate.Some? &&
      goals[id].targetDate.value <= today + days && goals[id].status != Completed
  }

  /** As written, the function never returns the goals it is meant to. */
  lemma DueSoonAsWrittenNeverAnswers(goals: map<int, Goal>, today: int, days: int)
    ensures GoalsDueSoonAsWritten(goals, today, days) != Some(GoalsDueSoon(goals, today, days))
  {
  }

  /** A longer horizon never drops a goal that is due soon. */
  lemma DueSoonMonotone(goals: map<int, Goal>, today: int, d1: int, d2: int)
    requires d1 <= d2
    ensures GoalsDueSoon(goals, today, d1) <= GoalsDueSoon(goals, today, d2)
  {
  }

  // ---------------------------------------------------------------
  // Check-in history order
  // ---------------------------------------------------------------

  predicate AllIn(cs: map<int, CheckIn>, s: seq<int>) {
    forall i :: 0 <= i < |s| ==> s[i] in cs
  }

  /** `order_by(check_in_date.desc())`. */
  predicate NewestFirst(cs: map<int, CheckIn>, s: seq<int>)
    requires AllIn(cs, s)
  {
    forall i, j :: 0 <= i < j < |s| ==> cs[s[i]].date >= cs[s[j]].date
  }

  /** The newest-first list `s` with `id` inserted at its place. */
  function InsertNewestFirst(cs: map<int, CheckIn>, s: seq<int>, id: int): (r: seq<int>)
    requires id in cs && AllIn(cs, s) && NewestFirst(cs, s)
    ensures AllIn(cs, r) && NewestFirst(cs, r)
    ensures multiset(r) == multiset(s) + multiset{id}
    ensures forall i :: 0 <= i < |r| ==> r[i] == id || r[i] in s
    decreases |s|
  {
    if |s| == 0 then [id]
    else if cs[s[0]].date <= cs[id].date then
      HeadIsNewest(cs, s);
      ConsNewestFirst(cs, id, s);
      [id] + s
    else
      var rest := InsertNewestFirst(cs, s[1..], id);
      HeadIsNewest(cs, s);
      assert s == [s[0]] + s[1..];
      ConsNewestFirst(cs, s[0], rest);
      [s[0]] + rest
  }

  /** Putting a check-in no older than any of a newest-first list in
      front keeps the list newest first. */
  lemma ConsNewestFirst(cs: map<int, CheckIn>, x: int, s: seq<int>)
    requires x in cs && AllIn(cs, s) && NewestFirst(cs, s)
    requires forall y :: y in s ==> cs[y].date <= cs[x].date
    ensures AllIn(cs, [x] + s) && NewestFirst(cs, [x] + s)
  {
    var r := [x] + s;
    forall i, j | 0 <= i < j < |r|
      ensures cs[r[i]].date >= cs[r[j]].date
    {
      assert r[j] == s[j - 1];
      if i > 0 {
        assert r[i] == s[i - 1];
      } else {
        assert r[j] in s;
      }
    }
  }

  lemma HeadIsNewest(cs: map<int, CheckIn>, s: seq<int>)
    requires |s| > 0 && AllIn(cs, s) && NewestFirst(cs, s)
    ensures forall x :: x in s ==> cs[x].date <= cs[s[0]].date
  {
    forall x | x in s
      ensures cs[x].date <= cs[s[0]].date
    {
      var i :| 0 <= i < |s| && s[i] == x;
      if i > 0 {
        assert cs[s[0]].date >= cs[s[i]].date;
      }
    }
  }

  /** What `get_goal_progress` returns for an existing goal. */
  datatype Progress = Progress(goal: Goal, latest: Option<int>, total: nat, history: seq<int>)

  /** The goals, check-ins and link tables, with the ids of the rows of
      the Values and Habits tables that links may point to. */
  class GoalStore {
    var goals: map<int, Goal>
    var checkIns: map<int, CheckIn>
    var valueRows: set<int>
    var habitRows: set<int>

    /** Check-ins belong to stored goals and links point to stored rows.
        Parent ids are not constrained: nothing checks them on write. */
    ghost predicate Valid()
      reads this
    {
      (forall c :: c in checkIns ==> checkIns[c].goalId in goals) &&
      (forall c :: c in checkIns ==> checkIns[c].habitIds <= habitRows) &&
      (forall g :: g in goals ==> goals[g].valueIds <= valueRows && goals[g].habitIds <= habitRows)
    }

    constructor (values: set<int>, habits: set<int>)
      ensures Valid()
      ensures goals == map[] && checkIns == map[]
      ensures valueRows == values && habitRows == habits
    {
      goals := map[];
      checkIns := map[];
      valueRows := values;
      habitRows := habits;
    }

    /** `Goal.parent_id == p` */
    function ChildIds(p: int): (r: set<int>)
      reads this
      ensures forall c :: c in r <==> ChildOf(goals, c, p)
    {
      set c | c in goals && goals[c].parentId == Some(p)
    }

    /** `_get_all_descendant_ids`: the goal and all its descendants. The
        worklist ends on any parent data, cycles included: a goal enters
        the queue only while it is not yet collected. */
    method DescendantIds(goalId: int) returns (ids: set<int>)
      ensures ids == Closure(goals, goalId)
    {
      ids := {};
      var queue := [goalId];
      StartWork(goalId);
      while |queue| > 0
        invariant WorkInv(goalId, ids, queue)
        decreases |(goals.Keys + {goalId}) - ids|
      {
        var cur := queue[0];
        PopStep(goalId, ids, queue);
        var next := EnqueueChildren(cur, ids + {cur}, queue[1..]);
        PushStep(goalId, ids, queue, next);
        ids := ids + {cur};
        queue := next;
      }
      FinishWork(goalId, ids);
    }

    /** The worklist starts with the goal alone. */
    lemma StartWork(g: int)
      ensures WorkInv(g, {}, [g])
    {
      assert Reach(goals, g, g, 0);
    }

    /** An empty worklist has collected exactly the closure. */
    lemma FinishWork(g: int, ids: set<int>)
      requires WorkInv(g, ids, [])
      ensures ids == Closure(goals, g)
    {
      ClosedSetContainsClosure(goals, ids, g);
    }

    /** The worklist invariant: everything collected or queued lies in
        the closure, the queue holds distinct goals not yet collected,
        and every child of a collected goal is collected or queued. */
    ghost predicate WorkInv(g: int, ids: set<int>, queue: seq<int>)
      reads this
    {
      ids <= goals.Keys + {g} &&
      (forall x :: x in ids ==> InClosure(goals, x, g)) &&
      (forall i :: 0 <= i < |queue| ==>
        queue[i] in goals.Keys + {g} && queue[i] !in ids && InClosure(goals, queue[i], g)) &&
      (forall i, j :: 0 <= i < j < |queue| ==> queue[i] != queue[j]) &&
      (g in ids || (ids == {} && queue == [g])) &&
      (forall i :: 0 <= i < |queue| ==>
        queue[i] == g || (queue[i] in goals && goals[queue[i]].parentId.Some? &&
          goals[queue[i]].parentId.value in ids)) &&
      (forall c :: c in goals && goals[c].parentId.Some? && goals[c].parentId.value in ids ==>
        c in ids || c in queue)
    }

    /** Taking the head off the queue: the rest holds no child of the
        head, and collecting the head shrinks what is left to collect. */
    lemma PopStep(g: int, ids: set<int>, queue: seq<int>)
      requires WorkInv(g, ids, queue) && |queue| > 0
      ensures forall i, j :: 0 <= i < j < |queue[1..]| ==> queue[1..][i] != queue[1..][j]
      ensures forall i :: 0 <= i < |queue[1..]| ==> queue[1..][i] !in ChildIds(queue[0])
      ensures |(goals.Keys + {g}) - (ids + {queue[0]})| < |(goals.Keys + {g}) - ids|
    {
      var u := goals.Keys + {g};
      assert u - (ids + {queue[0]}) < u - ids;
      forall i | 0 <= i < |queue[1..]|
        ensures queue[1..][i] !in ChildIds(queue[0])
      {
        assert queue[1..][i] == queue[i + 1];
      }
    }

    /** Collecting the head and queueing its uncollected children keeps
        the worklist invariant. */
    lemma PushStep(g: int, ids: set<int>, queue: seq<int>, next: seq<int>)
      requires WorkInv(g, ids, queue) && |queue| > 0
      requires |next| >= |queue| - 1 && next[..|queue| - 1] == queue[1..]
      requires forall i, j :: 0 <= i < j < |next| ==> next[i] != next[j]
      requires forall x :: x in next <==>
        x in queue[1..] || (x in ChildIds(queue[0]) && x !in ids + {queue[0]})
      requires forall i :: |queue| - 1 <= i < |next| ==>
        next[i] in ChildIds(queue[0]) && next[i] !in ids + {queue[0]}
      ensures WorkInv(g, ids + {queue[0]}, next)
    {
      var cur := queue[0];
      var ids' := ids + {cur};
      forall i | 0 <= i < |next|
        ensures next[i] in goals.Keys + {g} && next[i] !in ids' && InClosure(goals, next[i], g)
        ensures next[i] in goals && goals[next[i]].parentId.Some? && goals[next[i]].parentId.value in ids'
      {
        if i < |queue| - 1 {
          assert next[i] == queue[i + 1];
          assert next[i] != cur;
        } else {
          ChildInClosure(goals, next[i], g);
        }
      }
    }

    /** The `for child_tuple in direct_children` loop: every child of
        `cur` not yet collected is appended to the queue, once. */
    method EnqueueChildren(cur: int, ids: set<int>, queue: seq<int>) returns (q: seq<int>)
      requires forall i, j :: 0 <= i < j < |queue| ==> queue[i] != queue[j]
      requires forall i :: 0 <= i < |queue| ==> queue[i] !in ChildIds(cur)
      ensures |q| >= |queue| && q[..|queue|] == queue
      ensures forall i, j :: 0 <= i < j < |q| ==> q[i] != q[j]
      ensures forall x :: x in q <==> x in queue || (x in ChildIds(cur) && x !in ids)
      ensures forall i :: |queue| <= i < |q| ==> q[i] in ChildIds(cur) && q[i] !in ids
    {
      q := queue;
      var rest := ChildIds(cur);
      while rest != {}
        invariant rest <= ChildIds(cur)
        invariant |q| >= |queue| && q[..|queue|] == queue
        invariant forall i, j :: 0 <= i < j < |q| ==> q[i] != q[j]
        invariant forall i :: 0 <= i < |q| ==> q[i] !in rest
        invariant forall x :: x in q <==> x in queue || (x in ChildIds(cur) - rest && x !in ids)
        invariant forall i :: |queue| <= i < |q| ==> q[i] in ChildIds(cur) && q[i] !in ids
        decreases |rest|
      {
        HasElement(rest);
        var child :| child in rest;
        if child !in ids {
          q := q + [child];
        }
        rest := rest - {child};
      }
    }

    /** `delete_goal`: `false` and no change for an unknown goal or a
        failed commit; otherwise the goal's closure and every check-in of
        a goal in it are removed, and nothing else. */
    method DeleteGoal(goalId: int, commitSucceeds: bool) returns (ok: bool)
      requires Valid()
      modifies this
      ensures Valid()
      ensures valueRows == old(valueRows) && habitRows == old(habitRows)
      ensures ok <==> goalId in old(goals) && commitSucceeds
      ensures !ok ==> goals == old(goals) && checkIns == old(checkIns)
      ensures ok ==>
        goals == WithoutGoals(old(goals), Closure(old(goals), goalId)) &&
        checkIns == WithoutCheckInsOf(old(checkIns), Closure(old(goals), goalId))
    {
      if goalId !in goals {
        return false;
      }
      var ids := DescendantIds(goalId);
      if !commitSucceeds {
        return false;
      }
      checkIns := WithoutCheckInsOf(checkIns, ids);
      goals := WithoutGoals(goals, ids);
      ok := true;
    }

    /** `update_goal`: `None` for an unknown goal; otherwise the scalar
        fields and the parent are overwritten (the parent unchecked) and
        each link set becomes exactly the given ids that exist. */
    method UpdateGoal(goalId: int, name: string, description: Option<string>, targetDate: Option<int>,
                      status: GoalStatus, parentId: Option<int>, valueIds: seq<int>, habitIds: seq<int>)
      returns (r: Option<Goal>)
      requires Valid()
      modifies this
      ensures Valid()
      ensures checkIns == old(checkIns) && valueRows == old(valueRows) && habitRows == old(habitRows)
      ensures goalId !in old(goals) ==> r.None? && goals == old(goals)
      ensures goalId in old(goals) ==>
        goals == old(goals)[goalId := Goal(name, description, targetDate, status, parentId,
          Linkable(valueIds, valueRows), Linkable(habitIds, habitRows))] &&
        r == Some(goals[goalId])
    {
      if goalId !in goals {
        return None;
      }
      var g := Goal(name, description, targetDate, status, parentId,
        Linkable(valueIds, valueRows), Linkable(habitIds, habitRows));
      goals := goals[goalId := g];
      r := Some(g);
    }

    /** `create_goal`: a new row with a fresh id; the parent id is stored
        as given and the links keep only existing rows. */
    method CreateGoal(name: string, description: Option<string>, targetDate: Option<int>,
                      status: GoalStatus, parentId: Option<int>, valueIds: seq<int>, habitIds: seq<int>)
      returns (id: int)
      requires Valid()
      modifies this
      ensures Valid()
      ensures checkIns == old(checkIns) && valueRows == old(valueRows) && habitRows == old(habitRows)
      ensures id !in old(goals)
      ensures goals == old(goals)[id := Goal(name, description, targetDate, status, parentId,
        Linkable(valueIds, valueRows), Linkable(habitIds, habitRows))]
    {
      id := FreshId(goals.Keys);
      goals := goals[id := Goal(name, description, targetDate, status, parentId,
        Linkable(valueIds, valueRows), Linkable(habitIds, habitRows))];
    }

    /** `create_check_in`: `None` (`ValueError`) for an unknown goal;
        otherwise a new check-in linked to the given habits that exist. */
    method CreateCheckIn(goalId: int, reflection: Option<string>, progress: real,
                         notes: Option<string>, habitIds: seq<int>, date: int)
      returns (r: Option<int>)
      requires Valid()
      modifies this
      ensures Valid()
      ensures goals == old(goals) && valueRows == old(valueRows) && habitRows == old(habitRows)
      ensures r.None? <==> goalId !in goals
      ensures r.None? ==> checkIns == old(checkIns)
      ensures r.Some? ==> (r.value !in old(checkIns) &&
        checkIns == old(checkIns)[r.value := CheckIn(goalId, date, reflection, progress, notes,
          Linkable(habitIds, habitRows))])
    {
      if goalId !in goals {
        return None;
      }
      var id := FreshId(checkIns.Keys);
      checkIns := checkIns[id := CheckIn(goalId, date, reflection, progress, notes,
        Linkable(habitIds, habitRows))];
      r := Some(id);
    }

    /** The check-ins of `goalId` dated within the optional inclusive
        bounds. */
    function CheckInIdsFor(goalId: int, from: Option<int>, to: Option<int>): (r: set<int>)
      reads this
      ensures forall c :: c in r <==>
        c in checkIns && checkIns[c].goalId == goalId &&
        (from.None? || from.value <= checkIns[c].date) &&
        (to.None? || checkIns[c].date <= to.value)
    {
      set c | c in checkIns && checkIns[c].goalId == goalId &&
        (from.None? || from.value <= checkIns[c].date) &&
        (to.None? || checkIns[c].date <= to.value)
    }

    /** `get_check_ins`: each matching check-in exactly once, newest
        first. */
    method CheckIns(goalId: int, from: Option<int>, to: Option<int>) returns (result: seq<int>)
      ensures AllIn(checkIns, result) && NewestFirst(checkIns, result)
      ensures multiset(result) == multiset(CheckInIdsFor(goalId, from, to))
      ensures forall c :: c in result <==> c in CheckInIdsFor(goalId, from, to)
    {
      var matching := CheckInIdsFor(goalId, from, to);
      result := [];
      var rest := matching;
      while rest != {}
        invariant rest <= matching
        invariant AllIn(checkIns, result) && NewestFirst(checkIns, result)
        invariant multiset(result) == multiset(matching - rest)
        decreases |rest|
      {
        HasElement(rest);
        var c :| c in rest;
        result := InsertNewestFirst(checkIns, result, c);
        assert matching - (rest - {c}) == (matching - rest) + {c};
        rest := rest - {c};
      }
      assert matching - rest == matching;
      assert forall c :: c in result <==> c in multiset(result);
    }

    /** `get_goal_progress`: `None` for an unknown goal; otherwise the
        goal's whole history newest first, its length, and its first
        element as the latest check-in. */
    method GoalProgress(goalId: int) returns (r: Option<Progress>)
      ensures r.None? <==> goalId !in goals
      ensures r.Some? ==>
        var p := r.value;
        p.goal == goals[goalId] &&
        AllIn(checkIns, p.history) && NewestFirst(checkIns, p.history) &&
        multiset(p.history) == multiset(CheckInIdsFor(goalId, None, None)) &&
        p.total == |p.history| &&
        p.latest == (if |p.history| > 0 then Some(p.history[0]) else None) &&
        (p.latest.None? <==> CheckInIdsFor(goalId, None, None) == {}) &&
        (p.latest.Some? ==> (p.latest.value in CheckInIdsFor(goalId, None, None) &&
          forall c :: c in CheckInIdsFor(goalId, None, None) ==>
            checkIns[c].date <= checkIns[p.latest.value].date))
    {
      if goalId !in goals {
        return None;
      }
      var history := CheckIns(goalId, None, None);
      var latest := if |history| > 0 then Some(history[0]) else None;
      if |history| > 0 {
        forall c | c in CheckInIdsFor(goalId, None, None)
          ensures checkIns[c].date <= checkIns[history[0]].date
        {
          var i :| 0 <= i < |history| && history[i] == c;
          if i > 0 {
            assert checkIns[history[0]].date >= checkIns[history[i]].date;
          }
        }
        assert history[0] in multiset(history);
      } else {
        assert forall c :: c in CheckInIdsFor(goalId, None, None) ==> c in multiset(history);
      }
      r := Some(Progress(goals[goalId], latest, |history|, history));
    }
  }
}
