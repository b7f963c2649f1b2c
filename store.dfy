/**
 * The goal/streak store (client/hooks/useWorkTrackerState.ts).
 *
 * Every operation of the hook hands `setState` an updater `prev => next`; each
 * updater is a pure function here (AfterAddGoal, AfterCompleteGoal, ...), and
 * the class WorkTracker holds the state and applies them. The clock is not
 * read: the new goal's id, its creation time and "today" are parameters.
 */
module WorkTrackerState {
  import opened Types

  // ---------------------------------------------------------------------------
  // Sequences without repetitions, and `[...new Set(s)]`
  // ---------------------------------------------------------------------------

  /** No element occurs twice in `s`. */
  ghost predicate NoDup<T>(s: seq<T>) {
    forall i, j :: 0 <= i < j < |s| ==> s[i] != s[j]
  }

  /**
   * `[...new Set(s)]`: the elements of `s` in order of first occurrence, each
   * once (a JavaScript Set keeps insertion order and ignores re-insertions).
   */
  function Dedup(s: seq<string>): (r: seq<string>)
    ensures NoDup(r)
    ensures forall x :: x in r <==> x in s
    ensures NoDup(s) ==> r == s
    decreases |s|
  {
    if s == [] then []
    else
      var d := Dedup(s[..|s| - 1]);
      var x := s[|s| - 1];
      if x in d then d else d + [x]
  }

  /** Appending `x` to a sequence without repetitions and removing repetitions
      again adds `x` at the end exactly when it was absent. */
  lemma DedupAppend(s: seq<string>, x: string)
    requires NoDup(s)
    ensures Dedup(s + [x]) == if x in s then s else s + [x]
  {
    assert (s + [x])[..|s|] == s;
  }

  // ---------------------------------------------------------------------------
  // The seed state and the records the operations build
  // ---------------------------------------------------------------------------

  function Max(a: int, b: int): int {
    if a < b then b else a
  }

  /** The streak record `addGoal` and the seed state create for a goal. */
  function ZeroStreak(id: string): Streak {
    Streak(id, 0, 0, None)
  }

  /** `initialState`: two example goals, a zero streak for each, no progress,
      onboarding not seen. Both goals share the creation time `createdAt`. */
  function InitialState(createdAt: string): (s: AppState)
    ensures ValidState(s)
    ensures |s.goals| == 2 && GoalIds(s.goals) == s.streaks.Keys == {"1", "2"}
    ensures forall k :: k in s.streaks ==> s.streaks[k] == Streak(k, 0, 0, None)
    ensures forall g :: g in s.goals ==> !g.completed && g.completedDates == []
    ensures s.progress == [] && !s.hasSeenOnboarding
  {
    var goals := [ Goal("1", "Morning Meditation", Some("Start day with 10 min meditation"),
                        Light, Daily, createdAt, false, []),
                   Goal("2", "Write 500 words", Some("Daily writing practice"),
                        Medium, Daily, createdAt, false, []) ];
    assert GoalIds(goals) == {"1", "2"} by {
      assert goals[0].id == "1" && goals[1].id == "2";
    }
    AppState(goals, map["1" := ZeroStreak("1"), "2" := ZeroStreak("2")], [], false)
  }

  /** The goal `addGoal` builds from the caller's fields, the id and the creation time. */
  function NewGoal(title: string, description: Option<string>, effort: EffortLevel,
                   frequency: Frequency, id: string, createdAt: string): (g: Goal)
    ensures g.id == id && g.createdAt == createdAt
    ensures g.title == title && g.description == description
    ensures g.effort == effort && g.frequency == frequency
    ensures !g.completed && g.completedDates == []
  {
    Goal(id, title, description, effort, frequency, createdAt, false, [])
  }

  /** The ids of all goals. */
  function GoalIds(goals: seq<Goal>): set<string> {
    set g | g in goals :: g.id
  }

  /** Two goal lists with the same ids position by position have the same id set. */
  lemma SameIdsSameGoalIds(a: seq<Goal>, b: seq<Goal>)
    requires |a| == |b| && forall i :: 0 <= i < |a| ==> a[i].id == b[i].id
    ensures GoalIds(a) == GoalIds(b)
  {
    forall x | x in GoalIds(a) ensures x in GoalIds(b) {
      var i :| 0 <= i < |a| && a[i].id == x;
      assert b[i] in b;
    }
    forall x | x in GoalIds(b) ensures x in GoalIds(a) {
      var i :| 0 <= i < |b| && b[i].id == x;
      assert a[i] in a;
    }
  }

  /** Some goal of `goals` has id `id`. */
  predicate HasGoal(goals: seq<Goal>, id: string) {
    exists i :: 0 <= i < |goals| && goals[i].id == id
  }

  // ---------------------------------------------------------------------------
  // The state invariant
  // ---------------------------------------------------------------------------

  /** A streak stored under key `k` names goal `k` and has 0 <= current <= longest. */
  ghost predicate StreakValid(k: string, st: Streak) {
    st.goalId == k && 0 <= st.currentStreak <= st.longestStreak
  }

  /**
   * The invariant every reachable state keeps: exactly one streak per goal id
   * (no orphans), every streak valid under its key, and no goal lists a date twice.
   */
  ghost predicate ValidState(s: AppState) {
    && s.streaks.Keys == GoalIds(s.goals)
    && (forall k :: k in s.streaks ==> StreakValid(k, s.streaks[k]))
    && (forall g :: g in s.goals ==> NoDup(g.completedDates))
  }

  // ---------------------------------------------------------------------------
  // addGoal
  // ---------------------------------------------------------------------------

  /** The updater of `addGoal`: append the goal, store a zero streak under its id. */
  function AfterAddGoal(s: AppState, g: Goal): (r: AppState)
    ensures GoalIds(r.goals) == GoalIds(s.goals) + {g.id}
    ensures r.streaks.Keys == s.streaks.Keys + {g.id}
    ensures |r.goals| == |s.goals| + 1 && r.goals[|s.goals|] == g
    ensures r.progress == s.progress && r.hasSeenOnboarding == s.hasSeenOnboarding
  {
    assert GoalIds(s.goals + [g]) == GoalIds(s.goals) + {g.id} by {
      assert (s.goals + [g])[|s.goals|] == g;
    }
    s.(goals := s.goals + [g], streaks := s.streaks[g.id := ZeroStreak(g.id)])
  }

  /** `addGoal` appends exactly one goal, keeps the earlier ones in order, puts a
      zero streak under the new id and leaves every other streak and part alone. */
  lemma AddGoalEffect(s: AppState, g: Goal)
    ensures var r := AfterAddGoal(s, g);
      && |r.goals| == |s.goals| + 1
      && r.goals[..|s.goals|] == s.goals
      && r.goals[|s.goals|] == g
      && g.id in r.streaks
      && r.streaks[g.id] == Streak(g.id, 0, 0, None)
      && (forall k :: k != g.id ==> (k in r.streaks <==> k in s.streaks))
      && (forall k :: k != g.id && k in s.streaks ==> r.streaks[k] == s.streaks[k])
      && r.progress == s.progress
      && r.hasSeenOnboarding == s.hasSeenOnboarding
  {
    assert (s.goals + [g])[..|s.goals|] == s.goals;
  }

  /** With a fresh id, the new goal is the only goal with that id. */
  lemma AddGoalFreshId(s: AppState, g: Goal)
    requires !HasGoal(s.goals, g.id)
    ensures var r := AfterAddGoal(s, g);
      forall i :: 0 <= i < |r.goals| && r.goals[i].id == g.id ==> i == |s.goals|
  {
  }

  /** The source does not guard against a reused id (two calls in one
      millisecond): the goal is appended a second time and the existing streak,
      whatever it was, is replaced by a zero streak. */
  lemma AddGoalReusedId(s: AppState, g: Goal, i: nat)
    requires i < |s.goals| && s.goals[i].id == g.id
    ensures var r := AfterAddGoal(s, g);
      && r.goals[i].id == g.id
      && r.goals[|s.goals|].id == g.id
      && i != |s.goals|
      && r.streaks[g.id].currentStreak == 0
      && r.streaks[g.id].longestStreak == 0
  {
  }

  lemma {:induction false} AddGoalPreservesValid(s: AppState, g: Goal)
    requires ValidState(s)
    requires g.completedDates == []
    ensures ValidState(AfterAddGoal(s, g))
  {
    var r := AfterAddGoal(s, g);
    assert GoalIds(r.goals) == GoalIds(s.goals) + {g.id} by {
      forall x | x in GoalIds(r.goals) ensures x in GoalIds(s.goals) + {g.id} {
        var h :| h in r.goals && h.id == x;
        if h != g { assert h in s.goals; }
      }
      forall x | x in GoalIds(s.goals) ensures x in GoalIds(r.goals) {
        var h :| h in s.goals && h.id == x;
        assert h in r.goals;
      }
      assert g in r.goals;
    }
    forall h | h in r.goals ensures NoDup(h.completedDates) {
      if h != g { assert h in s.goals; }
    }
  }

  /** `addGoal` applied to each goal of `gs` in turn. */
  function AddGoals(s: AppState, gs: seq<Goal>): AppState
    decreases |gs|
  {
    if gs == [] then s else AfterAddGoal(AddGoals(s, gs[..|gs| - 1]), gs[|gs| - 1])
  }

  /** After any run of `addGoal` calls the goal list has grown by exactly the
      goals added, in call order, and every added id has a zero streak. */
  lemma {:induction false} AddGoalsEffect(s: AppState, gs: seq<Goal>)
    ensures AddGoals(s, gs).goals == s.goals + gs
    ensures |AddGoals(s, gs).goals| == |s.goals| + |gs|
    ensures forall i :: 0 <= i < |gs| ==>
      gs[i].id in AddGoals(s, gs).streaks && AddGoals(s, gs).streaks[gs[i].id] == ZeroStreak(gs[i].id)
    decreases |gs|
  {
    if gs != [] {
      var front := gs[..|gs| - 1];
      var last := gs[|gs| - 1];
      AddGoalsEffect(s, front);
      assert gs == front + [last];
      var r0 := AddGoals(s, front);
      var r := AddGoals(s, gs);
      assert r.streaks == r0.streaks[last.id := ZeroStreak(last.id)];
      forall i | 0 <= i < |gs|
        ensures gs[i].id in r.streaks && r.streaks[gs[i].id] == ZeroStreak(gs[i].id)
      {
        if i < |front| && gs[i].id != last.id {
          assert gs[i] == front[i];
        }
      }
    }
  }

  // ---------------------------------------------------------------------------
  // completeGoal
  // ---------------------------------------------------------------------------

  /** A matched goal after `completeGoal`: completed, today added to its dates. */
  function MarkCompleted(g: Goal, today: string): (h: Goal)
    ensures h.completed && today in h.completedDates && NoDup(h.completedDates)
    ensures forall x :: x in h.completedDates <==> x == today || x in g.completedDates
    ensures h == g.(completed := true, completedDates := h.completedDates)
  {
    g.(completed := true, completedDates := Dedup(g.completedDates + [today]))
  }

  /** `prev.goals.map(...)` in `completeGoal`. */
  function CompleteMatching(goals: seq<Goal>, id: string, today: string): (r: seq<Goal>)
    ensures |r| == |goals|
    ensures forall i :: 0 <= i < |goals| ==> r[i].id == goals[i].id
    ensures forall i :: 0 <= i < |goals| && goals[i].id != id ==> r[i] == goals[i]
    ensures forall i :: 0 <= i < |goals| && goals[i].id == id ==>
      r[i].completed && today in r[i].completedDates
  {
    seq(|goals|, i requires 0 <= i < |goals| =>
      if goals[i].id == id then MarkCompleted(goals[i], today) else goals[i])
  }

  /** The naive streak step: one more, the longest is the running maximum, no
      day-gap detection at all. */
  function BumpStreak(st: Streak, today: string): (r: Streak)
    ensures r.goalId == st.goalId && r.lastCompletedDate == Some(today)
    ensures r.currentStreak == st.currentStreak + 1
    ensures r.currentStreak <= r.longestStreak && st.longestStreak <= r.longestStreak
    ensures r.longestStreak == st.longestStreak || r.longestStreak == r.currentStreak
  {
    var current := st.currentStreak + 1;
    st.(currentStreak := current,
        longestStreak := Max(st.longestStreak, current),
        lastCompletedDate := Some(today))
  }

  /** The updater of `completeGoal`. */
  function AfterCompleteGoal(s: AppState, id: string, today: string): (r: AppState)
    ensures GoalIds(r.goals) == GoalIds(s.goals)
    ensures r.streaks.Keys == s.streaks.Keys
    ensures r.progress == s.progress && r.hasSeenOnboarding == s.hasSeenOnboarding
  {
    SameIdsSameGoalIds(s.goals, CompleteMatching(s.goals, id, today));
    s.(goals := CompleteMatching(s.goals, id, today),
       streaks := if id in s.streaks then s.streaks[id := BumpStreak(s.streaks[id], today)]
                  else s.streaks)
  }

  /** What `completeGoal` does to the goal list: every goal with the id is
      completed and lists today exactly once; a goal whose dates had no
      repetition gains today only if it was absent; other goals are untouched. */
  lemma CompleteGoalGoals(s: AppState, id: string, today: string)
    ensures var r := AfterCompleteGoal(s, id, today);
      && |r.goals| == |s.goals|
      && (forall i :: 0 <= i < |s.goals| && s.goals[i].id != id ==> r.goals[i] == s.goals[i])
      && (forall i :: 0 <= i < |s.goals| && s.goals[i].id == id ==>
            && r.goals[i] == s.goals[i].(completed := true, completedDates := r.goals[i].completedDates)
            && today in r.goals[i].completedDates
            && NoDup(r.goals[i].completedDates)
            && (NoDup(s.goals[i].completedDates) ==>
                  r.goals[i].completedDates ==
                    (if today in s.goals[i].completedDates then s.goals[i].completedDates
                     else s.goals[i].completedDates + [today])))
      && r.progress == s.progress
      && r.hasSeenOnboarding == s.hasSeenOnboarding
  {
    var r := AfterCompleteGoal(s, id, today);
    forall i | 0 <= i < |s.goals| && s.goals[i].id == id && NoDup(s.goals[i].completedDates)
      ensures r.goals[i].completedDates ==
                if today in s.goals[i].completedDates then s.goals[i].completedDates
                else s.goals[i].completedDates + [today]
    {
      DedupAppend(s.goals[i].completedDates, today);
    }
  }

  /** What `completeGoal` does to the streaks: the streak under the id, if any,
      goes up by exactly one on every call (also when today was already
      recorded), its longest becomes max(old longest, new current) and its last
      date today; every other streak is untouched and no key appears or goes. */
  lemma CompleteGoalStreaks(s: AppState, id: string, today: string)
    ensures var r := AfterCompleteGoal(s, id, today);
      && r.streaks.Keys == s.streaks.Keys
      && (forall k :: k in s.streaks && k != id ==> r.streaks[k] == s.streaks[k])
      && (id in s.streaks ==>
            && r.streaks[id].goalId == s.streaks[id].goalId
            && r.streaks[id].currentStreak == s.streaks[id].currentStreak + 1
            && r.streaks[id].longestStreak >= s.streaks[id].longestStreak
            && r.streaks[id].longestStreak >= r.streaks[id].currentStreak
            && (r.streaks[id].longestStreak == s.streaks[id].longestStreak ||
                r.streaks[id].longestStreak == r.streaks[id].currentStreak)
            && r.streaks[id].lastCompletedDate == Some(today))
  {
  }

  /** `completeGoal` for an id that has neither a goal nor a streak changes nothing. */
  lemma CompleteUnknownGoal(s: AppState, id: string, today: string)
    requires !HasGoal(s.goals, id) && id !in s.streaks
    ensures AfterCompleteGoal(s, id, today) == s
  {
    var r := AfterCompleteGoal(s, id, today);
    assert r.goals == s.goals by {
      forall i | 0 <= i < |s.goals| ensures r.goals[i] == s.goals[i] {
        assert s.goals[i].id != id;
      }
    }
  }

  lemma CompleteGoalPreservesValid(s: AppState, id: string, today: string)
    requires ValidState(s)
    ensures ValidState(AfterCompleteGoal(s, id, today))
  {
    var r := AfterCompleteGoal(s, id, today);
    CompleteGoalGoals(s, id, today);
    SameIdsSameGoalIds(s.goals, r.goals);
    forall h | h in r.goals ensures NoDup(h.completedDates) {
      var i :| 0 <= i < |r.goals| && r.goals[i] == h;
      assert s.goals[i] in s.goals;
    }
  }

  /** `completeGoal(id, today)` called `n` times in a row. */
  function CompleteTimes(s: AppState, id: string, today: string, n: nat): AppState {
    if n == 0 then s else AfterCompleteGoal(CompleteTimes(s, id, today, n - 1), id, today)
  }

  /** Completing a goal `n` times raises its current streak by exactly `n`;
      its longest becomes the running maximum. */
  lemma {:induction false} CompleteTimesStreak(s: AppState, id: string, today: string, n: nat)
    requires id in s.streaks
    ensures var r := CompleteTimes(s, id, today, n);
      && id in r.streaks
      && r.streaks[id].currentStreak == s.streaks[id].currentStreak + n
      && r.streaks[id].longestStreak ==
           (if n == 0 then s.streaks[id].longestStreak
            else Max(s.streaks[id].longestStreak, s.streaks[id].currentStreak + n))
  {
    if n > 0 {
      CompleteTimesStreak(s, id, today, n - 1);
    }
  }

  /** A second completion on the same day leaves the goal list as the first
      left it, provided no goal listed a date twice. */
  lemma CompleteGoalTwiceSameDay(s: AppState, id: string, today: string)
    requires forall g :: g in s.goals ==> NoDup(g.completedDates)
    ensures var once := AfterCompleteGoal(s, id, today);
      AfterCompleteGoal(once, id, today).goals == once.goals
  {
    var once := AfterCompleteGoal(s, id, today);
    var twice := AfterCompleteGoal(once, id, today);
    forall i | 0 <= i < |s.goals| ensures twice.goals[i] == once.goals[i] {
      if s.goals[i].id == id {
        assert s.goals[i] in s.goals;
        var d := once.goals[i].completedDates;
        DedupAppend(d, today);
      }
    }
  }

  /** `n` >= 1 completions on one day change the goal list exactly as one
      does: the dates gain at most the one entry for today. */
  lemma {:induction false} CompleteTimesGoals(s: AppState, id: string, today: string, n: nat)
    requires n > 0
    requires forall g :: g in s.goals ==> NoDup(g.completedDates)
    ensures CompleteTimes(s, id, today, n).goals == AfterCompleteGoal(s, id, today).goals
  {
    if n > 1 {
      CompleteTimesGoals(s, id, today, n - 1);
      var p := CompleteTimes(s, id, today, n - 1);
      var once := AfterCompleteGoal(s, id, today);
      assert AfterCompleteGoal(p, id, today).goals == AfterCompleteGoal(once, id, today).goals;
      CompleteGoalTwiceSameDay(s, id, today);
    }
  }

  /** From a zero streak, `n` completions give current = longest = n. */
  lemma CompleteTimesFromZero(s: AppState, id: string, today: string, n: nat)
    requires id in s.streaks && s.streaks[id] == ZeroStreak(id)
    ensures var r := CompleteTimes(s, id, today, n);
      id in r.streaks && r.streaks[id].currentStreak == n && r.streaks[id].longestStreak == n
  {
    CompleteTimesStreak(s, id, today, n);
  }

  // ---------------------------------------------------------------------------
  // resetGoalDaily
  // ---------------------------------------------------------------------------

  /** `prev.goals.map(...)` in `resetGoalDaily`. */
  function ResetMatching(goals: seq<Goal>, id: string): (r: seq<Goal>)
    ensures |r| == |goals|
    ensures forall i :: 0 <= i < |goals| ==>
      r[i].id == goals[i].id && r[i].completedDates == goals[i].completedDates
    ensures forall i :: 0 <= i < |goals| ==> (r[i].completed <==> goals[i].completed && goals[i].id != id)
  {
    seq(|goals|, i requires 0 <= i < |goals| =>
      if goals[i].id == id then goals[i].(completed := false) else goals[i])
  }

  /** The updater of `resetGoalDaily`. */
  function AfterResetGoalDaily(s: AppState, id: string): (r: AppState)
    ensures GoalIds(r.goals) == GoalIds(s.goals)
    ensures !exists g :: g in r.goals && g.id == id && g.completed
    ensures r.streaks == s.streaks && r.progress == s.progress
    ensures r.hasSeenOnboarding == s.hasSeenOnboarding
  {
    SameIdsSameGoalIds(s.goals, ResetMatching(s.goals, id));
    s.(goals := ResetMatching(s.goals, id))
  }

  /** `resetGoalDaily` only clears the completed flag of the goals with the id:
      order, dates, streaks, progress and the onboarding flag stay as they were. */
  lemma ResetGoalDailyEffect(s: AppState, id: string)
    ensures var r := AfterResetGoalDaily(s, id);
      && |r.goals| == |s.goals|
      && (forall i :: 0 <= i < |s.goals| ==>
            r.goals[i] == (if s.goals[i].id == id then s.goals[i].(completed := false) else s.goals[i]))
      && (forall i :: 0 <= i < |s.goals| ==>
            r.goals[i].completedDates == s.goals[i].completedDates && r.goals[i].id == s.goals[i].id)
      && r.streaks == s.streaks
      && r.progress == s.progress
      && r.hasSeenOnboarding == s.hasSeenOnboarding
  {
  }

  lemma ResetGoalDailyPreservesValid(s: AppState, id: string)
    requires ValidState(s)
    ensures ValidState(AfterResetGoalDaily(s, id))
  {
    var r := AfterResetGoalDaily(s, id);
    SameIdsSameGoalIds(s.goals, r.goals);
    forall h | h in r.goals ensures NoDup(h.completedDates) {
      var i :| 0 <= i < |r.goals| && r.goals[i] == h;
      assert s.goals[i] in s.goals;
    }
  }

  // ---------------------------------------------------------------------------
  // deleteGoal
  // ---------------------------------------------------------------------------

  /** `prev.goals.filter(g => g.id !== goalId)`. */
  function RemoveGoals(goals: seq<Goal>, id: string): (r: seq<Goal>)
    ensures forall g :: g in r <==> g in goals && g.id != id
    ensures |r| <= |goals|
  {
    if goals == [] then []
    else (if goals[0].id == id then [] else [goals[0]]) + RemoveGoals(goals[1..], id)
  }

  /** The filter keeps the relative order: filtering a concatenation filters each part. */
  lemma {:induction false} RemoveGoalsAppend(a: seq<Goal>, b: seq<Goal>, id: string)
    ensures RemoveGoals(a + b, id) == RemoveGoals(a, id) + RemoveGoals(b, id)
  {
    if a != [] {
      assert (a + b)[1..] == a[1..] + b;
      RemoveGoalsAppend(a[1..], b, id);
    } else {
      assert a + b == b;
    }
  }

  /** Filtering a list that has no goal with the id returns it unchanged. */
  lemma {:induction false} RemoveGoalsAbsent(goals: seq<Goal>, id: string)
    requires !HasGoal(goals, id)
    ensures RemoveGoals(goals, id) == goals
  {
    if goals != [] {
      assert !HasGoal(goals[1..], id) by {
        forall i | 0 <= i < |goals[1..]| ensures goals[1..][i].id != id {
          assert goals[1..][i] == goals[i + 1];
        }
      }
      RemoveGoalsAbsent(goals[1..], id);
      assert goals[0].id != id;
      assert [goals[0]] + goals[1..] == goals;
    }
  }

  /** The updater of `deleteGoal`: drop every goal with the id and its streak key. */
  function AfterDeleteGoal(s: AppState, id: string): (r: AppState)
    ensures GoalIds(r.goals) == GoalIds(s.goals) - {id}
    ensures r.streaks.Keys == s.streaks.Keys - {id}
    ensures r.progress == s.progress && r.hasSeenOnboarding == s.hasSeenOnboarding
  {
    s.(goals := RemoveGoals(s.goals, id), streaks := s.streaks - {id})
  }

  /** `deleteGoal` removes every goal with the id and the streak under it (so a
      following lookup finds nothing), keeps everything else, and is a no-op
      for an unknown id. */
  lemma DeleteGoalEffect(s: AppState, id: string)
    ensures var r := AfterDeleteGoal(s, id);
      && !HasGoal(r.goals, id)
      && (forall g :: g in r.goals <==> g in s.goals && g.id != id)
      && id !in r.streaks
      && (forall k :: k != id ==> (k in r.streaks <==> k in s.streaks))
      && (forall k :: k != id && k in s.streaks ==> r.streaks[k] == s.streaks[k])
      && r.progress == s.progress
      && r.hasSeenOnboarding == s.hasSeenOnboarding
      && (!HasGoal(s.goals, id) && id !in s.streaks ==> r == s)
  {
    if !HasGoal(s.goals, id) {
      RemoveGoalsAbsent(s.goals, id);
    }
  }

  lemma DeleteGoalPreservesValid(s: AppState, id: string)
    requires ValidState(s)
    ensures ValidState(AfterDeleteGoal(s, id))
  {
    var r := AfterDeleteGoal(s, id);
    assert GoalIds(r.goals) == GoalIds(s.goals) - {id} by {
      forall x | x in GoalIds(s.goals) - {id} ensures x in GoalIds(r.goals) {
        var h :| h in s.goals && h.id == x;
        assert h in r.goals;
      }
    }
  }

  // ---------------------------------------------------------------------------
  // markOnboardingComplete and getStreakForGoal
  // ---------------------------------------------------------------------------

  /** The updater of `markOnboardingComplete`. */
  function AfterMarkOnboardingComplete(s: AppState): (r: AppState)
    ensures r.hasSeenOnboarding
    ensures ValidState(r) <==> ValidState(s)
  {
    s.(hasSeenOnboarding := true)
  }

  /** Sets the flag, changes nothing else, and a second call changes nothing. */
  lemma MarkOnboardingCompleteEffect(s: AppState)
    ensures var r := AfterMarkOnboardingComplete(s);
      && r.hasSeenOnboarding
      && r.goals == s.goals && r.streaks == s.streaks && r.progress == s.progress
      && AfterMarkOnboardingComplete(r) == r
      && (ValidState(s) ==> ValidState(r))
  {
  }

  // ---------------------------------------------------------------------------
  // Reachable states
  // ---------------------------------------------------------------------------

  /** One call of a state-changing operation, with the values the source takes
      from the clock given explicitly. */
  datatype Action =
    | AddGoal(title: string, description: Option<string>, effort: EffortLevel,
              frequency: Frequency, id: string, createdAt: string)
    | CompleteGoal(goalId: string, today: string)
    | ResetGoalDaily(goalId: string)
    | DeleteGoal(goalId: string)
    | MarkOnboardingComplete

  function Apply(s: AppState, a: Action): AppState {
    match a
    case AddGoal(title, description, effort, frequency, id, createdAt) =>
      AfterAddGoal(s, NewGoal(title, description, effort, frequency, id, createdAt))
    case CompleteGoal(id, today) => AfterCompleteGoal(s, id, today)
    case ResetGoalDaily(id) => AfterResetGoalDaily(s, id)
    case DeleteGoal(id) => AfterDeleteGoal(s, id)
    case MarkOnboardingComplete => AfterMarkOnboardingComplete(s)
  }

  /** The state after the calls `actions`, in order, from `s`. */
  function Replay(s: AppState, actions: seq<Action>): AppState
    decreases |actions|
  {
    if actions == [] then s else Replay(Apply(s, actions[0]), actions[1..])
  }

  lemma ApplyPreservesValid(s: AppState, a: Action)
    requires ValidState(s)
    ensures ValidState(Apply(s, a))
  {
    match a
    case AddGoal(title, description, effort, frequency, id, createdAt) =>
      AddGoalPreservesValid(s, NewGoal(title, description, effort, frequency, id, createdAt));
    case CompleteGoal(id, today) => CompleteGoalPreservesValid(s, id, today);
    case ResetGoalDaily(id) => ResetGoalDailyPreservesValid(s, id);
    case DeleteGoal(id) => DeleteGoalPreservesValid(s, id);
    case MarkOnboardingComplete =>
  }

  /** Every state reachable from the seed state by the public operations keeps
      the invariant; in particular 0 <= current <= longest for every streak. */
  lemma {:induction false} ReachableStatesValid(createdAt: string, actions: seq<Action>)
    ensures ValidState(Replay(InitialState(createdAt), actions))
    ensures forall k :: k in Replay(InitialState(createdAt), actions).streaks ==>
      0 <= Replay(InitialState(createdAt), actions).streaks[k].currentStreak
        <= Replay(InitialState(createdAt), actions).streaks[k].longestStreak
  {
    ReplayPreservesValid(InitialState(createdAt), actions);
  }

  lemma {:induction false} ReplayPreservesValid(s: AppState, actions: seq<Action>)
    requires ValidState(s)
    ensures ValidState(Replay(s, actions))
    decreases |actions|
  {
    if actions != [] {
      ApplyPreservesValid(s, actions[0]);
      ReplayPreservesValid(Apply(s, actions[0]), actions[1..]);
    }
  }

  // ---------------------------------------------------------------------------
  // The store object
  // ---------------------------------------------------------------------------

  /** The hook's state, held by one object whose methods replace it. */
  class WorkTracker {
    var goals: seq<Goal>
    var streaks: map<string, Streak>
    var progress: seq<ProgressEntry>
    var hasSeenOnboarding: bool

    /** The state as one value. */
    function State(): AppState
      reads this
    {
      AppState(goals, streaks, progress, hasSeenOnboarding)
    }

    ghost predicate Valid()
      reads this
    {
      ValidState(State())
    }

    /** The store starts from `initialState` (loading a stored snapshot is not modelled). */
    constructor (createdAt: string)
      ensures State() == InitialState(createdAt)
      ensures Valid()
    {
      var s := InitialState(createdAt);
      goals, streaks, progress, hasSeenOnboarding := s.goals, s.streaks, s.progress, s.hasSeenOnboarding;
    }

    method AddGoal(title: string, description: Option<string>, effort: EffortLevel,
                   frequency: Frequency, id: string, createdAt: string) returns (g: Goal)
      modifies this
      ensures g == NewGoal(title, description, effort, frequency, id, createdAt)
      ensures State() == AfterAddGoal(old(State()), g)
      ensures old(Valid()) ==> Valid()
    {
      g := NewGoal(title, description, effort, frequency, id, createdAt);
      if Valid() {
        AddGoalPreservesValid(State(), g);
      }
      goals := goals + [g];
      streaks := streaks[g.id := ZeroStreak(g.id)];
    }

    /** Marks the goals with the id completed and, when a streak exists under
        the id, updates that streak field by field as the source does. */
    method CompleteGoal(goalId: string, today: string)
      modifies this
      ensures State() == AfterCompleteGoal(old(State()), goalId, today)
      ensures old(Valid()) ==> Valid()
    {
      if Valid() {
        CompleteGoalPreservesValid(State(), goalId, today);
      }
      var updatedGoals := CompleteMatching(goals, goalId, today);
      var updatedStreaks := streaks;
      if goalId in updatedStreaks {
        var streak := updatedStreaks[goalId];
        streak := streak.(currentStreak := streak.currentStreak + 1);
        if streak.currentStreak > streak.longestStreak {
          streak := streak.(longestStreak := streak.currentStreak);
        }
        streak := streak.(lastCompletedDate := Some(today));
        updatedStreaks := updatedStreaks[goalId := streak];
      }
      goals, streaks := updatedGoals, updatedStreaks;
    }

    method ResetGoalDaily(goalId: string)
      modifies this
      ensures State() == AfterResetGoalDaily(old(State()), goalId)
      ensures old(Valid()) ==> Valid()
    {
      if Valid() {
        ResetGoalDailyPreservesValid(State(), goalId);
      }
      goals := ResetMatching(goals, goalId);
    }

    method DeleteGoal(goalId: string)
      modifies this
      ensures State() == AfterDeleteGoal(old(State()), goalId)
      ensures old(Valid()) ==> Valid()
    {
      if Valid() {
        DeleteGoalPreservesValid(State(), goalId);
      }
      goals := RemoveGoals(goals, goalId);
      streaks := streaks - {goalId};
    }

    method MarkOnboardingComplete()
      modifies this
      ensures State() == AfterMarkOnboardingComplete(old(State()))
      ensures old(Valid()) ==> Valid()
    {
      hasSeenOnboarding := true;
    }

    /** The streak stored under the id, if any; in a valid state there is one
        exactly when a goal has the id, and it is a valid streak for that id. */
    function GetStreakForGoal(goalId: string): (r: Option<Streak>)
      reads this
      ensures r.Some? <==> goalId in streaks
      ensures r.Some? ==> r.value == streaks[goalId]
      ensures Valid() ==> (r.Some? <==> HasGoal(goals, goalId))
      ensures Valid() && r.Some? ==>
        r.value.goalId == goalId && 0 <= r.value.currentStreak <= r.value.longestStreak
    {
      if goalId in streaks then Some(streaks[goalId]) else None
    }
  }

  /** The seed scenario on values: complete goal "1" once, then delete goal "2". */
  lemma SeedScenarioState(createdAt: string, today: string)
    ensures var s := AfterDeleteGoal(AfterCompleteGoal(InitialState(createdAt), "1", today), "2");
      && |s.goals| == 1 && s.goals[0].id == "1" && s.goals[0].completedDates == [today]
      && s.streaks == map["1" := Streak("1", 1, 1, Some(today))]
  {
    var s0 := InitialState(createdAt);
    var a, b := s0.goals[0], s0.goals[1];
    assert s0.goals == [a, b];
    CompleteFirstOfTwo(a, b, today);
    var a' := MarkCompleted(a, today);
    DedupAppend([], today);
    assert [] + [today] == [today];
    RemoveSecondOfTwo(a', b);
    var z := BumpStreak(ZeroStreak("1"), today);
    assert z == Streak("1", 1, 1, Some(today));
    BumpFirstDropSecond(ZeroStreak("1"), ZeroStreak("2"), z);
  }

  lemma BumpFirstDropSecond(x: Streak, y: Streak, z: Streak)
    ensures map["1" := x, "2" := y]["1" := z] - {"2"} == map["1" := z]
  {
  }

  lemma CompleteFirstOfTwo(a: Goal, b: Goal, today: string)
    requires a.id == "1" && b.id == "2"
    ensures CompleteMatching([a, b], "1", today) == [MarkCompleted(a, today), b]
  {
  }

  lemma RemoveSecondOfTwo(a: Goal, b: Goal)
    requires a.id == "1" && b.id == "2"
    ensures RemoveGoals([a, b], "2") == [a]
  {
    assert [a, b][1..] == [b];
    assert [b][1..] == [];
  }

  /** The seed scenario on the object. */
  method SeedScenario(createdAt: string, today: string) returns (t: WorkTracker)
    ensures t.Valid()
    ensures |t.goals| == 1 && t.goals[0].id == "1"
    ensures t.goals[0].completedDates == [today]
    ensures t.GetStreakForGoal("1") == Some(Streak("1", 1, 1, Some(today)))
    ensures t.GetStreakForGoal("2") == None
  {
    t := new WorkTracker(createdAt);
    t.CompleteGoal("1", today);
    t.DeleteGoal("2");
    SeedScenarioState(createdAt, today);
  }
}
