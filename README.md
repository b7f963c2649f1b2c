# Work tracker: goal/streak store, calendar view and daily quote, in Dafny

This project models the core of a client-only habit tracker. Users create goals, mark them done each day, and see streaks, a calendar heat-map of completions and a motivational quote of the day.

- `types.dfy` (module `Types`): the shared record shapes. These are `Goal`, `Streak`, `ProgressEntry`, `AppState` and `MotivationalQuote`, plus the effort and frequency enumerations. Optional fields become `Option`.
- `store.dfy` (module `WorkTrackerState`): the state hook. Each operation of the hook passes `setState` an updater `prev => next`. Here each updater is a pure function: `AfterAddGoal`, `AfterCompleteGoal`, `AfterResetGoalDaily`, `AfterDeleteGoal` and `AfterMarkOnboardingComplete`. The class `WorkTracker` holds the four parts of the state as fields. Its methods replace them, and each method is proved to produce exactly what its updater produces. `completeGoal` updates the streak field by field, as the source does. The state invariant `ValidState` says four things:
  - the streak keys are exactly the goal ids (no orphan streaks);
  - every streak's `goalId` equals its key;
  - every streak has `0 <= currentStreak <= longestStreak`;
  - no goal lists a date twice.

  `ReachableStatesValid` proves the invariant for every sequence of operations starting from the seed state.
- `calendar.dfy` (module `Calendar`): the calendar's derived view. It covers:
  - whether a goal was completed on a date;
  - the completion percentage of a date, with `Math.round` done exactly in integers as round-half-up `(200*count + total) div (2*total)`;
  - the four colour bands;
  - the `YYYY-MM-DD` cell key.
- `quotes.dfy` (module `Quotes`): the twelve quotes, and the choice of one by whole days since January 0, modulo 12.

The clock is never read. The new goal's id, its creation time, "today" and the milliseconds since January 0 are all parameters.

Behaviour that the model keeps on purpose:
- The streak is naive. `completeGoal` adds one to the current streak on every call, with no check for gaps between days. Two calls on the same day add two, even though the date is recorded only once (`CompleteTimesStreak`, `CompleteTimesGoals`). The help page says a missed day resets the streak (client/pages/HowItWorks.tsx:193), but the store never does that; the model follows the store.
- `addGoal` does not check whether the id is already in use. A reused id appends a second goal with that id and resets the existing streak to zero (`AddGoalReusedId`).
- The calendar judges each goal by the dates of the FIRST goal with its id. So with a reused id, a later goal is counted by the earlier goal's dates. With unique ids, the count is simply the number of goals that list the date (`CompletedCountUniqueIds`).
- The help page says green means 100% (client/pages/HowItWorks.tsx:46). The code makes the emerald band start at 66% (client/pages/Calendar.tsx:31); the model follows the code.

## Model

| member | source | states |
|---|---|---|
| `Types.EffortLevelName` | shared/types.ts:1 | an effort level is written as one of the literals light, medium, heavy |
| `Types.EffortLevelNamesDistinct` | shared/types.ts:1 | distinct effort levels have distinct literals |
| `Types.FrequencyName` | shared/types.ts:8 | a frequency is written as one of the literals once, daily, weekly |
| `Types.FrequencyNamesDistinct` | shared/types.ts:8 | distinct frequencies have distinct literals |
| `WorkTrackerState.Dedup` | client/hooks/useWorkTrackerState.ts:88 | `[...new Set(s)]` has no repetitions and the same elements as `s`, and it returns `s` itself when `s` has no repetitions |
| `WorkTrackerState.DedupAppend` | client/hooks/useWorkTrackerState.ts:88 | for a date list without repetitions, adding today and de-duplicating appends today exactly when it was absent |
| `WorkTrackerState.InitialState` | client/hooks/useWorkTrackerState.ts:6-35 | the seed state has two goals with ids 1 and 2, not completed and with no dates; a zero streak with no last date under exactly those ids; no progress; onboarding not seen; and it satisfies the state invariant |
| `WorkTrackerState.NewGoal` | client/hooks/useWorkTrackerState.ts:62-68 | the new goal keeps the caller's title, description, effort and frequency, takes the given id and creation time, is not completed and lists no dates |
| `WorkTrackerState.AfterAddGoal` | client/hooks/useWorkTrackerState.ts:69-76 | the addGoal updater: the goal ids and the streak keys both grow by the new id, the new goal is last, and progress and the onboarding flag are kept |
| `WorkTrackerState.AddGoalEffect` | client/hooks/useWorkTrackerState.ts:69-76 | addGoal appends exactly one goal after the unchanged earlier ones, puts the streak {id, 0, 0} under its id, and leaves other streaks, progress and the onboarding flag alone |
| `WorkTrackerState.AddGoalFreshId` | client/hooks/useWorkTrackerState.ts:64-71 | with an unused id, the appended goal is the only goal with that id |
| `WorkTrackerState.AddGoalReusedId` | client/hooks/useWorkTrackerState.ts:64-75 | with a reused id, two goals carry the id and the old streak is replaced by a zero streak |
| `WorkTrackerState.AddGoalPreservesValid` | client/hooks/useWorkTrackerState.ts:62-75 | adding a goal with no dates keeps the state invariant (ids and streak keys grow together) |
| `WorkTrackerState.AddGoalsEffect` | client/hooks/useWorkTrackerState.ts:69-76 | after any run of addGoal calls, the goal list is the old list followed by the added goals in call order, and each added id has a zero streak |
| `WorkTrackerState.MarkCompleted` | client/hooks/useWorkTrackerState.ts:84-89 | a completed goal is marked completed, lists today, lists no date twice, lists exactly its old dates plus today, and keeps every other field |
| `WorkTrackerState.CompleteMatching` | client/hooks/useWorkTrackerState.ts:83-92 | the mapped list has the same length and ids; goals with another id are unchanged, and each goal with the id is completed and lists today |
| `WorkTrackerState.BumpStreak` | client/hooks/useWorkTrackerState.ts:95-101 | the streak keeps its goal id, its current count goes up by exactly 1, its longest is at least both the new current and the old longest and equals one of them, and its last date is today |
| `WorkTrackerState.AfterCompleteGoal` | client/hooks/useWorkTrackerState.ts:82-109 | the completeGoal updater keeps the set of goal ids, the set of streak keys, progress and the onboarding flag |
| `WorkTrackerState.CompleteGoalGoals` | client/hooks/useWorkTrackerState.ts:83-92 | completeGoal marks every goal with the id completed and leaves its other fields unchanged; today is then listed exactly once, and a repetition-free date list gains today only if absent; other goals are untouched |
| `WorkTrackerState.CompleteGoalStreaks` | client/hooks/useWorkTrackerState.ts:94-102 | the streak under the id goes up by exactly 1, its longest becomes max(old longest, new current), and its last date becomes today; no other streak and no key changes |
| `WorkTrackerState.CompleteUnknownGoal` | client/hooks/useWorkTrackerState.ts:83-102 | completeGoal for an id with no goal and no streak leaves the state unchanged |
| `WorkTrackerState.CompleteGoalPreservesValid` | client/hooks/useWorkTrackerState.ts:83-102 | completeGoal keeps the state invariant, in particular 0 <= current <= longest |
| `WorkTrackerState.CompleteTimesStreak` | client/hooks/useWorkTrackerState.ts:94-101 | n completions add exactly n to the current streak, and the longest is the running maximum |
| `WorkTrackerState.CompleteGoalTwiceSameDay` | client/hooks/useWorkTrackerState.ts:83-92 | a second completion on the same day leaves the goal list as the first one left it |
| `WorkTrackerState.CompleteTimesGoals` | client/hooks/useWorkTrackerState.ts:83-92 | n >= 1 completions on one day change the goals exactly as one completion does, so the dates gain at most one entry |
| `WorkTrackerState.CompleteTimesFromZero` | client/hooks/useWorkTrackerState.ts:94-101 | from a zero streak, n completions give current = longest = n |
| `WorkTrackerState.ResetMatching` | client/hooks/useWorkTrackerState.ts:115 | the mapped list has the same length, ids and dates; a goal is completed afterwards exactly when it was completed before and has another id |
| `WorkTrackerState.AfterResetGoalDaily` | client/hooks/useWorkTrackerState.ts:112-117 | the resetGoalDaily updater keeps the goal ids, leaves no goal with the id completed, and keeps streaks, progress and the onboarding flag |
| `WorkTrackerState.ResetGoalDailyEffect` | client/hooks/useWorkTrackerState.ts:112-117 | resetGoalDaily only clears `completed` on the goals with the id; order, dates, streaks, progress and the onboarding flag are unchanged |
| `WorkTrackerState.ResetGoalDailyPreservesValid` | client/hooks/useWorkTrackerState.ts:112-117 | resetGoalDaily keeps the state invariant |
| `WorkTrackerState.RemoveGoals` | client/hooks/useWorkTrackerState.ts:124 | the filtered list holds exactly the goals whose id differs, and is no longer than the input |
| `WorkTrackerState.RemoveGoalsAppend` | client/hooks/useWorkTrackerState.ts:124 | filtering a concatenation filters each part, so the kept goals keep their relative order |
| `WorkTrackerState.RemoveGoalsAbsent` | client/hooks/useWorkTrackerState.ts:124 | filtering by an id no goal has returns the list unchanged |
| `WorkTrackerState.AfterDeleteGoal` | client/hooks/useWorkTrackerState.ts:119-128 | the deleteGoal updater removes the id from the goal ids and from the streak keys, and keeps progress and the onboarding flag |
| `WorkTrackerState.DeleteGoalEffect` | client/hooks/useWorkTrackerState.ts:119-128 | deleteGoal leaves no goal and no streak key with the id and changes nothing else; for an unknown id it is a no-op |
| `WorkTrackerState.DeleteGoalPreservesValid` | client/hooks/useWorkTrackerState.ts:119-128 | deleteGoal keeps the state invariant: the goal and its streak go together |
| `WorkTrackerState.AfterMarkOnboardingComplete` | client/hooks/useWorkTrackerState.ts:130-135 | the markOnboardingComplete updater sets the flag, and the result satisfies the state invariant exactly when the input does |
| `WorkTrackerState.MarkOnboardingCompleteEffect` | client/hooks/useWorkTrackerState.ts:130-135 | the flag becomes true, nothing else changes, a second call changes nothing, and the invariant is kept |
| `WorkTrackerState.ApplyPreservesValid` | client/hooks/useWorkTrackerState.ts:61-135 | every state-changing operation keeps the state invariant |
| `WorkTrackerState.ReplayPreservesValid` | client/hooks/useWorkTrackerState.ts:61-135 | any sequence of operations keeps the state invariant |
| `WorkTrackerState.ReachableStatesValid` | client/hooks/useWorkTrackerState.ts:30-31 | every state reachable from the seed state has 0 <= current <= longest for every streak, and satisfies the whole invariant |
| `WorkTrackerState.WorkTracker.constructor` | client/hooks/useWorkTrackerState.ts:38 | the store starts in the seed state, which satisfies the invariant |
| `WorkTrackerState.WorkTracker.AddGoal` | client/hooks/useWorkTrackerState.ts:61-78 | returns the new goal (not completed, no dates, the given id and time), the state becomes the addGoal update, and the invariant is kept |
| `WorkTrackerState.WorkTracker.CompleteGoal` | client/hooks/useWorkTrackerState.ts:80-110 | the field-by-field streak update yields exactly the completeGoal update (increment, running maximum, last date), and the invariant is kept |
| `WorkTrackerState.WorkTracker.ResetGoalDaily` | client/hooks/useWorkTrackerState.ts:112-117 | the state becomes the resetGoalDaily update, and the invariant is kept |
| `WorkTrackerState.WorkTracker.DeleteGoal` | client/hooks/useWorkTrackerState.ts:119-128 | the state becomes the deleteGoal update, and the invariant is kept |
| `WorkTrackerState.WorkTracker.MarkOnboardingComplete` | client/hooks/useWorkTrackerState.ts:130-135 | the state becomes the markOnboardingComplete update, and the invariant is kept |
| `WorkTrackerState.WorkTracker.GetStreakForGoal` | client/hooks/useWorkTrackerState.ts:137-139 | returns the stored streak or nothing; in a valid state it returns a streak exactly when a goal has the id, and that streak names the id and has 0 <= current <= longest |
| `WorkTrackerState.SeedScenarioState` | client/hooks/useWorkTrackerState.ts:80-128 | on values: from the seed, completing goal 1 then deleting goal 2 leaves the single goal 1 listing today once, and the single streak {1, 1, 1, today} |
| `WorkTrackerState.SeedScenario` | client/hooks/useWorkTrackerState.ts:80-128 | from the seed, completing goal 1 then deleting goal 2 leaves one goal, listing today once, with streak {1, 1, 1, today}; goal 2 has no streak |
| `Calendar.FindGoal` | client/pages/Calendar.tsx:18 | `find` returns nothing exactly when no goal has the id, and otherwise returns the first goal with the id |
| `Calendar.IsGoalCompletedOnDate` | client/pages/Calendar.tsx:17-20 | false when no goal has the id; otherwise true exactly when the first goal with the id lists the date |
| `Calendar.CountCompleted` | client/pages/Calendar.tsx:23 | the filtered count never exceeds the number of goals filtered |
| `Calendar.CompletedCount` | client/pages/Calendar.tsx:23 | the number of goals completed on a date is at most the number of goals |
| `Calendar.RoundedPercent` | client/pages/Calendar.tsx:24 | the result r is 100*count/total rounded half up: r - 1/2 <= 100*count/total < r + 1/2 |
| `Calendar.CompletionRate` | client/pages/Calendar.tsx:22-25 | 0 when there are no goals (no division), and always within 0..100 |
| `Calendar.RoundedPercentBounds` | client/pages/Calendar.tsx:24 | a share of at most the whole rounds to a value in 0..100 |
| `Calendar.RoundedPercentMonotone` | client/pages/Calendar.tsx:24 | the percentage never decreases as the completed count grows |
| `Calendar.RoundedPercentEnds` | client/pages/Calendar.tsx:24 | all goals completed gives exactly 100, none gives exactly 0 |
| `Calendar.RoundedPercentZero` | client/pages/Calendar.tsx:24 | the percentage is 0 exactly when 200*count < total |
| `Calendar.CountCompletedAll` | client/pages/Calendar.tsx:23 | when every goal lists the date, every goal passes the filter |
| `Calendar.CountCompletedNone` | client/pages/Calendar.tsx:23 | when no goal lists the date, no goal passes the filter |
| `Calendar.CompletionRateEnds` | client/pages/Calendar.tsx:22-24 | the rate is 100 when every goal (of at least one) lists the date, and 0 when none does |
| `Calendar.CompletedCountUniqueIds` | client/pages/Calendar.tsx:17-23 | with unique ids, the filtered count equals the number of goals whose own dates list the date |
| `Calendar.Band.Classes` | client/pages/Calendar.tsx:28-31 | each band's classes start with the background class `bg-` followed by the band's colour name |
| `Calendar.Band.ClassesDistinct` | client/pages/Calendar.tsx:28-31 | different bands get different class strings |
| `Calendar.GetCompletionColor` | client/pages/Calendar.tsx:27-32 | the band is muted exactly for 0 and emerald exactly from 66 up; every other value below 33, negative ones included, is orange |
| `Calendar.ColorBands` | client/pages/Calendar.tsx:27-32 | on 0..100: 0 is muted, 1..32 orange, 33..65 yellow, 66 and above emerald, and a higher percentage never gets a lower band |
| `Calendar.MutedCell` | client/pages/Calendar.tsx:24-28 | a date with goals is shown muted exactly when 200*count < number of goals |
| `Calendar.DecimalString` | client/pages/Calendar.tsx:110 | `String(n)` is a digit string without leading zeros that denotes n, with 1, 2, 3 or 4 digits for n below 10, 100, 1000, 10000 |
| `Calendar.PadStart2` | client/pages/Calendar.tsx:110 | `padStart(2, '0')` leaves strings of length >= 2 alone and left-fills shorter ones with '0' to length 2 |
| `Calendar.TwoDigitField` | client/pages/Calendar.tsx:110 | a month or day below 100 becomes exactly two digits denoting it, with a leading '0' below 10 |
| `Calendar.DateKey` | client/pages/Calendar.tsx:110 | the key starts with the digits of the year followed by '-', and has at least six more characters |
| `Calendar.DateKeyFormat` | client/pages/Calendar.tsx:110 | the key is laid out as the year's digits, '-', the padded 1-based month, '-', the padded day; a four-digit year gives the 10-character YYYY-MM-DD shape |
| `Calendar.DateKeyFields` | client/pages/Calendar.tsx:110 | the month and day fields of the key are two digits that read back as the 1-based month and the day |
| `Calendar.DateKeyInjective` | client/pages/Calendar.tsx:110 | two days in range get the same key exactly when they are the same day |
| `Quotes.QuoteListLength` | client/lib/quotes.ts:3-52 | the quote list (the constant `MotivationalQuotes`, text and author of each entry as in the source, in order) has exactly 12 entries |
| `Quotes.DayOfYear` | client/lib/quotes.ts:56 | the day of the year is the floor of the milliseconds since January 0 divided by 86400000 |
| `Quotes.QuoteIndex` | client/lib/quotes.ts:57 | the index is always a valid position in the list and is congruent to the day modulo the list length |
| `Quotes.GetDailyQuote` | client/lib/quotes.ts:54-58 | the quote of the day is always an entry of the list |
| `Quotes.SameDaySameQuote` | client/lib/quotes.ts:56-57 | two instants of the same day get the same quote |
| `Quotes.QuoteCycle` | client/lib/quotes.ts:57 | day-of-year numbers d and d+12 share a quote, and day number d+1 takes the index after d's, modulo 12 |
| `Quotes.TwelveDaysShowEveryQuote` | client/lib/quotes.ts:57 | any twelve consecutive day-of-year numbers show every quote |
| `Quotes.JanuaryFirst` | client/lib/quotes.ts:56-57 | every instant of January 1 is day 1 and shows the second quote |

## Left out

- Loading the state from `localStorage`, saving it on every change, and the JSON parse/stringify round trip (client/hooks/useWorkTrackerState.ts:42-59). These are browser I/O and library calls. The store starts from the seed state instead.
- Clock reads. `Date.now()` ids, `toISOString()` dates and "today", `getTime()`, and the local-time construction of January 0 are parameters instead. Nothing ties "today" to the calendar's `DateKey`: one is UTC, the other local time.
- `getDaysInMonth` and `getFirstDayOfMonth` (client/pages/Calendar.tsx:9-15). They are `Date` arithmetic for laying out the grid.
- React plumbing: `useState`, `useEffect` and `isLoaded`. Each mount of the hook has its own state (Calendar, Goals and Dashboard each mount one); the model has one store.
- Aliasing of streak objects. The map copy at client/hooks/useWorkTrackerState.ts:94 is shallow, so lines 97-101 mutate the streak object that the previous state shares. Two cases are affected. When React calls an updater twice, the streak is bumped twice. On a fresh install the state is the module-level `initialState` object (line 38), so the first `completeGoal` bumps the seed streak inside `initialState` itself. Every later mount then shows that bumped streak beside seed goals with no dates until its load effect runs. The model's streaks are values: one increment per call, and the seed state is never changed.
- Streak keys as JavaScript object properties. Lines 95 and 138 look a streak up by plain property access. For an absent key such as `constructor` or `__proto__`, that returns an object inherited from `Object.prototype`, and `completeGoal` would write counters onto it. The model treats ids as plain map keys, where an absent key has no streak. Ids made by `addGoal` are digit strings, so reachable states do not depend on this.
- The `|| 0` fallbacks at client/hooks/useWorkTrackerState.ts:97-98. They only matter for a missing or non-numeric counter. In the model, counters are always integers, so the fallback never applies.
- `WorkTrackerState.InitialState`: both seed goals get the same `createdAt`. The source reads the clock once per goal.
- `Calendar.RoundedPercent`: computes the exact rational rounding. The floating-point error of `(c / n) * 100` before `Math.round` is not modelled.
- `Calendar.DateKey`: the year is a natural number. Negative years, which `String` would print with a minus sign, are not modelled.
- `Quotes.DayOfYear`: the millisecond offset is a natural number. In the source, the current instant is never before January 0 of its own year.
- Day numbers versus calendar days. `QuoteCycle` and `TwelveDaysShowEveryQuote` are about consecutive day-of-year numbers. The day number restarts at 1 on January 1 (client/lib/quotes.ts:56): December 31 gives index 5 (6 in a leap year) and January 1 gives 1. So twelve calendar days that span New Year miss some quotes (indices 7 to 11 after a common year). After a daylight-saving change in local time, the offset is no longer a whole number of 24-hour days. So in the hour after midnight of a date, that date can get the previous date's day number. The model takes the offset as given and does not model either effect.
- Presentation files are not modelled: client/pages/Dashboard.tsx, client/pages/Goals.tsx, client/pages/HowItWorks.tsx and client/components/Layout.tsx. This includes Dashboard's completion percentage, which has no zero guard, and Goals' check that a title is not blank before `addGoal` is called. The store itself accepts any title.
- `ProgressEntry` is declared and kept in the state, but no operation reads or writes it. The lemmas only show that every operation leaves it unchanged.
