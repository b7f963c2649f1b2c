/**
 * The derived calendar view (client/pages/Calendar.tsx): whether a goal was
 * completed on a date, the completion percentage of a date, its colour band,
 * and the `YYYY-MM-DD` key of a calendar cell. The component's `state.goals`
 * is passed in as `goals`.
 */
module Calendar {
  import opened Types

  // ---------------------------------------------------------------------------
  // isGoalCompletedOnDate
  // ---------------------------------------------------------------------------

  /** `i` is the position of the first goal with id `goalId`. */
  predicate FirstWithId(goals: seq<Goal>, goalId: string, i: int) {
    0 <= i < |goals| && goals[i].id == goalId &&
    forall j :: 0 <= j < i ==> goals[j].id != goalId
  }

  lemma FirstWithIdUnique(goals: seq<Goal>, goalId: string, i: int, k: int)
    requires FirstWithId(goals, goalId, i) && FirstWithId(goals, goalId, k)
    ensures i == k
  {
  }

  /** `goals.find(g => g.id === goalId)`: the first goal with the id, if any. */
  function FindGoal(goals: seq<Goal>, goalId: string): (r: Option<Goal>)
    ensures r.None? <==> forall i :: 0 <= i < |goals| ==> goals[i].id != goalId
    ensures r.Some? ==> exists i :: FirstWithId(goals, goalId, i) && goals[i] == r.value
  {
    if goals == [] then None
    else if goals[0].id == goalId then
      assert FirstWithId(goals, goalId, 0);
      Some(goals[0])
    else
      var r := FindGoal(goals[1..], goalId);
      assert r.None? ==> forall i :: 0 <= i < |goals| ==> goals[i].id != goalId by {
        if r.None? {
          forall i | 0 <= i < |goals| ensures goals[i].id != goalId {
            if i > 0 { assert goals[i] == goals[1..][i - 1]; }
          }
        }
      }
      assert r.Some? ==> exists i :: FirstWithId(goals, goalId, i) && goals[i] == r.value by {
        if r.Some? {
          var i :| FirstWithId(goals[1..], goalId, i) && goals[1..][i] == r.value;
          assert FirstWithId(goals, goalId, i + 1);
        }
      }
      r
  }

  /** `goal?.completedDates.includes(dateStr) || false`: false when no goal has
      the id, otherwise whether the first goal with the id lists the date. */
  function IsGoalCompletedOnDate(goals: seq<Goal>, goalId: string, dateStr: string): (r: bool)
    ensures (forall i :: 0 <= i < |goals| ==> goals[i].id != goalId) ==> !r
    ensures r <==> exists i :: FirstWithId(goals, goalId, i) && dateStr in goals[i].completedDates
  {
    var found := FindGoal(goals, goalId);
    assert found.Some? ==> forall i :: FirstWithId(goals, goalId, i) ==> goals[i] == found.value by {
      if found.Some? {
        var k :| FirstWithId(goals, goalId, k) && goals[k] == found.value;
        forall i | FirstWithId(goals, goalId, i) ensures goals[i] == found.value {
          FirstWithIdUnique(goals, goalId, i, k);
        }
      }
    }
    match found
    case None => false
    case Some(g) => dateStr in g.completedDates
  }

  // ---------------------------------------------------------------------------
  // getCompletionRateForDate
  // ---------------------------------------------------------------------------

  /** How many goals of `gs` pass `isGoalCompletedOnDate(g.id, dateStr)`, which
      looks the id up in the whole list `all`. */
  function CountCompleted(all: seq<Goal>, gs: seq<Goal>, dateStr: string): (c: nat)
    ensures c <= |gs|
  {
    if gs == [] then 0
    else (if IsGoalCompletedOnDate(all, gs[0].id, dateStr) then 1 else 0)
         + CountCompleted(all, gs[1..], dateStr)
  }

  /** `state.goals.filter(g => isGoalCompletedOnDate(g.id, dateStr)).length` */
  function CompletedCount(goals: seq<Goal>, dateStr: string): (c: nat)
    ensures c <= |goals|
  {
    CountCompleted(goals, goals, dateStr)
  }

  /**
   * `Math.round((count / total) * 100)` in exact integers: the percentage
   * rounded to the nearest integer, halves upwards, i.e. the integer `r` with
   * r - 1/2 <= 100 * count / total < r + 1/2.
   */
  function RoundedPercent(count: nat, total: nat): (r: int)
    requires total > 0
    ensures -(total as int) <= 2 * (100 * count - r * total) < total
  {
    (200 * count + total) / (2 * total)
  }

  /** The completion percentage of a date: 0 when there are no goals (no
      division), otherwise the rounded share of goals completed that day. */
  function CompletionRate(goals: seq<Goal>, dateStr: string): (r: int)
    ensures |goals| == 0 ==> r == 0
    ensures 0 <= r <= 100
  {
    var completedCount := CompletedCount(goals, dateStr);
    if |goals| > 0 then
      RoundedPercentBounds(completedCount, |goals|);
      RoundedPercent(completedCount, |goals|)
    else 0
  }

  /** A rounded share of at most the whole lies in 0..100. */
  lemma RoundedPercentBounds(count: nat, total: nat)
    requires 0 < total && count <= total
    ensures 0 <= RoundedPercent(count, total) <= 100
  {
    var r := RoundedPercent(count, total);
    if r > 100 {
      assert r * total >= 101 * total by { MulMonotone(101, r, total); }
    }
    if r < 0 {
      assert r * total <= -1 * total by { MulMonotone(r, -1, total); }
    }
  }

  lemma MulMonotone(a: int, b: int, n: nat)
    requires a <= b
    ensures a * n <= b * n
  {
    assert b * n - a * n == (b - a) * n;
  }

  /** The rounded percentage never decreases when the count grows. */
  lemma RoundedPercentMonotone(c1: nat, c2: nat, total: nat)
    requires 0 < total && c1 <= c2
    ensures RoundedPercent(c1, total) <= RoundedPercent(c2, total)
  {
    var r1, r2 := RoundedPercent(c1, total), RoundedPercent(c2, total);
    if r1 > r2 {
      MulMonotone(r2 + 1, r1, total);
      assert false;
    }
  }

  /** All goals counted gives exactly 100; none counted gives exactly 0. */
  lemma RoundedPercentEnds(total: nat)
    requires 0 < total
    ensures RoundedPercent(total, total) == 100
    ensures RoundedPercent(0, total) == 0
  {
    RoundedPercentBounds(total, total);
    RoundedPercentBounds(0, total);
    var r := RoundedPercent(total, total);
    if r < 100 {
      MulMonotone(r, 99, total);
    }
  }

  /** A percentage rounds to 0 exactly when fewer than one goal in 200 is done. */
  lemma RoundedPercentZero(count: nat, total: nat)
    requires 0 < total
    ensures RoundedPercent(count, total) == 0 <==> 200 * count < total
  {
    var r := RoundedPercent(count, total);
    if r != 0 && 200 * count < total {
      if r > 0 { MulMonotone(1, r, total); } else { MulMonotone(r, -1, total); }
    }
  }

  /** When every goal lists the date, every lookup by id finds a goal that lists it. */
  lemma {:induction false} CountCompletedAll(all: seq<Goal>, gs: seq<Goal>, dateStr: string)
    requires forall g :: g in all ==> dateStr in g.completedDates
    requires forall g :: g in gs ==> g in all
    ensures CountCompleted(all, gs, dateStr) == |gs|
  {
    if gs != [] {
      var g := gs[0];
      assert g in gs;
      var i :| 0 <= i < |all| && all[i] == g;
      assert all[i].id == g.id;
      var found := FindGoal(all, g.id);
      var k :| FirstWithId(all, g.id, k) && all[k] == found.value;
      assert all[k] in all;
      assert IsGoalCompletedOnDate(all, g.id, dateStr);
      assert forall h :: h in gs[1..] ==> h in gs;
      CountCompletedAll(all, gs[1..], dateStr);
    }
  }

  /** When no goal lists the date, no lookup by id finds one that does. */
  lemma {:induction false} CountCompletedNone(all: seq<Goal>, gs: seq<Goal>, dateStr: string)
    requires forall g :: g in all ==> dateStr !in g.completedDates
    ensures CountCompleted(all, gs, dateStr) == 0
  {
    if gs != [] {
      CountCompletedNone(all, gs[1..], dateStr);
    }
  }

  /** Every goal completed on the date gives 100; none gives 0. */
  lemma CompletionRateEnds(goals: seq<Goal>, dateStr: string)
    ensures (|goals| > 0 && forall g :: g in goals ==> dateStr in g.completedDates) ==>
      CompletionRate(goals, dateStr) == 100
    ensures (forall g :: g in goals ==> dateStr !in g.completedDates) ==>
      CompletionRate(goals, dateStr) == 0
  {
    if |goals| > 0 {
      RoundedPercentEnds(|goals|);
      if forall g :: g in goals ==> dateStr in g.completedDates {
        CountCompletedAll(goals, goals, dateStr);
      }
      if forall g :: g in goals ==> dateStr !in g.completedDates {
        CountCompletedNone(goals, goals, dateStr);
      }
    }
  }

  /** The number of goals whose own dates list `dateStr`: the count the view
      means, independent of lookups by id. */
  function ListedCount(gs: seq<Goal>, dateStr: string): nat {
    if gs == [] then 0
    else (if dateStr in gs[0].completedDates then 1 else 0) + ListedCount(gs[1..], dateStr)
  }

  /** No two goals share an id. */
  predicate UniqueIds(goals: seq<Goal>) {
    forall i, j :: 0 <= i < j < |goals| ==> goals[i].id != goals[j].id
  }

  /** With unique ids the lookup by id finds each goal itself, so the count is
      the number of goals listing the date. (With a reused id, a later goal
      with that id is judged by the first one's dates.) */
  lemma {:induction false} CompletedCountUniqueIds(goals: seq<Goal>, dateStr: string)
    requires UniqueIds(goals)
    ensures CompletedCount(goals, dateStr) == ListedCount(goals, dateStr)
  {
    CountSuffix(goals, 0, dateStr);
    assert goals[0..] == goals;
  }

  lemma {:induction false} CountSuffix(all: seq<Goal>, k: nat, dateStr: string)
    requires UniqueIds(all) && k <= |all|
    ensures CountCompleted(all, all[k..], dateStr) == ListedCount(all[k..], dateStr)
    decreases |all| - k
  {
    if k < |all| {
      assert FirstWithId(all, all[k].id, k);
      assert all[k..][0] == all[k];
      assert all[k..][1..] == all[k + 1..];
      CountSuffix(all, k + 1, dateStr);
    }
  }

  // ---------------------------------------------------------------------------
  // getCompletionColor
  // ---------------------------------------------------------------------------

  /** The four colour bands of a calendar cell, with the classes each sets. */
  datatype Band = Muted | Orange | Yellow | Emerald {
    /** The Tailwind colour name of the band. */
    function Hue(): string {
      match this
      case Muted => "muted"
      case Orange => "orange"
      case Yellow => "yellow"
      case Emerald => "emerald"
    }

    /** The Tailwind classes of the band: a background and a border class in
        the band's colour, with dark-mode variants except for the muted band. */
    function Classes(): (c: string)
      ensures |c| > 3 + |Hue()| && c[..3 + |Hue()|] == "bg-" + Hue()
    {
      var background := "bg-" + Hue();
      var rest := if this == Muted then " border-border"
        else "-100 border-" + Hue() + "-300 dark:bg-" + Hue() + "-900 dark:border-" + Hue() + "-700";
      assert (background + rest)[..|background|] == background;
      background + rest
    }

    /** Different bands are drawn with different classes. */
    lemma ClassesDistinct(other: Band)
      ensures Classes() == other.Classes() <==> this == other
    {
      if Classes() == other.Classes() {
        assert Classes()[3] == Hue()[0] && other.Classes()[3] == other.Hue()[0];
        if Hue()[0] == other.Hue()[0] {
          assert Classes()[4] == Hue()[1] && other.Classes()[4] == other.Hue()[1];
        }
      }
    }

    /** The bands in increasing order of completion. */
    function Rank(): nat {
      match this
      case Muted => 0
      case Orange => 1
      case Yellow => 2
      case Emerald => 3
    }
  }

  /** The if-chain of `getCompletionColor`. */
  function GetCompletionColor(percentage: int): (b: Band)
    ensures b == Muted <==> percentage == 0
    ensures b == Emerald <==> percentage >= 66
    ensures percentage < 0 ==> b == Orange
    ensures 0 < percentage < 33 ==> b == Orange
  {
    if percentage == 0 then Muted
    else if percentage < 33 then Orange
    else if percentage < 66 then Yellow
    else Emerald
  }

  /** On 0..100 the bands are: 0 muted, 1..32 orange, 33..65 yellow, 66.. emerald,
      and a higher percentage never gets a lower band. */
  lemma ColorBands(p: int, q: int)
    requires 0 <= p <= q <= 100
    ensures GetCompletionColor(p) == Muted <==> p == 0
    ensures GetCompletionColor(p) == Orange <==> 1 <= p <= 32
    ensures GetCompletionColor(p) == Yellow <==> 33 <= p <= 65
    ensures GetCompletionColor(p) == Emerald <==> 66 <= p
    ensures GetCompletionColor(p).Rank() <= GetCompletionColor(q).Rank()
  {
  }

  /** A date with goals is shown muted exactly when its percentage rounds to 0,
      i.e. when fewer than one goal in 200 was completed on it. */
  lemma MutedCell(goals: seq<Goal>, dateStr: string)
    requires |goals| > 0
    ensures GetCompletionColor(CompletionRate(goals, dateStr)) == Muted <==>
      200 * CompletedCount(goals, dateStr) < |goals|
  {
    RoundedPercentZero(CompletedCount(goals, dateStr), |goals|);
  }

  // ---------------------------------------------------------------------------
  // The date key of a calendar cell
  // ---------------------------------------------------------------------------

  predicate IsDigits(s: string) {
    forall i :: 0 <= i < |s| ==> '0' <= s[i] <= '9'
  }

  /** The number a string of decimal digits denotes. */
  function DigitsValue(s: string): nat
    requires IsDigits(s)
  {
    if s == [] then 0
    else DigitsValue(s[..|s| - 1]) * 10 + (s[|s| - 1] as int - '0' as int)
  }

  function DigitChar(d: nat): (c: char)
    requires d < 10
    ensures '0' <= c <= '9' && c as int - '0' as int == d
  {
    ('0' as int + d) as char
  }

  /** `String(n)` for a non-negative integer: its decimal digits, without
      leading zeros. */
  function DecimalString(n: nat): (s: string)
    ensures IsDigits(s) && DigitsValue(s) == n
    ensures |s| >= 1 && (s[0] == '0' ==> n == 0 && |s| == 1)
    ensures n < 10 ==> |s| == 1
    ensures 10 <= n < 100 ==> |s| == 2
    ensures 100 <= n < 1000 ==> |s| == 3
    ensures 1000 <= n < 10000 ==> |s| == 4
  {
    if n < 10 then [DigitChar(n)]
    else
      var prefix := DecimalString(n / 10);
      var s := prefix + [DigitChar(n % 10)];
      assert s[..|s| - 1] == prefix;
      s
  }

  /** `s.padStart(2, '0')`: strings shorter than two get leading zeros up to two. */
  function PadStart2(s: string): (r: string)
    ensures |s| >= 2 ==> r == s
    ensures |s| < 2 ==> |r| == 2 && r[2 - |s|..] == s && forall i :: 0 <= i < 2 - |s| ==> r[i] == '0'
  {
    if |s| >= 2 then s else seq(2 - |s|, _ => '0') + s
  }

  /** A field below 100 becomes exactly two digits denoting it. */
  lemma TwoDigitField(n: nat)
    requires n < 100
    ensures var p := PadStart2(DecimalString(n));
      |p| == 2 && IsDigits(p) && DigitsValue(p) == n && (n < 10 ==> p[0] == '0')
  {
    var p := PadStart2(DecimalString(n));
    if n < 10 {
      assert p == ['0', DigitChar(n)];
      assert p[..1] == ['0'];
      assert p[..1][..0] == [];
    }
  }

  /** Where the parts of `y-m-d` sit when the two fields have two characters each. */
  lemma KeyParts(y: string, m: string, d: string)
    requires |m| == 2 && |d| == 2
    ensures var k := y + "-" + m + "-" + d;
      && |k| == |y| + 6
      && k[..|y|] == y
      && k[|y|] == '-' && k[|y| + 3] == '-'
      && k[|y| + 1..|y| + 3] == m
      && k[|y| + 4..] == d
  {
  }

  /** The key of day `day` of month `monthIndex` (0-based, as `getMonth()`) of `year`. */
  function DateKey(year: nat, monthIndex: nat, day: nat): (k: string)
    ensures |k| >= |DecimalString(year)| + 6
    ensures k[..|DecimalString(year)|] == DecimalString(year)
    ensures k[|DecimalString(year)|] == '-'
  {
    var y := DecimalString(year);
    var m := PadStart2(DecimalString(monthIndex + 1));
    var d := PadStart2(DecimalString(day));
    assert |m| >= 2 && |d| >= 2;
    var k := y + "-" + m + "-" + d;
    assert k == y + ("-" + m + "-" + d);
    k
  }

  /** The key is the year's digits, '-', the two-character month field, '-',
      the two-character day field; a four-digit year gives the ten characters
      YYYY-MM-DD. */
  lemma DateKeyFormat(year: nat, monthIndex: nat, day: nat)
    requires monthIndex < 12 && 1 <= day <= 31
    ensures var k := DateKey(year, monthIndex, day);
      var n := |DecimalString(year)|;
      && |k| == n + 6
      && k[..n] == DecimalString(year)
      && k[n] == '-' && k[n + 3] == '-'
      && k[n + 1..n + 3] == PadStart2(DecimalString(monthIndex + 1))
      && k[n + 4..] == PadStart2(DecimalString(day))
      && (1000 <= year < 10000 ==> |k| == 10 && k[4] == '-' && k[7] == '-')
  {
    var y := DecimalString(year);
    var m := PadStart2(DecimalString(monthIndex + 1));
    var d := PadStart2(DecimalString(day));
    assert |m| == 2 && |d| == 2;
    KeyParts(y, m, d);
    assert DateKey(year, monthIndex, day) == y + "-" + m + "-" + d;
  }

  /** The month and day fields of the key are two digits that read back as the
      1-based month and the day. */
  lemma DateKeyFields(year: nat, monthIndex: nat, day: nat)
    requires monthIndex < 12 && 1 <= day <= 31
    ensures var k := DateKey(year, monthIndex, day);
      var n := |DecimalString(year)|;
      && |k| == n + 6
      && IsDigits(k[n + 1..n + 3]) && DigitsValue(k[n + 1..n + 3]) == monthIndex + 1
      && IsDigits(k[n + 4..]) && DigitsValue(k[n + 4..]) == day
  {
    DateKeyFormat(year, monthIndex, day);
    TwoDigitField(monthIndex + 1);
    TwoDigitField(day);
  }

  /** `y-m-d` with two-character fields splits back into its parts. */
  lemma KeyPartsInjective(y1: string, m1: string, d1: string, y2: string, m2: string, d2: string)
    requires |m1| == 2 && |d1| == 2 && |m2| == 2 && |d2| == 2
    requires y1 + "-" + m1 + "-" + d1 == y2 + "-" + m2 + "-" + d2
    ensures y1 == y2 && m1 == m2 && d1 == d2
  {
    KeyParts(y1, m1, d1);
    KeyParts(y2, m2, d2);
  }

  /** Two days get the same key exactly when they are the same day. */
  lemma DateKeyInjective(y1: nat, m1: nat, d1: nat, y2: nat, m2: nat, d2: nat)
    requires m1 < 12 && 1 <= d1 <= 31 && m2 < 12 && 1 <= d2 <= 31
    ensures DateKey(y1, m1, d1) == DateKey(y2, m2, d2) <==> y1 == y2 && m1 == m2 && d1 == d2
  {
    if DateKey(y1, m1, d1) != DateKey(y2, m2, d2) {
      return;
    }
    var a, b := DecimalString(y1), DecimalString(y2);
    var ma, mb := PadStart2(DecimalString(m1 + 1)), PadStart2(DecimalString(m2 + 1));
    var da, db := PadStart2(DecimalString(d1)), PadStart2(DecimalString(d2));
    TwoDigitField(m1 + 1);
    TwoDigitField(m2 + 1);
    TwoDigitField(d1);
    TwoDigitField(d2);
    KeyPartsInjective(a, ma, da, b, mb, db);
  }
}
