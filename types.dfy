/**
 * The record shapes shared by the store, the calendar and the quote selector
 * (shared/types.ts). Every field that the source marks optional is an Option;
 * every string-literal union is a datatype with one constructor per literal.
 */
module Types {

  /** An optional field: absent (`undefined`) or present. */
  datatype Option<T> = None | Some(value: T)

  /** 'light' | 'medium' | 'heavy' */
  datatype EffortLevel = Light | Medium | Heavy

  /** 'once' | 'daily' | 'weekly' */
  datatype Frequency = Once | Daily | Weekly

  /** A trackable goal. `completedDates` holds `YYYY-MM-DD` keys. */
  datatype Goal = Goal(
    id: string,
    title: string,
    description: Option<string>,
    effort: EffortLevel,
    frequency: Frequency,
    createdAt: string,
    completed: bool,
    completedDates: seq<string>)

  /** The streak record of one goal; it carries its own goal id. */
  datatype Streak = Streak(
    goalId: string,
    currentStreak: int,
    longestStreak: int,
    lastCompletedDate: Option<string>)

  /** A per-date aggregate; declared by the source but never filled in. */
  datatype ProgressEntry = ProgressEntry(date: string, goalsCompleted: int, totalGoals: int)

  /** The whole application state: exactly these four parts. */
  datatype AppState = AppState(
    goals: seq<Goal>,
    streaks: map<string, Streak>,
    progress: seq<ProgressEntry>,
    hasSeenOnboarding: bool)

  datatype MotivationalQuote = MotivationalQuote(text: string, author: string)

  /** The string literal that stands for an effort level in the stored JSON. */
  function EffortLevelName(e: EffortLevel): (s: string)
    ensures s in {"light", "medium", "heavy"}
  {
    match e
    case Light => "light"
    case Medium => "medium"
    case Heavy => "heavy"
  }

  /** The string literal that stands for a frequency in the stored JSON. */
  function FrequencyName(f: Frequency): (s: string)
    ensures s in {"once", "daily", "weekly"}
  {
    match f
    case Once => "once"
    case Daily => "daily"
    case Weekly => "weekly"
  }

  /** The three effort literals name three distinct levels. */
  lemma EffortLevelNamesDistinct(a: EffortLevel, b: EffortLevel)
    ensures EffortLevelName(a) == EffortLevelName(b) <==> a == b
  {
  }

  /** The three frequency literals name three distinct frequencies. */
  lemma FrequencyNamesDistinct(a: Frequency, b: Frequency)
    ensures FrequencyName(a) == FrequencyName(b) <==> a == b
  {
  }
}
