/**
 * The daily quote selector (client/lib/quotes.ts): a fixed list of twelve
 * quotes, indexed by the day of the year modulo the list's length. The clock
 * is not read: the input is the number of milliseconds from local midnight of
 * "January 0" (December 31 of the previous year) to now, which is never
 * negative.
 */
module Quotes {
  import opened Types

  const MsPerDay: nat := 86400000

  /** `motivationalQuotes`, in order. */
  const MotivationalQuotes: seq<MotivationalQuote> := [
    MotivationalQuote("The only way to do great work is to love what you do.", "Steve Jobs"),
    MotivationalQuote("Don't watch the clock; do what it does. Keep going.", "Sam Levenson"),
    MotivationalQuote("The future depends on what you do today.", "Mahatma Gandhi"),
    MotivationalQuote("Success is the sum of small efforts repeated day in and day out.", "Robert Collier"),
    MotivationalQuote("You don't have to be great to start, but you have to start to be great.", "Zig Ziglar"),
    MotivationalQuote("The only person you are destined to become is the person you decide to be.", "Ralph Waldo Emerson"),
    MotivationalQuote("Do something today that your future self will thank you for.", "Sean Patrick Flanery"),
    MotivationalQuote("Your limitation\U{2014}it's only your imagination. Push beyond it.", "Unknown"),
    MotivationalQuote("Excellence is not a destination; it is a continuous journey that never ends.", "Brian Tracy"),
    MotivationalQuote("The key to success is to focus on goals, not obstacles.", "Stephen Richards"),
    MotivationalQuote("Every accomplishment starts with the decision to try.", "John F. Kennedy"),
    MotivationalQuote("You are never too old to set another goal or to dream a new dream.", "C.S. Lewis")
  ]

  /** `Math.floor(ms / 86400000)`: the number of whole days since January 0,
      so every instant of January 1 gives 1. */
  function DayOfYear(msSinceJan0: nat): (d: nat)
    ensures d * MsPerDay <= msSinceJan0 < (d + 1) * MsPerDay
  {
    msSinceJan0 / MsPerDay
  }

  /** `dayOfYear % motivationalQuotes.length` */
  function QuoteIndex(dayOfYear: nat): (i: nat)
    ensures i < |MotivationalQuotes|
    ensures (dayOfYear - i) % |MotivationalQuotes| == 0
  {
    dayOfYear % |MotivationalQuotes|
  }

  /** The quote of the day: always an entry of the list, fixed by the day. */
  function GetDailyQuote(msSinceJan0: nat): (q: MotivationalQuote)
    ensures q in MotivationalQuotes
  {
    MotivationalQuotes[QuoteIndex(DayOfYear(msSinceJan0))]
  }

  /** The list holds twelve quotes. */
  lemma QuoteListLength()
    ensures |MotivationalQuotes| == 12
  {
  }

  /** Two instants of the same day get the same quote. */
  lemma SameDaySameQuote(a: nat, b: nat)
    requires DayOfYear(a) == DayOfYear(b)
    ensures GetDailyQuote(a) == GetDailyQuote(b)
  {
  }

  /** Days `d` and `d + 12` share a quote; the next day takes the next quote,
      wrapping from the last to the first. */
  lemma QuoteCycle(d: nat)
    ensures QuoteIndex(d + 12) == QuoteIndex(d)
    ensures QuoteIndex(d + 1) == (QuoteIndex(d) + 1) % 12
  {
    QuoteListLength();
    var q, r := d / 12, d % 12;
    assert d == 12 * q + r;
    assert d + 12 == 12 * (q + 1) + r;
    if r < 11 {
      assert d + 1 == 12 * q + (r + 1);
    } else {
      assert d + 1 == 12 * (q + 1) + 0;
    }
  }

  /** Any twelve consecutive days show every quote of the list. */
  lemma TwelveDaysShowEveryQuote(d: nat, k: nat)
    requires k < 12
    ensures exists day :: d <= day < d + 12 && QuoteIndex(day) == k
  {
    QuoteListLength();
    var r := d % 12;
    var j := if r <= k then k - r else k + 12 - r;
    assert d - r == 12 * (d / 12);
    assert d + j == 12 * (d / 12) + k || d + j == 12 * (d / 12 + 1) + k;
    assert QuoteIndex(d + j) == k;
  }

  /** Any instant of January 1 is day 1 and shows the second quote. */
  lemma JanuaryFirst(msSinceJan0: nat)
    requires MsPerDay <= msSinceJan0 < 2 * MsPerDay
    ensures DayOfYear(msSinceJan0) == 1
    ensures GetDailyQuote(msSinceJan0) == MotivationalQuotes[1]
  {
    var d := DayOfYear(msSinceJan0);
    assert d == 1;
    QuoteListLength();
    assert QuoteIndex(d) == 1;
  }
}
