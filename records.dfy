/** The record stored under each short key, the clock, and the shape of an
    expiration date. */
module Records {
  import opened Base62

  /** An instant, in nanoseconds since Go's zero time `time.Time{}`
      (January 1 of year 1, 00:00:00 UTC). */
  type Instant = int

  /** The zero `time.Time`, which a declared-but-unassigned `time.Time` holds. */
  const ZeroTime: Instant := 0

  /** The default lifetime, `AddDate(0, 0, 7)`, as a fixed duration. */
  const SevenDays: Instant := 7 * 24 * 60 * 60 * 1_000_000_000

  /** `URLData`: the value stored in the `urls` bucket under a short key. */
  datatype URLData = URLData(OriginalURL: string, ExpiresAt: Instant, Clicks: nat)

  /** `time.Now().After(urlData.ExpiresAt)`: strictly after the expiry. */
  predicate IsExpired(rec: URLData, now: Instant)
  {
    now > rec.ExpiresAt
  }

  /** The record after one more visit: `urlData.Clicks++`. */
  function Clicked(rec: URLData): URLData
  {
    rec.(Clicks := rec.Clicks + 1)
  }

  /** The accepted expiration format, layout "2006-01-02": four digits, a
      dash, two digits, a dash, two digits and nothing else. */
  predicate ValidDate(s: string)
  {
    && |s| == 10
    && s[4] == '-' && s[7] == '-'
    && forall i :: 0 <= i < 10 && i != 4 && i != 7 ==> IsDigit(s[i])
  }

  /** A well-formed date is accepted; a word and the empty string are refused. */
  lemma ValidDateExamples()
    ensures ValidDate("2099-01-01")
    ensures !ValidDate("not-a-date")
    ensures !ValidDate("")
  {
  }
}
