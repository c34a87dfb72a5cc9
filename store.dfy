/** The mapping service: the `urls` bucket as a table from short key to
    record, and the decisions of the two handlers that read and write it,
    each handler taken as one atomic step. */
module Store {
  import opened Base62
  import opened Records

  datatype Result<T, E> = Ok(value: T) | Err(error: E)

  /** The refusals of `shortenURL`, in the order it checks for them. */
  datatype ShortenError =
    | URLRequired        // "URL is required"
    | CustomKeyExists    // "Custom key already exists"
    | InvalidDateFormat  // "Invalid date format (YYYY-MM-DD)"

  /** The refusals of `redirectURL`. */
  datatype RedirectError =
    | NotFound  // "URL not found"
    | Expired   // "URL has expired"

  /** The `urls` bucket: short key to record. */
  type Table = map<string, URLData>

  /** What one handler call yields: its outcome and the table afterwards. */
  datatype Step<T, E> = Step(result: Result<T, E>, urls: Table)

  /** Every stored record has a non-empty redirect target. */
  predicate WellFormed(urls: Table)
  {
    forall k :: k in urls ==> urls[k].OriginalURL != ""
  }

  /** The expiry `shortenURL` stores. With an expiration string the parsed
      date is bound to a new variable that shadows the outer one, so the
      stored expiry keeps the outer variable's zero value. */
  function StoredExpiry(expiration: string, now: Instant): Instant
  {
    if expiration == "" then now + SevenDays else ZeroTime
  }

  /** `shortenURL` as a transition of the table. `draws` is the randomness
      `generateShortKey` would consume; it is used only without a custom key. */
  function ShortenStep(urls: Table, url: string, customKey: string, expiration: string,
                       now: Instant, draws: seq<nat>): Step<string, ShortenError>
    requires IsDraws(draws)
  {
    if url == "" then Step(Err(URLRequired), urls)
    else if customKey != "" && customKey in urls then Step(Err(CustomKeyExists), urls)
    else if expiration != "" && !ValidDate(expiration) then Step(Err(InvalidDateFormat), urls)
    else
      var key := if customKey == "" then KeyOf(draws) else customKey;
      Step(Ok(key), urls[key := URLData(url, StoredExpiry(expiration, now), 0)])
  }

  /** `redirectURL` as a transition of the table: it answers with the
      original URL to redirect to. */
  function RedirectStep(urls: Table, shortKey: string, now: Instant): Step<string, RedirectError>
  {
    if shortKey !in urls then Step(Err(NotFound), urls)
    else if IsExpired(urls[shortKey], now) then Step(Err(Expired), urls)
    else Step(Ok(urls[shortKey].OriginalURL), urls[shortKey := Clicked(urls[shortKey])])
  }

  /** The store: the `urls` bucket, updated in place by the two handlers. */
  class URLStore {
    var urls: Table

    /** The bucket as `CreateBucketIfNotExists` makes it on a fresh database. */
    constructor ()
      ensures urls == map[]
      ensures WellFormed(urls)
    {
      urls := map[];
    }

    /** `shortenURL`: validate the request, pick the key, store a fresh record. */
    method Shorten(url: string, customKey: string, expiration: string, now: Instant, draws: seq<nat>)
      returns (result: Result<string, ShortenError>)
      requires IsDraws(draws)
      modifies this
      ensures Step(result, urls) == ShortenStep(old(urls), url, customKey, expiration, now, draws)
      ensures old(WellFormed(urls)) ==> WellFormed(urls)
    {
      if url == "" {
        return Err(URLRequired);
      }
      var key := customKey;
      if key == "" {
        // A generated key is used as it comes: it is not looked up first.
        key := GenerateShortKey(draws);
      } else if key in urls {
        return Err(CustomKeyExists);
      }
      var expiresAt: Instant := ZeroTime;
      if expiration != "" {
        // The parse only decides whether the request is refused; its value
        // lands in a shadowing variable and `expiresAt` is not assigned.
        var parsedOk := ValidDate(expiration);
        if !parsedOk {
          return Err(InvalidDateFormat);
        }
      } else {
        expiresAt := now + SevenDays;
      }
      urls := urls[key := URLData(url, expiresAt, 0)];
      result := Ok(key);
    }

    /** `redirectURL`: look the key up, refuse an expired record, count the
        visit and write the record back. */
    method Redirect(shortKey: string, now: Instant) returns (result: Result<string, RedirectError>)
      modifies this
      ensures Step(result, urls) == RedirectStep(old(urls), shortKey, now)
      ensures old(WellFormed(urls)) ==> WellFormed(urls)
    {
      if shortKey !in urls {
        return Err(NotFound);
      }
      var urlData := urls[shortKey];
      if IsExpired(urlData, now) {
        return Err(Expired);
      }
      urlData := urlData.(Clicks := urlData.Clicks + 1);
      urls := urls[shortKey := urlData];
      result := Ok(urlData.OriginalURL);
    }
  }
}
