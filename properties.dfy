/** What the two handlers guarantee, stated of their transitions: the error
    paths leave the table alone, a success changes exactly one entry, and
    sequences of handler calls behave as the service's users rely on. */
module StoreProperties {
  import opened Base62
  import opened Records
  import opened Store

  // ---------------------------------------------------------------- Shorten

  /** An empty URL is refused first, whatever else the request holds. */
  lemma ShortenRejectsEmptyURL(urls: Table, customKey: string, expiration: string, now: Instant, draws: seq<nat>)
    requires IsDraws(draws)
    ensures ShortenStep(urls, "", customKey, expiration, now, draws) == Step(Err(URLRequired), urls)
  {
  }

  /** A custom key already in the table is refused, and the record under it
      and every other entry stay as they were. */
  lemma ShortenRejectsTakenCustomKey(urls: Table, url: string, customKey: string, expiration: string,
                                     now: Instant, draws: seq<nat>)
    requires IsDraws(draws)
    requires url != "" && customKey != "" && customKey in urls
    ensures ShortenStep(urls, url, customKey, expiration, now, draws) == Step(Err(CustomKeyExists), urls)
  {
  }

  /** An expiration that is not a YYYY-MM-DD date is refused once the URL and
      the key have passed, and nothing is stored. */
  lemma ShortenRejectsMalformedDate(urls: Table, url: string, customKey: string, expiration: string,
                                    now: Instant, draws: seq<nat>)
    requires IsDraws(draws)
    requires url != "" && (customKey == "" || customKey !in urls)
    requires expiration != "" && !ValidDate(expiration)
    ensures ShortenStep(urls, url, customKey, expiration, now, draws) == Step(Err(InvalidDateFormat), urls)
  {
  }

  /** A request succeeds exactly when it passes all three checks, and a
      refused request never changes the table. */
  lemma ShortenOutcome(urls: Table, url: string, customKey: string, expiration: string,
                       now: Instant, draws: seq<nat>)
    requires IsDraws(draws)
    ensures var s := ShortenStep(urls, url, customKey, expiration, now, draws);
      && (s.result.Ok? <==>
            url != "" && (customKey == "" || customKey !in urls) && (expiration == "" || ValidDate(expiration)))
      && (s.result.Err? ==> s.urls == urls)
  {
  }

  /** A successful request stores exactly one record, {url, expiry, 0
      clicks}, under the returned key: the custom key when one is given,
      otherwise the generated one. The expiry is seven days from now without
      an expiration string and the zero time with one. All other entries are
      unchanged and no key disappears. */
  lemma ShortenSuccess(urls: Table, url: string, customKey: string, expiration: string,
                       now: Instant, draws: seq<nat>)
    requires IsDraws(draws)
    requires ShortenStep(urls, url, customKey, expiration, now, draws).result.Ok?
    ensures var s := ShortenStep(urls, url, customKey, expiration, now, draws);
      var key := s.result.value;
      && key == (if customKey == "" then KeyOf(draws) else customKey)
      && s.urls.Keys == urls.Keys + {key}
      && key in s.urls
      && s.urls[key].OriginalURL == url
      && s.urls[key].Clicks == 0
      && (expiration == "" ==> s.urls[key].ExpiresAt == now + SevenDays)
      && (expiration != "" ==> s.urls[key].ExpiresAt == ZeroTime)
      && (forall k :: k in urls && k != key ==> s.urls[k] == urls[k])
  {
  }

  /** Without a custom key the key is a six-character base62 string. */
  lemma ShortenGeneratedKeyShape(urls: Table, url: string, expiration: string, now: Instant, draws: seq<nat>)
    requires IsDraws(draws)
    requires ShortenStep(urls, url, "", expiration, now, draws).result.Ok?
    ensures IsShortKey(ShortenStep(urls, url, "", expiration, now, draws).result.value)
  {
    var s := ShortenStep(urls, url, "", expiration, now, draws);
    assert s.result.value == KeyOf(draws);
    forall i | 0 <= i < KeyLength ensures KeyOf(draws)[i] in Alphabet {
      assert KeyOf(draws)[i] == Alphabet[draws[i]];
    }
  }

  /** A custom key is only ever stored when it was absent, so a custom key
      never overwrites a record. */
  lemma ShortenCustomKeyWasFree(urls: Table, url: string, customKey: string, expiration: string,
                                now: Instant, draws: seq<nat>)
    requires IsDraws(draws)
    requires customKey != ""
    requires ShortenStep(urls, url, customKey, expiration, now, draws).result.Ok?
    ensures customKey !in urls
    ensures |ShortenStep(urls, url, customKey, expiration, now, draws).urls| == |urls| + 1
  {
    var s := ShortenStep(urls, url, customKey, expiration, now, draws);
    assert s.urls.Keys == urls.Keys + {customKey};
  }

  /** A generated key is not looked up: whenever the draws select a key that
      is already taken, the request still succeeds and the old record, clicks
      and all, is replaced by the fresh one; no key is added. */
  lemma ShortenGeneratedKeyCollision(urls: Table, url: string, expiration: string, now: Instant, draws: seq<nat>)
    requires IsDraws(draws)
    requires url != "" && (expiration == "" || ValidDate(expiration))
    requires KeyOf(draws) in urls
    ensures var s := ShortenStep(urls, url, "", expiration, now, draws);
      && s.result == Ok(KeyOf(draws))
      && s.urls[KeyOf(draws)] == URLData(url, StoredExpiry(expiration, now), 0)
      && s.urls.Keys == urls.Keys
  {
  }

  /** A concrete collision: a record with five clicks under "aaaaaa" is
      replaced by a fresh one with none. */
  lemma ShortenGeneratedKeyOverwrites(now: Instant)
    ensures var before := map["aaaaaa" := URLData("https://example.org/a", now + SevenDays, 5)];
      var s := ShortenStep(before, "https://example.org/b", "", "", now, [0, 0, 0, 0, 0, 0]);
      && s.result == Ok("aaaaaa")
      && s.urls == map["aaaaaa" := URLData("https://example.org/b", now + SevenDays, 0)]
  {
    var draws: seq<nat> := [0, 0, 0, 0, 0, 0];
    assert IsDraws(draws);
    assert KeyOf(draws) == "aaaaaa";
  }

  /** Shortening keeps every stored record's target non-empty. */
  lemma ShortenKeepsWellFormed(urls: Table, url: string, customKey: string, expiration: string,
                               now: Instant, draws: seq<nat>)
    requires IsDraws(draws)
    requires WellFormed(urls)
    ensures WellFormed(ShortenStep(urls, url, customKey, expiration, now, draws).urls)
  {
  }

  // --------------------------------------------------------------- Redirect

  /** An unknown key is not found and the table is unchanged. */
  lemma RedirectUnknownKey(urls: Table, shortKey: string, now: Instant)
    requires shortKey !in urls
    ensures RedirectStep(urls, shortKey, now) == Step(Err(NotFound), urls)
  {
  }

  /** A record whose expiry lies strictly before now is refused and its click
      count is not touched. */
  lemma RedirectExpiredRecord(urls: Table, shortKey: string, now: Instant)
    requires shortKey in urls && now > urls[shortKey].ExpiresAt
    ensures RedirectStep(urls, shortKey, now) == Step(Err(Expired), urls)
  {
  }

  /** A live record (now at or before its expiry, the expiry instant itself
      included) answers with its URL; its click count goes up by one, its URL
      and expiry stay, and no other entry changes. */
  lemma RedirectLiveRecord(urls: Table, shortKey: string, now: Instant)
    requires shortKey in urls && now <= urls[shortKey].ExpiresAt
    ensures var s := RedirectStep(urls, shortKey, now);
      && s.result == Ok(urls[shortKey].OriginalURL)
      && s.urls.Keys == urls.Keys
      && s.urls[shortKey].OriginalURL == urls[shortKey].OriginalURL
      && s.urls[shortKey].ExpiresAt == urls[shortKey].ExpiresAt
      && s.urls[shortKey].Clicks == urls[shortKey].Clicks + 1
      && (forall k :: k in urls && k != shortKey ==> s.urls[k] == urls[k])
      && (WellFormed(urls) ==> s.result.value != "")
  {
  }

  /** A redirect succeeds exactly when the key is present and not expired. */
  lemma RedirectOutcome(urls: Table, shortKey: string, now: Instant)
    ensures var s := RedirectStep(urls, shortKey, now);
      && (s.result.Ok? <==> shortKey in urls && !IsExpired(urls[shortKey], now))
      && (s.result.Err? ==> s.urls == urls)
  {
  }

  /** Whatever the outcome, a redirect never adds or removes a key, never
      changes a URL or an expiry, and never lowers a click count. */
  lemma RedirectKeepsRecords(urls: Table, shortKey: string, now: Instant)
    ensures var after := RedirectStep(urls, shortKey, now).urls;
      && after.Keys == urls.Keys
      && forall k :: k in urls ==>
           && after[k].OriginalURL == urls[k].OriginalURL
           && after[k].ExpiresAt == urls[k].ExpiresAt
           && after[k].Clicks >= urls[k].Clicks
  {
  }

  /** Redirecting keeps every stored record's target non-empty. */
  lemma RedirectKeepsWellFormed(urls: Table, shortKey: string, now: Instant)
    requires WellFormed(urls)
    ensures WellFormed(RedirectStep(urls, shortKey, now).urls)
  {
  }

  // ---------------------------------------------------- Sequences of calls

  /** A URL shortened without an expiration string redirects to itself on
      its first visit within seven days, and that visit counts once. */
  lemma ShortenThenRedirect(urls: Table, url: string, customKey: string, now: Instant,
                            draws: seq<nat>, later: Instant)
    requires IsDraws(draws)
    requires url != "" && (customKey == "" || customKey !in urls)
    requires later <= now + SevenDays
    ensures var s := ShortenStep(urls, url, customKey, "", now, draws);
      && s.result.Ok?
      && var r := RedirectStep(s.urls, s.result.value, later);
         && r.result == Ok(url)
         && r.urls[s.result.value].Clicks == 1
  {
    ShortenSuccess(urls, url, customKey, "", now, draws);
  }

  /** A URL shortened with a valid expiration date is stored already
      expired: every visit at any instant after the zero time is refused
      and counts nothing, whatever date was given. */
  lemma ShortenWithDateIsBornExpired(urls: Table, url: string, customKey: string, expiration: string,
                                     now: Instant, draws: seq<nat>, later: Instant)
    requires IsDraws(draws)
    requires url != "" && (customKey == "" || customKey !in urls)
    requires expiration != "" && ValidDate(expiration)
    requires later > ZeroTime
    ensures var s := ShortenStep(urls, url, customKey, expiration, now, draws);
      && s.result.Ok?
      && RedirectStep(s.urls, s.result.value, later) == Step(Err(Expired), s.urls)
  {
    ShortenSuccess(urls, url, customKey, expiration, now, draws);
  }

  /** The visits among `times` that find a record with expiry `expiresAt` live. */
  function LiveVisits(times: seq<Instant>, expiresAt: Instant): (n: nat)
    ensures n <= |times|
    ensures (forall i :: 0 <= i < |times| ==> times[i] <= expiresAt) ==> n == |times|
    ensures (forall i :: 0 <= i < |times| ==> times[i] > expiresAt) ==> n == 0
  {
    if times == [] then 0
    else (if times[0] <= expiresAt then 1 else 0) + LiveVisits(times[1..], expiresAt)
  }

  /** The table after redirecting `shortKey` once at each instant of `times`, in order. */
  function RedirectAll(urls: Table, shortKey: string, times: seq<Instant>): Table
    decreases |times|
  {
    if times == [] then urls
    else RedirectAll(RedirectStep(urls, shortKey, times[0]).urls, shortKey, times[1..])
  }

  /** After any series of visits to one key, its click count has grown by
      exactly the number of visits that found it live; its URL and expiry
      and every other entry are as before. */
  lemma {:induction false} RedirectAllCountsLiveVisits(urls: Table, shortKey: string, times: seq<Instant>)
    requires shortKey in urls
    ensures var after := RedirectAll(urls, shortKey, times);
      after == urls[shortKey := urls[shortKey].(Clicks := urls[shortKey].Clicks + LiveVisits(times, urls[shortKey].ExpiresAt))]
    decreases |times|
  {
    if times != [] {
      var next := RedirectStep(urls, shortKey, times[0]).urls;
      assert next[shortKey].ExpiresAt == urls[shortKey].ExpiresAt;
      RedirectAllCountsLiveVisits(next, shortKey, times[1..]);
    }
  }
}
