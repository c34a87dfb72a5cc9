# URL shortener: a Dafny model of its key generator and handlers

The service maps long URLs to short keys. It keeps, in one `urls` bucket,
a record per key: the original URL, an expiry instant and a click count.
`shortenURL` checks a request and stores a fresh record. The key is either
the caller's custom key or one drawn by `generateShortKey`. `redirectURL`
looks a key up, refuses unknown and expired keys, and counts the visit.

The model has four modules:

- `Base62` (base62.dfy): the 62-symbol alphabet and `generateShortKey`.
  The generator is a method that fills a 6-character array in a loop.
  The six random draws are a parameter, each an index below 62.
- `Records` (records.dfy): `URLData`, the clock, the expiry test and the
  accepted date shape. Instants are integer nanoseconds since Go's zero
  time, so the zero `time.Time` is `ZeroTime = 0`.
- `Store` (store.dfy): the two handlers as pure transitions of the table
  (`ShortenStep`, `RedirectStep`). The class `URLStore` holds the table as
  a `map` field. Its `Shorten` and `Redirect` methods update the table in
  place, in the source's order of checks. Each method's postcondition
  equates its outcome and new table with the transition.
- `StoreProperties` (properties.dfy): lemmas on the transitions. They cover
  each error path, the single-entry update on success, the frame conditions,
  the invariant that every stored URL is non-empty, and sequences of calls.

Each handler is one atomic step. The model follows the code as written,
including where its behaviour is probably not what its authors meant:

- A valid custom expiration date is only validated; it is never stored.
  At main.go:106 `:=` declares a new `expiresAt` that shadows the outer one.
  The stored expiry is therefore Go's zero time, and the record is expired
  on every later visit. `ShortenWithDateIsBornExpired` proves this, so a
  key shortened with "2099-01-01" never redirects. The inner `expiresAt` is
  never read, and the Go compiler rejects an unused local variable, so
  main.go as shown does not build; the model describes what the text would
  do with that error set aside.
- A record is expired only when now is strictly after its expiry
  (`time.Now().After`). At the expiry instant itself it still redirects.
- A generated key is not looked up and there is no retry, so it
  overwrites any record already under that key
  (`ShortenGeneratedKeyCollision`). A custom key uses a separate lookup
  and then a put, not an atomic put-if-absent.
- A redirect returns only the original URL, not the new click count.

## Model

| member | source | states |
|---|---|---|
| `Base62.AlphabetIsSourceLiteral` | main.go:26 | the alphabet equals the source's `base62Chars` literal |
| `Base62.AlphabetLayout` | main.go:26 | the alphabet has 62 characters: indices 0-25 are lowercase, 26-51 uppercase, 52-61 digits, each at its own layout position |
| `Base62.AlphabetDistinct` | main.go:26 | the 62 characters are pairwise distinct |
| `Base62.AlphabetMembership` | main.go:26 | a character is in the alphabet iff it is an ASCII letter or digit, and then it sits at its layout index |
| `Base62.KeyOf` | main.go:181-185 | the selected key has one character per draw, and character i is the alphabet symbol at draw i |
| `Base62.KeyOfDrawsOf` | main.go:181-185 | every key over the alphabet is selected by some draws (those of `DrawsOf`): no key is out of reach |
| `Base62.DrawsOfKeyOf` | main.go:181-185 | draws are recovered from the key they select, so distinct draws give distinct keys and uniform draws give uniform keys |
| `Base62.GenerateShortKey` | main.go:179-186 | the generated key is the key the draws select, has length 6, and every character is in the alphabet |
| `Records.ValidDateExamples` | main.go:105-110 | "2099-01-01" passes the YYYY-MM-DD check; "not-a-date" and the empty string fail it |
| `Store.URLStore.constructor` | main.go:37-41 | a new store's bucket is empty |
| `Store.URLStore.Shorten` | main.go:77-133 | outcome and new table are those of the shorten transition; a table whose URLs are all non-empty stays so |
| `Store.URLStore.Redirect` | main.go:138-175 | outcome and new table are those of the redirect transition; a table whose URLs are all non-empty stays so |
| `StoreProperties.ShortenRejectsEmptyURL` | main.go:81-84 | an empty URL is refused with URLRequired and the table is unchanged |
| `StoreProperties.ShortenRejectsTakenCustomKey` | main.go:89-100 | a non-empty custom key already present is refused with CustomKeyExists; the existing record and all other entries are unchanged |
| `StoreProperties.ShortenRejectsMalformedDate` | main.go:105-110 | an expiration that fails the date check is refused with InvalidDateFormat and the table is unchanged |
| `StoreProperties.ShortenOutcome` | main.go:81-130 | shorten succeeds iff the URL is non-empty, the custom key is empty or absent, and the expiration is empty or a valid date; every refusal leaves the table unchanged |
| `StoreProperties.ShortenSuccess` | main.go:86-125 | on success exactly one key is set, to {url, expiry, 0 clicks}; the key is the custom key or the generated one; expiry is now + 7 days without expiration and the zero time with one; all other entries are unchanged |
| `StoreProperties.ShortenGeneratedKeyShape` | main.go:87-88 | a generated key is a 6-character string over the alphabet |
| `StoreProperties.ShortenCustomKeyWasFree` | main.go:89-101 | a custom key is stored only if it was absent, so the table grows by one |
| `StoreProperties.ShortenGeneratedKeyCollision` | main.go:87-88 | for every table, whenever the generated key is already taken, shorten (with a non-empty URL and an empty or valid date) still succeeds under that key, replaces the old record with {url, stored expiry, 0 clicks} and adds no key |
| `StoreProperties.ShortenGeneratedKeyOverwrites` | main.go:87-88 | example: a record with 5 clicks under "aaaaaa" is replaced by a fresh one with 0 clicks when the draws are all zero |
| `StoreProperties.ShortenKeepsWellFormed` | main.go:81-84 | shorten keeps every stored URL non-empty |
| `StoreProperties.RedirectUnknownKey` | main.go:141-151 | an absent key gives NotFound and the table is unchanged |
| `StoreProperties.RedirectExpiredRecord` | main.go:155-158 | now strictly after the expiry gives Expired and the table is unchanged |
| `StoreProperties.RedirectLiveRecord` | main.go:155-175 | when now is at or before the expiry, the stored URL is returned, and it is non-empty when every stored URL is; Clicks goes up by one; URL and expiry stay; no other key changes |
| `StoreProperties.RedirectOutcome` | main.go:141-175 | redirect succeeds iff the key is present and not expired; every refusal leaves the table unchanged |
| `StoreProperties.RedirectKeepsRecords` | main.go:160-169 | a redirect never adds or removes a key, never changes a URL or expiry, and never lowers a click count |
| `StoreProperties.RedirectKeepsWellFormed` | main.go:160-169 | redirect keeps every stored URL non-empty |
| `StoreProperties.ShortenThenRedirect` | main.go:112-175 | a URL shortened without expiration redirects to itself on a visit within seven days, with clicks 1 |
| `StoreProperties.ShortenWithDateIsBornExpired` | main.go:104-126 | a URL shortened with a valid date is refused as Expired on every visit after the zero time, and nothing changes |
| `StoreProperties.RedirectAllCountsLiveVisits` | main.go:155-168 | after any series of visits to one key, its clicks grew by exactly the number of visits that found it live; everything else is unchanged |

## Left out

- HTTP plumbing is left out: `main`, `homeHandler`, the POST method check, form reading, status codes, `http.Redirect` and the printed short URL. These are framework I/O. The form fields become parameters, and an absent field is the empty string, as `FormValue` gives.
- bbolt is left out. The bucket is a `map`. The separate read and write transactions of each handler are merged into one atomic step.
- Concurrency is left out. This includes the lost-update race between the read at main.go:141 and the write at main.go:161, and the check-then-put race between main.go:90 and main.go:125.
- `math/rand` and its reseeding on every call are left out. The caller supplies the six draws.
- `encoding/json` is left out. Records are stored as values, so a decode of an encode is the identity. The marshal failure at main.go:117-121, the unmarshal failure in `redirectURL` (it answers not-found), and the storage failures at main.go:127-130 and main.go:170-173 are not modelled.
- `time.Parse` with layout "2006-01-02" is modelled only as a YYYY-MM-DD shape check (`ValidDate`). Its month and day range checks are not modelled, so a string like "2024-13-45" is accepted here. Only validity matters, because the parsed value is discarded.
- `AddDate(0, 0, 7)` is a fixed seven days of nanoseconds. A daylight-saving change in the local zone, which makes the real interval an hour shorter or longer, is not modelled. Wall-clock time is a parameter `now`.
- Clicks are an unbounded `nat`. The wrap-around of Go's `int` after 2^63 - 1 clicks is not modelled.
- The key taken from `r.URL.Path[1:]` is a parameter.
