# URL shortener core in Dafny

This project models the core of a small URL-shortening web service and proves
properties of that model. The service stores each long URL as a row of a
`urls` table whose id comes from an auto-increment sequence. The short code is
never stored: it is always the base-62 encoding of the id, and every lookup
decodes the code back into an id. The model has these parts:

- `base62.dfy` (module `Base62`) is the base-N codec.
  - The recursive functions `Digits`, `Encoded` and `Decoded` are the specification.
  - The loop methods `Encode` and `Decode` mirror the service's `encode` and `decode`, and are proved equal to those functions.
  - The lemmas state the codec's properties: the round trip, injectivity, no leading zero symbol, minimal length, Horner's rule, and exactly when decoding fails.
- `strings.dfy` (module `Strings`) covers the parts of Python's `str` the service uses.
  - `isspace` is taken with its full Unicode set.
  - `strip()` is modelled as `TrimEnd(TrimStart(s))`.
  - `startswith` is included too.
- `validators.dfy` (module `Validators`) holds the two request validators of the HTTP layer.
  - Both reject blank input.
  - Both put `https://` in front of a value without a scheme, then strip it.
  - The create validator also tests the value against the URL pattern. Here the pattern is a hand-written matcher over index ranges of the string.
- `shortener.dfy` (module `Shortener`) is the short-URL lifecycle.
  - The table is a `UrlStore` object: a `records` map from id to `Record` plus the `nextId` counter. Its invariant `Valid()` says ids are positive, below `nextId`, and agree with their record.
  - Create (`UrlShortener`), resolve and stats (`UrlLookup`), update and delete are methods that change the store in place. Each one states the store's whole new state.
  - The lookup by short code is the function `UrlStore.FindByCode`, which decodes the code and then looks up the id.
  - `Walkthrough` chains the operations once. It creates a URL and gets code `"1"`, resolves it twice (the count reaches 2), reads the stats, deletes it, and resolves again (not found), then creates a second URL, whose code differs from the first.
- `wrappers.dfy` (module `Wrappers`) holds the `Option` and `Result` datatypes.

Exceptions become `Result` values:

| Error | Meaning | Status the handlers give it |
|---|---|---|
| `NotFound` | no record has the decoded id | 404 |
| `DecodeFailed(c)` | the code holds a character `c` outside the alphabet | 500 |
| `EmptyUrl` | the update's new URL is blank | 400 |

On these points the model keeps the code's behaviour:

- A code with a character outside the alphabet makes `decode` raise `ValueError`. The lookup's generic handler turns this into a 500 server error, not a 404 not-found (`app/url_shortener.py:24-25`, `app/url_shortener.py:155-157`).
- `encode` with a negative number reports no error. Python's `divmod` never brings a negative number to 0, so the loop never ends. The model takes `num: nat`, so a negative number cannot be passed.
- Neither the update validator nor the update logic tests the URL pattern. Only the create validator does.
- Resolving a code returns the access count along with the URL.

## Model

| member | source | states |
|---|---|---|
| Base62.IndexOf | app/base62.py:41 | the position found holds the character and is its first occurrence in the alphabet |
| Base62.Digits | app/base62.py:17-19 | every character is an alphabet symbol; the digit string is empty exactly for 0 |
| Base62.Encoded | app/base62.py:11-21 | the encoding is never empty and uses only alphabet symbols |
| Base62.Encode | app/base62.py:3-21 | the remainder loop followed by the reversal produces exactly `Encoded(num, alphabet)` |
| Base62.Decode | app/base62.py:25-47 | the positional-sum loop produces exactly `Decoded(s, alphabet)`, including the error for the first foreign character |
| Base62.EncodeZero | app/base62.py:11-12 | zero is encoded as the one-symbol string `alphabet[0]` |
| Base62.EncodeSingleDigit | app/base62.py:17-21 | a number below the base is encoded as the single symbol at its position |
| Base62.EncodeOne | app/base62.py:1 | id 1 gets the code `"1"` under the fixed alphabet |
| Base62.NoLeadingZero | app/base62.py:17-21 | the encoding of a positive number never starts with the zero symbol |
| Base62.EncodedLength | app/base62.py:17-21 | a positive n encoded with k symbols satisfies base^(k-1) <= n < base^k, so the code has minimal length |
| Base62.Decoded | app/base62.py:33-47 | the positional reading of a string: each symbol's index times the base raised to the number of symbols after it, summed; the leftmost symbol outside the alphabet is an error |
| Base62.DecodedEmpty | app/base62.py:33-47 | the empty string decodes to 0 |
| Base62.DecodedSnoc | app/base62.py:37-45 | decoding is positional: `decode(s + [c]) == decode(s) * base + index(c)` whenever both succeed, and it fails when either part fails |
| Base62.DecodedFailsExactly | app/base62.py:38-43 | decoding fails if and only if some character is outside the alphabet, and the character reported is the first such one |
| Base62.DigitsRoundTrip | app/base62.py:17-45 | decoding the digit string of n gives back n for an alphabet of distinct symbols |
| Base62.RoundTrip | app/base62.py:3-47 | `decode(encode(n)) == n` for every n >= 0 and every alphabet of at least two distinct symbols |
| Base62.EncodeInjective | app/base62.py:3-47 | different numbers have different encodings |
| Base62.DecodedLeadingZero | app/base62.py:38-45 | a leading zero symbol does not change the decoded value |
| Base62.Base62RankAt | app/base62.py:1 | the i-th symbol of the fixed alphabet is the digit, lower-case or upper-case letter of rank i |
| Base62.Base62IsAlphabet | app/base62.py:1 | the fixed alphabet has 62 pairwise distinct symbols |
| Strings.IsSpace | app/server.py:35 | the characters Python's `isspace` accepts, which `strip()` removes and `\s` matches |
| Strings.Strip | app/server.py:52 | `strip()`: leading whitespace removed, then trailing whitespace |
| Strings.TrimStart | app/server.py:82 | the leading characters removed are all whitespace, and the result does not start with whitespace |
| Strings.TrimEnd | app/server.py:82 | the trailing characters removed are all whitespace, and the result does not end with whitespace |
| Strings.TrimStartIsSuffix | app/server.py:82 | what `TrimStart` leaves is a suffix of its argument |
| Strings.TrimEndIsPrefix | app/server.py:82 | what `TrimEnd` leaves is a prefix of its argument |
| Strings.StripSlice | app/server.py:82 | `strip()` gives a contiguous piece of its argument; everything outside the piece is whitespace, and the piece neither starts nor ends with whitespace |
| Strings.StripBlank | app/server.py:35 | `strip()` gives the empty string if and only if every character is whitespace |
| Strings.StripTrimmed | app/server.py:82 | a string with no whitespace at either end is left unchanged |
| Strings.StripIdempotent | app/server.py:82 | stripping twice is the same as stripping once |
| Strings.TrimEndAfter | app/server.py:80-82 | trailing whitespace is taken from the end only: a prefix ahead of a string with a non-space character survives |
| Strings.StripKeepsPrefix | app/server.py:79-82 | a string that starts with a whitespace-free prefix still starts with it after `strip()` |
| Validators.IsBlank | app/server.py:35 | `not v or not v.strip()`: no value, the empty string, or whitespace only |
| Validators.MatchesUrlPattern | app/server.py:38-44 | the anchored, case-insensitive URL pattern: scheme, then a domain name, `localhost` or a dotted IPv4 address, an optional port, and an optional path |
| Validators.ValidateCreateUrl | app/server.py:34-52 | the create validator: blank is an empty-URL error; otherwise `https://` is put in front of a value without a scheme, the pattern is tested on that value, and the stripped value is returned |
| Validators.ValidateUpdateUrl | app/server.py:75-82 | the update validator: blank is an empty-URL error; otherwise `https://` is put in front of a value without a scheme and the stripped value is returned |
| Validators.BlankRejected | app/server.py:35-36 | both validators report an empty URL exactly for a missing value and for strings made only of whitespace |
| Validators.UpdateAcceptedHasScheme | app/server.py:79-82 | every value the update validator returns starts with `http://` or `https://` |
| Validators.CreateAcceptedHasScheme | app/server.py:46-52 | every value the create validator returns starts with `http://` or `https://` |
| Validators.CreateAgreesWithUpdate | app/server.py:35-52 | create accepts only what update accepts, with the same result; create reports an empty URL exactly when update rejects; create's format error happens exactly when update accepts but the pattern fails |
| Validators.UpdateKeepsLeadingSpace | app/server.py:79-82 | a value without a scheme keeps its leading whitespace, which ends up right after `https://`, because the scheme test comes before the strip |
| Validators.UpdateKeepsLeadingSpaceExample | app/server.py:79-82 | `" example.com"` is accepted by update as `"https:// example.com"` |
| Validators.DomainIsVisible | app/server.py:40 | a dotted domain name consists of printable non-space ASCII characters |
| Validators.DottedOctetsAreVisible | app/server.py:42 | a dotted IPv4 address consists of printable non-space ASCII characters |
| Validators.HostIsVisible | app/server.py:40-42 | every host alternative (domain, `localhost`, IPv4) consists of printable non-space ASCII characters |
| Validators.SchemeIsVisible | app/server.py:39 | the matched scheme consists of printable non-space ASCII characters |
| Validators.PathAtEndHasNoSpace | app/server.py:44 | the path part has no whitespace except a single line break that ends the string |
| Validators.MatchHasNoSpace | app/server.py:38-44 | a string that matches the pattern has no whitespace, except possibly a final line break |
| Validators.CreateAcceptedHasNoSpace | app/server.py:38-52 | a value the create validator returns contains no whitespace at all |
| Validators.StrippedHasNoSpace | app/server.py:52 | when whitespace can only be the final character, `strip()` leaves no whitespace at all |
| Validators.CreateRejectsInnerSpace | app/server.py:46-52 | a value with whitespace inside it is refused by create with a format error, although update accepts it |
| Validators.SchemeIgnoringCase | app/server.py:39 | a value that starts with the scheme matches the scheme part of the pattern |
| Validators.ExampleMatches | app/server.py:38-44 | `https://example.com` matches the pattern |
| Validators.CreateExample | app/server.py:35-52 | create turns `"example.com"` into `"https://example.com"` |
| Shortener.DropControl | app/url_shortener.py:205 | only characters with code point >= 32, tab, line feed and carriage return remain; a character occurs in the result exactly when it occurs in the input and is one of those; a string of such characters is unchanged |
| Shortener.DropControlAppend | app/url_shortener.py:205 | filtering a concatenation is the concatenation of the filtered parts, so the filter keeps the order of the kept characters and decides each character on its own |
| Shortener.Cleaned | app/url_shortener.py:205 | `clean_url`: the control characters dropped by the filter, then `strip()` |
| Shortener.Sanitized | app/url_shortener.py:189-205 | the URL create stores: `url.strip()` in the constructor, then `clean_url` in `_post_url` |
| Shortener.Accessed | app/url_shortener.py:30-35 | the access count goes up by exactly one and the update time becomes now; id, URL and creation time are unchanged |
| Shortener.UrlStore.constructor | app/models.py:10 | the table starts empty and its id sequence starts at 1 |
| Shortener.UrlStore.FindByCode | app/url_shortener.py:14-18 | the lookup by short code: decode the code with the fixed alphabet, then the record with that id; a decoding failure carries the offending character |
| Shortener.GetUrlObjectByShortCode | app/url_shortener.py:11-25 | the result is the decode-then-find lookup: a decoding failure, not-found, or the stored record |
| Shortener.UpdateUrlLogic | app/url_shortener.py:41-65 | failures of the lookup come first and change nothing; a blank new URL fails with nothing changed; otherwise only the addressed record changes, and only its URL (scheme added if missing, then stripped) and update time |
| Shortener.DeleteUrlLogic | app/url_shortener.py:83-92 | failures of the lookup change nothing; otherwise exactly the addressed record is removed, and the same code is then not found |
| Shortener.UrlLookup.constructor | app/url_shortener.py:109-110 | the lookup keeps the short code it is given |
| Shortener.UrlLookup.OriginalUrlObject | app/url_shortener.py:112-121 | succeeds exactly when a record has that id and then returns that record; otherwise reports not-found |
| Shortener.UrlLookup.OriginalUrl | app/url_shortener.py:130-151 | on success only the addressed record changes, its access count by exactly one and its update time to now; failures leave the store unchanged |
| Shortener.UrlLookup.UrlStats | app/url_shortener.py:161-177 | returns the lookup's result and changes nothing |
| Shortener.UrlShortener.constructor | app/url_shortener.py:188-197 | exactly one record is added under the next id, with the cleaned URL, no accesses and both timestamps now; the short code is the encoding of that id |
| Shortener.UrlShortener.PostUrl | app/url_shortener.py:201-218 | inserts the URL with control characters dropped and stripped, no accesses and both timestamps now, under a fresh id that it returns |
| Shortener.ShortCodeShape | app/url_shortener.py:191 | a short code is non-empty, uses only alphabet symbols, contains no whitespace, and starts with `0` only for id 0 |
| Shortener.FindShortCode | app/url_shortener.py:14-20 | looking up the short code of a stored record returns that record |
| Shortener.UnissuedCodeNotFound | app/url_shortener.py:15-18 | the code of id 0, or of an id the sequence has not reached, is not found |
| Shortener.FindByCodeStatus | app/url_shortener.py:17-25 | a failed lookup is a 500 exactly when the code holds a character outside the alphabet, and a 404 exactly when the code decodes to an id no record has |
| Shortener.FindForeignCharacter | app/url_shortener.py:24-25 | a lookup fails on decoding exactly when the code holds a foreign character, and it reports the first one |
| Shortener.ShortCodesDistinct | app/url_shortener.py:190-191 | records with different ids, such as two successive creates, get different short codes |
| Shortener.PaddedCodeFindsSame | app/url_shortener.py:14 | putting `0` in front of a code reaches the same lookup result |
| Shortener.SanitizedIsClean | app/url_shortener.py:205 | a stored URL has no control characters other than tab, line feed and carriage return, and no whitespace at either end |
| Shortener.SanitizedKeepsClean | app/url_shortener.py:205 | cleaning a clean URL leaves it unchanged |
| Shortener.SanitizedIdempotent | app/url_shortener.py:205 | cleaning twice is the same as cleaning once |
| Shortener.UpdateStoresValidated | app/url_shortener.py:47-54 | a value the update validator returns is not blank and passes through the update logic's own prefixing and strip unchanged |

## Left out

- The database layer is not modelled: the engine, environment configuration, retry, and session open/close. Each operation is one atomic step on an in-memory `UrlStore`.
- Session add/commit/refresh/rollback are not modelled, so database errors (500 responses) cannot occur in the model.
- Concurrent requests are not modelled. In particular, two resolves running at once could lose an access-count increment in the real service; the model runs operations one after another.
- Real `datetime` values are replaced by a `nat` clock reading passed in as `now`, one per operation. This also hides the mix of naive `utcnow()` and timezone-aware `now(timezone.utc)` timestamps, and the fact that `_post_url` reads the clock twice. The readings are not assumed to increase from one operation to the next, so properties such as "`updated_at` never decreases" are not stated.
- The `onupdate` default of `updated_at` (`app/models.py:14`) is not modelled, because the code always sets the field explicitly.
- The 32-bit width of the `Integer` id column is not modelled: ids are unbounded `nat`.
- The `String(2083)` length limit of the `url` column is not modelled.
- Ids skipped by the sequence after a failed insert are not modelled: `nextId` advances only on a successful insert.
- The `url_only` decorator's `isinstance` check is not modelled. The static type `Record` makes it always pass.
- The `if not url_object: return None` branches of `get_original_url` and `get_url_stats` are not modelled. They cannot be reached, because the lookup raises instead of returning nothing.
- The FastAPI routes, the pydantic request and response models, and the `print` logging are not modelled. For example, the create route answers with the submitted URL rather than the cleaned one that was stored.
- Validators.MatchesUrlPattern: `\d` is read as the ASCII digits and IGNORECASE as ASCII case folding. Python's Unicode matching also accepts other decimal digits and a few non-ASCII letters (such as the Kelvin sign for `k`).
- Validators.MatchesUrlPattern: character codes are Unicode scalar values, as Dafny's `char` is. Python strings can also hold lone surrogates.
- `encode` with an alphabet of fewer than two symbols is excluded by `Encode`'s precondition. In Python, a one-symbol alphabet still encodes 0 as its one symbol, because `num == 0` returns before the loop (`app/base62.py:11-12`). A positive `num` loops forever, because `divmod(n, 1)` leaves `n` unchanged (`app/base62.py:17-18`). An empty alphabet fails with an indexing or division error. The only caller passes the fixed 62-symbol alphabet (`app/url_shortener.py:191`).
- `Decode` takes any alphabet, as `decode` does. The round trip is proved only for alphabets of at least two distinct symbols.
