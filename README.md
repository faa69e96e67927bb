# Vote ledger of the marketing-site backend

This project models the vote feature of a small Flask backend (`app.py`).
Visitors vote `for` or `against`. The vote is counted once per device: the
device sends a fingerprint string, and the backend stores a salted hash of
it. The ledger is one JSON document. It holds the two tallies, the voters
keyed by fingerprint hash (each with its choice, a timestamp and a hashed
client address), and metadata with the stored total and the time of the
last update.

What is modelled, module by module:

- `Votes`: the ledger document as a value (`Document`, with every
  top-level entry optional, as in a loaded JSON file). It holds the seed
  ledger, `has_user_voted`, `stats_from_data` and `add_vote`. `add_vote` is
  modelled twice, as the class method `Ledger.AddVote`, which updates the
  ledger's fields in place like the source, and as the function `Added`,
  which specifies it. There are also lemmas about series of votes
  (`AddAll`).
- `VoteApi`: the `POST /api/vote` handler: input normalisation and
  validation, then the repeat-voter check, then the update. `HandleVote`
  specifies it and `AddVoteRoute` is the imperative handler that calls
  `Ledger.AddVote`.
- `Identity`: the payloads hashed for fingerprints (`salt|fp`) and client
  addresses (`salt|ip|addr`), and the client address taken from
  `X-Forwarded-For` or the remote address.
- `Email`: the contact form's address check, written as character-class
  predicates. A declarative reading of the regular expression is proved
  equal to a scanning implementation.
- `Text`: Python's `str.strip()` (with Python's full white-space set),
  `str.lower()` and `str.split(sep)[0]`, each characterised by its contract.

The clock, SHA-256 and the request's headers are parameters. `now` is the
timestamp. `sha: string -> string` is an arbitrary function standing for
SHA-256 plus hex encoding. `Env` carries the salt, the `X-Forwarded-For`
header and the remote address.

Facts about the code that the model makes precise:

- The ledger does not keep `for + against == total_votes == |voters|`. The
  seed ledger has 312 votes and no voters. What `add_vote` preserves is
  `total_votes == for + against` and the difference
  `for + against - |voters|`. So every ledger reached from the seed counts
  exactly 312 votes more than it has voters (`Votes.SeededLedger`).
- Fingerprint hashes and address hashes are kept apart only for equal
  inputs (`Identity.PayloadsDifferOnEqualInput`). The fingerprint `ip|x` is
  hashed exactly like the address `x` (`Identity.CrossNamespaceCollision`).
- `add_vote` mutates the loaded dictionary in place and returns it, so the
  model uses a class method plus a specification function.

## Model

| member | source | states |
|---|---|---|
| `Votes.Seed` | app.py:194-198 | The seed ledger is consistent: tallies 245 and 67, stored total 312, no voters, surplus of votes over voters 312. |
| `Votes.Ledger.Seeded` | app.py:193-200 | The ledger created when no file exists holds the seed document, reporting 245, 67 and 312. |
| `Votes.Ledger.Loaded` | app.py:201-202 | A ledger object holds exactly the loaded document. |
| `Votes.WithDefaults` | app.py:236-238 | The three `setdefault` calls add exactly the missing entries, with their defaults: tallies `for` and `against` at 0, no voters, and metadata with total 0 and the current time. Present entries are kept as they are, so every tally and the voters are unchanged, and a complete document stays the same. |
| `Votes.Added` | app.py:235-257 | For a known hash only the defaults are filled in: tallies and voters stay the same (first write wins). For a new hash the chosen tally goes up by one and the other stays the same, and any choice other than `for` counts against. Exactly one voter record is added, with the choice, time and address hash. The stored total is recomputed as the sum. Tallies under other keys do not change. Consistency is kept, and for + against minus the number of voters is preserved. |
| `Votes.Ledger.AddVote` | app.py:235-257 | The in-place update leaves the ledger equal to `Added` applied to its old contents. |
| `Votes.HasUserVoted` | app.py:230-232 | The answer is true exactly when the hash is a key of the voters. It then returns that voter's record, and otherwise the empty record. |
| `Votes.StatsOf` | app.py:260-265 | Reports the two tallies, with missing ones as 0, and a total equal to their sum. On a consistent ledger that sum is the stored `total_votes`. |
| `Votes.AddedIdempotent` | app.py:236-241 | A second vote under the same hash, with any choice, address or time, gives the same ledger as the first vote alone. |
| `Votes.RepeatVoteNoOp` | app.py:240-241 | On a complete ledger, a vote under a known hash changes nothing. |
| `Votes.VotedAfterAdd` | app.py:248-252 | After a vote the hash is known. For a new voter, the lookup returns the record with the choice, time and address hash just stored. |
| `Votes.AddedStats` | app.py:243-246 | A repeat vote leaves the reported numbers unchanged. A new vote raises the reported total by exactly one. |
| `Votes.AddAllPreserves` | app.py:254-255 | Any series of votes on a consistent ledger keeps it consistent and keeps for + against minus the number of voters fixed. |
| `Votes.FirstWriteWins` | app.py:240-252 | Once a voter is recorded, its record survives every later series of votes unchanged. |
| `Votes.SeededLedger` | app.py:194-197 | Every ledger reached from the seed has `total_votes == for + against`. Its reported total is the number of voters plus 312. |
| `Votes.RepeatVoteStoresZeroTotal` | app.py:236-241 | A repeat vote on a document without metadata stores metadata with total 0 whatever the tallies, and the reported numbers stay those of the tallies. |
| `VoteApi.ValidateVote` | app.py:80-87 | `invalid_vote` exactly when the stripped, lower-cased vote is neither `for` nor `against`, whatever the fingerprint. `invalid_fingerprint` exactly when the vote is valid and the stripped fingerprint is empty or longer than 4096 characters. Otherwise the normalised choice and the stripped fingerprint, of length 1 to 4096. |
| `VoteApi.NormalizedVote` | app.py:81 | The vote value with `or ''`, `strip()` and `lower()` applied: a missing value gives the empty string, the length is that of the stripped value, and the result has no white space at either end and no ASCII capital. |
| `VoteApi.StatusCode` | app.py:85-117 | A rejection is 400, a repeat voter is 409 and an accepted vote is 200. |
| `VoteApi.HandleVote` | app.py:80-117 | A rejected request leaves the ledger alone. A known voter gets 409 with the stored choice and the current numbers, and the ledger is untouched. A new voter's vote is added, and the reported numbers are the new ones, one vote higher. The ledger changes only when the vote is accepted. |
| `VoteApi.AddVoteRoute` | app.py:78-117 | The imperative handler returns the response of `HandleVote` and leaves the ledger object holding the ledger it computes. |
| `VoteApi.RepeatRequestConflicts` | app.py:94-102 | Re-sending an accepted request under the same salt, from any address at any time, gets 409 with the choice just recorded and unchanged numbers. |
| `VoteApi.VoteSpellings` | app.py:81-84 | A padded vote value normalises to a lower-case word exactly when each character is that word's letter or its upper-case form. So `for`/`against` are matched ignoring case and surrounding white space. |
| `VoteApi.FingerprintLengthBoundary` | app.py:86-87 | With a valid vote, a stripped fingerprint of 4096 characters is accepted and one of 4097 gets `invalid_fingerprint`. |
| `VoteApi.FreshLedgerScenario` | app.py:89-117 | On the seed ledger, a first valid `for` vote is accepted with 246, 67 and 313. Re-sending it gets 409 with `for` and the same numbers. |
| `Identity.FingerprintPayloadRoundTrip` | app.py:220-222 | The fingerprint payload is the salt, a bar and the fingerprint, which can be recovered from it. |
| `Identity.FingerprintPayloadInjective` | app.py:220-222 | Under one salt, distinct fingerprints give distinct payloads. |
| `Identity.PayloadsDifferOnEqualInput` | app.py:220-227 | For the same input string, the fingerprint payload and the address payload always differ. |
| `Identity.CrossNamespaceCollision` | app.py:220-227 | The fingerprint made of `ip`, a bar and `x` hashes to the same value as the address `x`, whatever the hash function. |
| `Identity.FingerprintPayload` | app.py:220-221 | The payload is the salt, then a bar, then the fingerprint, each at its position. |
| `Identity.HashFingerprint` | app.py:220-222 | The fingerprint hash is the hash of the fingerprint payload; a fingerprint starting with `ip` and a bar is hashed as the address payload of the rest. |
| `Identity.IpPayload` | app.py:225-226 | The payload is the salt, then a bar, `ip` and a bar, then the address, each at its position. |
| `Identity.HashIp` | app.py:225-227 | The address hash is the hash of the fingerprint payload of `ip`, a bar and the address. |
| `Identity.ClientIp` | app.py:268-272 | With a non-empty `X-Forwarded-For` the address is its first comma-separated element, stripped, and so contains no comma. Without one it is the remote address, or empty when there is none. |
| `Identity.ClientIpFirstHop` | app.py:270-271 | For a header `a,rest` with `a` free of commas, the address is `a` stripped, whatever follows and whatever the remote address is. |
| `Identity.BlankFirstHop` | app.py:270-271 | A header whose first element is white space only gives the empty address, whatever follows it; the remote address is not used. |
| `Identity.ClientIpSingleHop` | app.py:270-271 | A non-empty header without a comma gives that header stripped. |
| `Email.LooksLikeEmail` | app.py:175-182 | False for any address containing a line feed or carriage return. Otherwise true exactly when the whole address matches `[A-Za-z0-9._%+-]+@[A-Za-z0-9.-]+\.[A-Za-z]{2,}`. |
| `Email.MatchesEmail` | app.py:175-182 | The scanning check standing for `EMAIL_RE.match`: the first `@` splits the address, the local part is from its class, and the domain holds a `.` followed by at least two letters. Its meaning is stated by `Email.MatchesEmailIff`. |
| `Email.MatchesEmailIff` | app.py:175 | The scanning check accepts exactly the strings the pattern matches. |
| `Email.MatchesEmailSound` | app.py:175 | Every string the scan accepts splits into local part, `@`, domain, `.` and a top-level domain of at least two letters. |
| `Email.MatchesEmailComplete` | app.py:175 | Every string with such a split is accepted by the scan. |
| `Email.WellFormedAddressAccepted` | app.py:175-182 | Any non-empty local part, non-empty domain and top-level domain of at least two letters, each from its class, form an accepted address. |
| `Email.InjectionRefused` | app.py:180-181 | An address with embedded CR/LF is refused, including one whose only fault is a trailing newline. The contact route strips the address first (app.py:141), so the trailing-newline case arises only for other callers. |
| `Email.ShortTopLevelDomainRefused` | app.py:175 | A one-letter top-level domain is refused (one concrete address). |
| `Text.Strip` | app.py:81-82 | The result is a slice of the input with only white space around it. It neither starts nor ends with white space, and it is empty exactly when the input is all white space. |
| `Text.StripPadded` | app.py:81-82 | Stripping `a + s + b`, with `a` and `b` white space and `s` unpadded, gives `s`. |
| `Text.StripIdempotent` | app.py:81-82 | Stripping twice is the same as stripping once. |
| `Text.Lower` | app.py:81 | Same length as the input, and every character is lowered in place. |
| `Text.LowerMatches` | app.py:81-84 | A lowered string equals a lower-case ASCII word exactly when each character is the word's letter or its upper-case letter. |
| `Text.FirstField` | app.py:271 | The first element of `split(sep)` is a prefix without `sep`, followed by `sep` or by the end of the string. |
| `Text.FirstFieldBeforeSeparator` | app.py:271 | For `a + sep + b` with `sep` not in `a`, the first element is `a`. |
| `Text.FirstFieldWhole` | app.py:271 | A string without the separator is its own first element. |

## Left out

- Routing, JSON and HTTP encoding, CORS, static files, `/ping`, `/health` and the `POST /api/votes` stub (app.py:17-76, 168-172) are framework plumbing.
- `GET /api/votes` and `GET /api/vote/check` (app.py:42-61, 119-135) are not modelled as handlers. They only combine `StatsOf`, `HasUserVoted` and the fingerprint hash, which are modelled.
- The contact route (app.py:137-166) is modelled only through the address check `Email.LooksLikeEmail`. Its empty-field checks and the e-mail sending are not modelled.
- File I/O in `_load_votes` and `_save_votes`, JSON (de)serialisation and the swallowed exceptions, including the `try` around `add_vote` in the handler. `Ledger.Loaded` takes the loaded document. `Ledger.Seeded` covers a missing or unreadable file.
- SHA-256 and hex encoding are a foreign library call. They become the parameter `sha`, and only the payloads are modelled.
- `_now_iso` reads the wall clock. It becomes the parameter `now`, and one value stands for all the clock readings `add_vote` takes (the default metadata, the record timestamp and `last_updated`).
- SMTP configuration and both e-mails (app.py:275-440) are network I/O and environment configuration.
- The lost-update race between concurrent load-modify-save requests is concurrency.
- Process bootstrap (app.py:443-448).
- JSON values of unexpected types are not modelled: a non-string `vote` or `fingerprint`, non-integer tallies (and `int()` truncating a float), a `null` entry or record, a metadata object missing one of its keys, or a stored record without `vote`. The source raises or answers `None` for these. In the model a stored document's tallies are integers and its records are complete.
- Text.Lower: maps only the ASCII letters `A`-`Z`. Python's full Unicode lower-casing is not modelled. The model treats other characters as unchanged, and the non-ASCII characters whose lower case is an ASCII letter (the Kelvin sign, and dotted capital I, which lowers to two characters) cannot spell `for` or `against`.
- Votes.Ledger.AddVote: its contract ties the new state to `Added` and does not restate the reported numbers. Those are stated about `Added` in `Votes.AddedStats`.
- A fingerprint holding a lone surrogate (which the JSON decoder accepts as a `\ud800`-style escape) passes `strip()` and the length check (app.py:82, 86), and then `.encode('utf-8')` in `_hash_fingerprint` (app.py:221) raises. The call at app.py:90 is outside the `try` at app.py:105, so that request fails with a server error. Dafny strings cannot hold a lone surrogate, so the model has no such input and always answers.
- Email.MatchesEmail: models `EMAIL_RE.match` on strings without a line feed only. Python's `$` also matches just before a final line feed, so the regular expression alone accepts an address followed by one newline. `_looks_like_email` refuses every line feed before matching (app.py:180-181), so `Email.LooksLikeEmail` is exact.
