# Ledger write path

This project models the write path of a small transactions ledger: a Django
`Transaction` record with a tamper-evident SHA-256 seal, the amount and
currency policy that guards it, the immutability rule of `save()`, and the
idempotent creation `create_idempotent` that turns a replayed idempotency key
into the stored row instead of a second one.

Modules:

- `Wrappers` (`wrappers.dfy`) holds `Option`, `Result` and `Outcome`. `Outcome` is pass/fail, the shape of a Django validator, which returns `None` or raises `ValidationError`.
- `Decimals` (`decimals.dfy`) models Python's `decimal.Decimal` as sign, coefficient and exponent.
  - `Value` gives the exact value of a decimal as a real.
  - `Compare` is Python's decimal comparison.
  - `Render` is `str(Decimal)`; `FromText` reads such text back, and `FromTextRender` proves the two are inverse.
  - `TotalDigits` and `DecimalPlaces` are the digit counts Django's `DecimalField` checks.
  - `Quantize` is how a `numeric(12,2)` column keeps an amount.
- `Delimited` (`delimited.dfy`) joins strings with a separator and splits them again. The hash payload uses it.
- `Validators` (`validators.dfy`) models `parse_amount`, `validate_amount`, `validate_currency`, the supported currencies and the amount ceiling.
- `Models` (`models.dfy`) models the `Transaction` model:
  - fields, status choices and the hash payload;
  - `full_clean`, `clean` and `save`;
  - `create_idempotent`.

  The table is a `Ledger` object whose `rows` field is the sequence of stored rows. `Insert` enforces the database constraints: the primary key, the unique idempotency key and the positive-amount check. `Transaction` is a class holding the instance's fields. `Save` sets the instance's `hash` in place, as the Django instance's is set, and leaves its other fields, the amount included, as they were.

  Each operation on the table also has a function on the rows. `SaveSpec` and `CreateSpec` give the result and the rows afterwards. The methods are proved to agree with them, and the properties are lemmas about those functions:
  - a replayed key returns the stored row;
  - two requests with one key add at most one row;
  - an existing id cannot be saved again;
  - every stored row passes the policy and re-hashes to its stored hash. This holds because the model's save hashes the amount as stored (see "## Findings"). The code as written keeps it only for amounts given at exactly two places (`SealAgreesAtTwoPlaces`);
  - ids and keys stay unique.

Outside inputs are parameters:
- the hash function is the ledger's `digest`, a function from string to string that stands for `sha256(...).hexdigest()`;
- `uuid.uuid4()` becomes `newId`;
- `timezone.now()` becomes `now`.

A UUID and a timestamp are carried as the text they contribute to the hash payload, that is `str(uuid)` and `isoformat()`.

Two behaviours of the code worth stating:
- The field `previous_hash` (transactions/models.py:26) suggests a chain of records, but nothing ever sets it, so every created record has `""` there. `CreateKeepsRowsCanonical` states this.
- Validation runs inside `save` (transactions/models.py:40), after the key lookup (transactions/models.py:51-53). So a replayed key returns the stored row even when the replayed amount or currency would be refused. `ReplayReturnsStored` states this.

## Model

| member | source | states |
|---|---|---|
| Decimals.Compare | transactions/validators.py:18-20 | Decimal comparison: the result is negative, zero or positive exactly when the first amount's exact value is below, equal to or above the second's, whatever the exponents |
| Decimals.FromTextRender | transactions/models.py:45 | reading back the text str() writes for a decimal gives that decimal: sign, coefficient and exponent survive rendering |
| Decimals.RenderInjective | transactions/models.py:45 | two decimals that render to the same text are the same decimal |
| Decimals.RenderPlain | transactions/models.py:45 | rendered text never holds the payload's separator character |
| Decimals.Quantize | transactions/models.py:21 | a value with at most two places is kept by the two-place column unchanged in value, at exponent -2 |
| Validators.ParseAmount | transactions/validators.py:9-14 | the amount is read exactly when the decimal constructor accepts the text, and is then what it reads; otherwise the error is "not a valid decimal" |
| Validators.ParseAmountOfDecimal | transactions/validators.py:9-14 | a raw amount that is already a decimal comes back as the same decimal when its str() text is read back |
| Validators.ValidateAmount | transactions/validators.py:17-21 | passes exactly when 0 < amount <= 1000000.00; refuses a non-positive amount as not positive and a larger one as over the limit |
| Validators.ValidateCurrency | transactions/validators.py:24-26 | passes exactly when the currency spells USD, EUR or GBP in any mix of letter case; any refusal is "unsupported" |
| Validators.UpperSpells | transactions/validators.py:25 | upper-casing a string gives an all-capital code exactly when the string spells that code ignoring case |
| Validators.UpperIdempotent | transactions/validators.py:25 | upper-casing twice is upper-casing once |
| Validators.CurrencyCaseInsensitive | transactions/validators.py:24-26 | a currency and its upper-cased form are accepted or refused together |
| Validators.SupportedAreUpper | transactions/validators.py:5 | every supported code is its own upper-case form |
| Validators.ValidatorExamples | transactions/validators.py:5-26 | 1000000.00 and 0.01 pass, 1000000.01 is over the limit, 0 and -5.00 are not positive; "usd" and "gBp" pass, "XXX" is refused |
| Delimited.SplitJoin | transactions/models.py:45 | splitting a list joined with the separator, whose parts do not contain it, gives the parts back |
| Models.PayloadFields | transactions/models.py:45 | the hash payload splits back into the eight hashed fields in order: id, key, account, amount text, currency, status, timestamp, previous hash |
| Models.PayloadDeterminesFields | transactions/models.py:44-46 | two records whose fields hold no separator and whose payloads are equal agree on every hashed field, the amount as a decimal included, so the payload loses nothing |
| Models.FullClean | transactions/models.py:33-40 | full_clean passes exactly when the field limits (key 1..128, amount within 12 digits and 2 places, currency <= 3, hashes <= 64), the amount and currency policy and key uniqueness all hold; a record whose only fault is a taken key is refused as a duplicate |
| Models.FindByKey | transactions/models.py:51 | the lookup finds nothing exactly when no row has the key, and what it finds is a stored row with that key |
| Models.Seal | transactions/models.py:41-42 | the written row carries the amount as the column keeps it (same value, two places), a hash over its own stored fields, and every other field unchanged |
| Models.SaveRefusesStoredId | transactions/models.py:37-39 | saving a record whose id is already stored is refused as immutable and leaves the table unchanged |
| Models.SaveRefusesInvalid | transactions/models.py:33-40 | a record whose amount or currency clean() refuses is not saved and nothing is written |
| Models.SaveOutcome | transactions/models.py:37-42 | save succeeds exactly when the id is new and full_clean passes; then exactly one row, the sealed record, is appended |
| Models.SavePreservesInvariant | transactions/models.py:18-42 | save keeps ids unique, keys unique and every stored row positive, within the ceiling, at two places, of a supported currency and correctly sealed |
| Models.NewRecordAcceptable | transactions/models.py:54-59 | the record create builds (currency upper-cased, status PENDING, empty hashes) passes full_clean exactly when the request's key is non-blank and short enough, its amount and currency pass the policy, and the key is free |
| Models.ReplayReturnsStored | transactions/models.py:51-53 | a key that is already stored returns that stored row and writes nothing, whatever the replayed amount and currency |
| Models.CreateAppendsOne | transactions/models.py:54-61 | with a free key and a new id, an admissible request appends exactly one sealed PENDING row and returns it |
| Models.CreateRefuses | transactions/models.py:54-60 | with a free key, a request that is not admissible, or whose new id is taken, is refused and the table is unchanged; a taken id is refused as immutable |
| Models.CreatePreservesInvariant | transactions/models.py:49-61 | create keeps the ledger invariant |
| Models.CreateTwice | transactions/models.py:49-61 | two creates with one key add at most one row; once the first succeeded, the second returns the same row and writes nothing |
| Models.CreateKeepsRowsCanonical | transactions/models.py:54-59 | every row create writes has an upper-case currency, status PENDING and an empty previous hash |
| Models.SaveKeepsCurrencyAsGiven | transactions/models.py:37-42 | save alone stores the currency exactly as given: a lower-case "usd" is accepted and stored as "usd" |
| Models.LowerCaseCurrencyAcceptable | transactions/models.py:33-35 | clean accepts a lower-case supported currency |
| Models.SealAsWritten | transactions/models.py:41-46 | as written, the hash covers the amount's text as given, not as the column stores it |
| Models.FiftyRenders | transactions/models.py:41-46 | the input of the finding: 50 renders as "50", and the column keeps it as 50.00, which renders as "50.00" |
| Models.AsWrittenPayloadsDiffer | transactions/models.py:41-46 | for every amount given with fewer than two decimal places, the payload hashed on save differs from the payload of the row the column keeps |
| Models.AsWrittenBreaksSeal | transactions/models.py:41-46 | for any digest that tells the two payloads apart, as SHA-256 does, the row the as-written save stores does not carry the hash of its own fields |
| Models.SealAgreesAtTwoPlaces | transactions/models.py:41-46 | for an amount already at two places, the as-written and the corrected seal agree |
| Models.Ledger.Insert | transactions/models.py:18-30 | the insert succeeds exactly when the id and key are free and the amount is positive; then the row is appended, otherwise nothing changes |
| Models.Transaction.constructor | transactions/models.py:18-26 | a new instance has the given fields, status PENDING and empty hashes |
| Models.Transaction.FromRow | transactions/models.py:51 | an instance read from the table holds exactly that row |
| Models.Transaction.Save | transactions/models.py:37-42 | the error and the new table are those of SaveSpec; on success the instance holds the inserted row except that its amount stays as given, and the ledger invariant is kept |
| Models.Transaction.CreateIdempotent | transactions/models.py:48-61 | the result and the new table are those of CreateSpec; the returned instance is fresh; a replay holds the stored row, a new record holds the appended row with the amount as given; the ledger invariant is kept |

## Left out

- Validators.ParseAmount: the decimal constructor is the parameter `parse`, because decimal text parsing is library code. The raw value is the text `str()` gives for it; `str()` of raw values that are not decimals (floats, integers) is not modelled.
- Models.SaveSpec, Models.Transaction.Save, Models.CreateSpec, Models.Transaction.CreateIdempotent: follow the corrected seal of the "## Findings" row. They store and hash the amount at two decimal places, as the column keeps it, whereas the code hashes the amount as given. The instance itself keeps its amount as given, as in the code; only the stored row and the hash use the two-place amount. The two agree for amounts given at exactly two places (`SealAgreesAtTwoPlaces`).
- HTTP views, URL routing, admin and migrations are not part of this model. The view's own check that the key is non-empty is therefore absent, but `full_clean`'s blank check on the key is modelled.
- Concurrency is left out: `transaction.atomic()` and `select_for_update()` have no counterpart. The model is sequential, so the database's `IntegrityError` on a duplicate key cannot arise. `Ledger.Insert` keeps the constraint, and `Transaction.Save` proves it is never hit.
- SHA-256 and `hexdigest` are the abstract `digest` function. Properties that need it to be collision-free take that as a premise.
- `uuid.uuid4()` and `timezone.now()` are parameters. UUIDs and timestamps are their text, and whether `account_id` is a well-formed UUID is not checked.
- Validators.ValidateCurrency: upper-casing covers ASCII letters only. Python's `str.upper` also maps some non-ASCII letters to ASCII ones, for example U+017F to 'S', so the model would refuse such a currency while the source accepts it.
- Models.FullClean: reports the first failing check, whereas Django collects the errors of all fields into one `ValidationError`. Which checks fail is modelled; the combined message is not.
- Non-finite decimals (NaN, Infinity) are not representable in the model. Comparing a NaN in Python raises instead of refusing the amount.
- A `pk` of `None` is not modelled. Every instance gets an id at construction, as the UUID default does.
- Error messages are constructors, not text.
- Status transitions other than the initial PENDING are not modelled. The core defines no transition.

## Findings

| source | as written | input that shows it | evidently intended | confidence | as-written member | corrected member |
|---|---|---|---|---|---|---|
| transactions/models.py:41-46 | the hash covers `str(self.amount)` of the Decimal as given, while the `DecimalField(max_digits=12, decimal_places=2)` column stores it at two places | amount `Decimal("50")`: the payload holds "50", the stored row reads back as 50.00, and re-computing its hash gives a different digest; the same holds for every amount given with fewer than two places | the hash covers the amount as stored, so that re-hashing a stored row reproduces its `hash` | medium, not executed (depends on the database returning the two-place value) | Models.SealAsWritten, Models.AsWrittenBreaksSeal | Models.Seal |
