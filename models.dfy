/**
 * The transaction ledger: an append-only table of transaction records. A
 * record is written once, by `Transaction.Save`, after the field checks and
 * the policy checks pass and with a hash over its own fields; it is never
 * written again. `Transaction.CreateIdempotent` writes at most one record per
 * idempotency key and hands back the stored one on a replay.
 *
 * The pure functions below specify each operation on the sequence of stored
 * rows; the classes at the end are the imperative model and are proved to
 * follow them.
 */
module Models {
  import opened Wrappers
  import opened Decimals
  import opened Validators
  import opened Delimited

  datatype Status = Pending | Approved | Rejected | Settled

  /** The text a status is stored and hashed as. */
  function StatusValue(s: Status): string
  {
    match s
    case Pending => "PENDING"
    case Approved => "APPROVED"
    case Rejected => "REJECTED"
    case Settled => "SETTLED"
  }

  /** A UUID, as its canonical text. */
  type Uuid = string

  /** A point in time, as its ISO-8601 text. */
  type Timestamp = string

  /** The one-way digest of a payload, as lower-case hex text (SHA-256). */
  type Digest = string -> string

  const MaxKeyLength: nat := 128
  const AmountMaxDigits: nat := 12
  const AmountDecimalPlaces: nat := 2
  const MaxCurrencyLength: nat := 3
  const MaxHashLength: nat := 64

  /** One row of the transaction table. */
  datatype Record = Record(
    id: Uuid,
    idempotencyKey: string,
    accountId: Uuid,
    amount: Decimal,
    currency: string,
    status: Status,
    createdAt: Timestamp,
    hash: string,
    previousHash: string)

  // ----- the record hash -----

  /** The fields the hash covers, in the order the payload lists them. */
  function HashedFields(t: Record): seq<string>
  {
    [t.id, t.idempotencyKey, t.accountId, Render(t.amount), t.currency,
     StatusValue(t.status), t.createdAt, t.previousHash]
  }

  /** The canonical payload: the hashed fields joined with '|'. */
  function Payload(t: Record): string
  {
    Join(HashedFields(t), '|')
  }

  function ComputeHash(digest: Digest, t: Record): string
  {
    digest(Payload(t))
  }

  /** The stored hash is the hash of the record's own fields. */
  predicate Sealed(digest: Digest, t: Record)
  {
    t.hash == ComputeHash(digest, t)
  }

  /** No hashed field contains the separator. */
  predicate Delimitable(t: Record)
  {
    forall i :: 0 <= i < |HashedFields(t)| ==> '|' !in HashedFields(t)[i]
  }

  /** The payload lists exactly the eight hashed fields, in this order, and
      cutting it at '|' gives them back. */
  lemma PayloadFields(t: Record)
    requires Delimitable(t)
    ensures Split(Payload(t), '|') ==
      [t.id, t.idempotencyKey, t.accountId, Render(t.amount), t.currency,
       StatusValue(t.status), t.createdAt, t.previousHash]
  {
    SplitJoin(HashedFields(t), '|');
  }

  /** Two records with the same payload agree on every hashed field, so the
      hash depends on those fields and on nothing else. */
  lemma PayloadDeterminesFields(t1: Record, t2: Record)
    requires Delimitable(t1) && Delimitable(t2)
    requires Payload(t1) == Payload(t2)
    ensures t1.id == t2.id && t1.idempotencyKey == t2.idempotencyKey
    ensures t1.accountId == t2.accountId && t1.amount == t2.amount
    ensures t1.currency == t2.currency && t1.status == t2.status
    ensures t1.createdAt == t2.createdAt && t1.previousHash == t2.previousHash
  {
    PayloadFields(t1);
    PayloadFields(t2);
    assert StatusValue(t1.status) == StatusValue(t2.status);
    RenderInjective(t1.amount, t2.amount);
  }

  // ----- full_clean -----

  /** The rule of a field that a field check found broken. */
  datatype FieldError =
    | KeyBlank | KeyTooLong
    | AmountTooManyDigits | AmountTooManyPlaces | AmountTooManyWholeDigits
    | CurrencyTooLong | HashTooLong | PreviousHashTooLong

  /** Why a save is refused. */
  datatype SaveError =
    | Immutable
    | FieldRejected(field: FieldError)
    | PolicyRejected(policy: ValidationError)
    | DuplicateKey

  /** The field-level checks, field by field in declaration order: the key is
      required and bounded, the amount fits a 12-digit column with 2 decimal
      places, the currency and both hashes are bounded. */
  function CleanFields(t: Record): Outcome<FieldError>
  {
    if t.idempotencyKey == "" then Fail(KeyBlank)
    else if |t.idempotencyKey| > MaxKeyLength then Fail(KeyTooLong)
    else if TotalDigits(t.amount) > AmountMaxDigits then Fail(AmountTooManyDigits)
    else if DecimalPlaces(t.amount) > AmountDecimalPlaces then Fail(AmountTooManyPlaces)
    else if TotalDigits(t.amount) - DecimalPlaces(t.amount) > AmountMaxDigits - AmountDecimalPlaces
    then Fail(AmountTooManyWholeDigits)
    else if |t.currency| > MaxCurrencyLength then Fail(CurrencyTooLong)
    else if |t.hash| > MaxHashLength then Fail(HashTooLong)
    else if |t.previousHash| > MaxHashLength then Fail(PreviousHashTooLong)
    else Pass
  }

  /** The model's own clean(): the amount check, then the currency check. */
  function Clean(t: Record): Outcome<ValidationError>
  {
    match ValidateAmount(t.amount)
    case Fail(e) => Fail(e)
    case Pass => ValidateCurrency(t.currency)
  }

  /** Everything a record must satisfy for full_clean to pass, stated at once. */
  predicate Acceptable(t: Record, keyTaken: bool)
  {
    && t.idempotencyKey != ""
    && |t.idempotencyKey| <= MaxKeyLength
    && TotalDigits(t.amount) <= AmountMaxDigits
    && DecimalPlaces(t.amount) <= AmountDecimalPlaces
    && TotalDigits(t.amount) - DecimalPlaces(t.amount) <= AmountMaxDigits - AmountDecimalPlaces
    && |t.currency| <= MaxCurrencyLength
    && |t.hash| <= MaxHashLength
    && |t.previousHash| <= MaxHashLength
    && 0.0 < Value(t.amount) <= 1000000.0
    && Upper(t.currency) in SupportedCurrencies
    && !keyTaken
  }

  /** full_clean: field checks, then clean(), then uniqueness of the key;
      the first failure is reported. */
  function FullClean(t: Record, keyTaken: bool): (r: Outcome<SaveError>)
    ensures r.Pass? <==> Acceptable(t, keyTaken)
    ensures keyTaken && r.Fail? && CleanFields(t).Pass? && Clean(t).Pass? ==> r.error == DuplicateKey
  {
    match CleanFields(t)
    case Fail(e) => Fail(FieldRejected(e))
    case Pass =>
      match Clean(t)
      case Fail(e) => Fail(PolicyRejected(e))
      case Pass => if keyTaken then Fail(DuplicateKey) else Pass
  }

  // ----- the table -----

  predicate IdTaken(rows: seq<Record>, id: Uuid)
  {
    exists i :: 0 <= i < |rows| && rows[i].id == id
  }

  predicate KeyTaken(rows: seq<Record>, key: string)
  {
    exists i :: 0 <= i < |rows| && rows[i].idempotencyKey == key
  }

  /** The first row with the given idempotency key, if any. */
  function FindByKey(rows: seq<Record>, key: string): (r: Option<Record>)
    ensures r.None? <==> !KeyTaken(rows, key)
    ensures r.Some? ==> r.value in rows && r.value.idempotencyKey == key
  {
    if rows == [] then None
    else if rows[0].idempotencyKey == key then Some(rows[0])
    else
      assert forall i :: 1 <= i < |rows| ==> rows[i] == rows[1..][i - 1];
      FindByKey(rows[1..], key)
  }

  ghost predicate IdsUnique(rows: seq<Record>)
  {
    forall i, j :: 0 <= i < j < |rows| ==> rows[i].id != rows[j].id
  }

  ghost predicate KeysUnique(rows: seq<Record>)
  {
    forall i, j :: 0 <= i < j < |rows| ==> rows[i].idempotencyKey != rows[j].idempotencyKey
  }

  /** What every stored row satisfies: a positive amount within the ceiling,
      kept at two decimal places, a currency the policy accepts, a key, and
      a hash over its own fields. */
  predicate StoredRow(digest: Digest, r: Record)
  {
    && 0.0 < Value(r.amount) <= 1000000.0
    && r.amount.exponent == -(AmountDecimalPlaces as int)
    && Upper(r.currency) in SupportedCurrencies
    && r.idempotencyKey != ""
    && Sealed(digest, r)
  }

  /** The ledger invariant. */
  ghost predicate LedgerInvariant(digest: Digest, rows: seq<Record>)
  {
    && IdsUnique(rows)
    && KeysUnique(rows)
    && forall i :: 0 <= i < |rows| ==> StoredRow(digest, rows[i])
  }

  // ----- save -----

  /** The record as save writes it: the amount as the column keeps it, at
      two decimal places, and the hash over those stored fields. */
  function Seal(digest: Digest, t: Record): (s: Record)
    requires DecimalPlaces(t.amount) <= AmountDecimalPlaces
    ensures Sealed(digest, s)
    ensures Value(s.amount) == Value(t.amount) && s.amount.exponent == -(AmountDecimalPlaces as int)
    ensures s.(amount := t.amount, hash := t.hash) == t
  {
    var stored := t.(amount := Quantize(t.amount, AmountDecimalPlaces));
    stored.(hash := ComputeHash(digest, stored))
  }

  /** save() on the rows of the table: the result and the rows afterwards.
      An id already stored is refused as an edit; otherwise full_clean
      decides; a record that passes is sealed and appended. */
  function SaveSpec(digest: Digest, rows: seq<Record>, t: Record): (Result<Record, SaveError>, seq<Record>)
  {
    if IdTaken(rows, t.id) then (Err(Immutable), rows)
    else
      match FullClean(t, KeyTaken(rows, t.idempotencyKey))
      case Fail(e) => (Err(e), rows)
      case Pass =>
        var s := Seal(digest, t);
        (Ok(s), rows + [s])
  }

  /** Saving a record whose id is stored fails as an edit and leaves the table
      as it was. */
  lemma SaveRefusesStoredId(digest: Digest, rows: seq<Record>, t: Record)
    requires IdTaken(rows, t.id)
    ensures SaveSpec(digest, rows, t) == (Err(Immutable), rows)
  {
  }

  /** A record the policy refuses is not written. */
  lemma SaveRefusesInvalid(digest: Digest, rows: seq<Record>, t: Record)
    requires ValidateAmount(t.amount) != Pass || ValidateCurrency(t.currency) != Pass
    ensures SaveSpec(digest, rows, t).0.Err?
    ensures SaveSpec(digest, rows, t).1 == rows
  {
  }

  /** Save succeeds exactly when the id is new and full_clean passes; then it
      appends one record, carrying the given fields with the amount at two
      places and a hash over its own stored fields. Otherwise the table is
      unchanged. */
  lemma SaveOutcome(digest: Digest, rows: seq<Record>, t: Record)
    ensures var (result, after) := SaveSpec(digest, rows, t);
      && (result.Ok? <==> !IdTaken(rows, t.id) && Acceptable(t, KeyTaken(rows, t.idempotencyKey)))
      && (result.Ok? ==> after == rows + [result.value])
      && (result.Ok? ==> Sealed(digest, result.value) && StoredRow(digest, result.value))
      && (result.Ok? ==> result.value.(amount := t.amount, hash := t.hash) == t)
      && (result.Ok? ==> Value(result.value.amount) == Value(t.amount))
      && (result.Err? ==> after == rows)
  {
    var (result, after) := SaveSpec(digest, rows, t);
    if result.Ok? {
      assert Upper(t.currency) in SupportedCurrencies;
    }
  }

  /** Save keeps the ledger invariant: ids and keys stay unique and every row
      stays within the policy and sealed. */
  lemma SavePreservesInvariant(digest: Digest, rows: seq<Record>, t: Record)
    requires LedgerInvariant(digest, rows)
    ensures LedgerInvariant(digest, SaveSpec(digest, rows, t).1)
  {
    var (result, after) := SaveSpec(digest, rows, t);
    if result.Ok? {
      SaveOutcome(digest, rows, t);
      var s := result.value;
      assert !IdTaken(rows, s.id) && !KeyTaken(rows, s.idempotencyKey);
      forall i, j | 0 <= i < j < |after|
        ensures after[i].id != after[j].id && after[i].idempotencyKey != after[j].idempotencyKey
      {
        if j == |rows| {
          assert after[i] == rows[i];
        }
      }
    }
  }

  // ----- create_idempotent -----

  /** The arguments of an idempotent create. */
  datatype CreateRequest = CreateRequest(idempotencyKey: string, accountId: Uuid, amount: Decimal, currency: string)

  /** The unsaved record a create builds: the currency upper-cased, status
      pending, no previous hash, no hash yet. */
  function NewRecord(req: CreateRequest, id: Uuid, now: Timestamp): Record
  {
    Record(id, req.idempotencyKey, req.accountId, req.amount, Upper(req.currency), Pending, now, "", "")
  }

  /** create_idempotent on the rows of the table: a stored row with the key is
      returned as it is; otherwise a new record is built and saved. */
  function CreateSpec(digest: Digest, rows: seq<Record>, req: CreateRequest, id: Uuid, now: Timestamp)
    : (Result<Record, SaveError>, seq<Record>)
  {
    match FindByKey(rows, req.idempotencyKey)
    case Some(existing) => (Ok(existing), rows)
    case None => SaveSpec(digest, rows, NewRecord(req, id, now))
  }

  /** What a create request must satisfy for its record to pass full_clean. */
  predicate Admissible(req: CreateRequest)
  {
    && req.idempotencyKey != ""
    && |req.idempotencyKey| <= MaxKeyLength
    && TotalDigits(req.amount) <= AmountMaxDigits
    && DecimalPlaces(req.amount) <= AmountDecimalPlaces
    && TotalDigits(req.amount) - DecimalPlaces(req.amount) <= AmountMaxDigits - AmountDecimalPlaces
    && ValidateAmount(req.amount) == Pass
    && ValidateCurrency(req.currency) == Pass
  }

  lemma NewRecordAcceptable(req: CreateRequest, id: Uuid, now: Timestamp, keyTaken: bool)
    ensures Acceptable(NewRecord(req, id, now), keyTaken) <==> Admissible(req) && !keyTaken
  {
    CurrencyCaseInsensitive(req.currency);
    UpperLength(req.currency);
  }

  /** A replay: when a row already has the key, create returns that row and
      leaves the table as it was, whatever account, amount and currency it
      is given (the lookup comes before any validation). */
  lemma ReplayReturnsStored(digest: Digest, rows: seq<Record>, req: CreateRequest, id: Uuid, now: Timestamp, i: nat)
    requires KeysUnique(rows)
    requires i < |rows| && rows[i].idempotencyKey == req.idempotencyKey
    ensures CreateSpec(digest, rows, req, id, now) == (Ok(rows[i]), rows)
  {
    var found := FindByKey(rows, req.idempotencyKey);
    var j :| 0 <= j < |rows| && rows[j] == found.value;
    assert i == j;
  }

  /** A first submission of a key with an unused id and an admissible payload
      adds exactly one row: pending, currency upper-cased, no previous hash,
      amount kept at two places, sealed. Nothing else changes. */
  lemma CreateAppendsOne(digest: Digest, rows: seq<Record>, req: CreateRequest, id: Uuid, now: Timestamp)
    requires !KeyTaken(rows, req.idempotencyKey) && !IdTaken(rows, id)
    requires Admissible(req)
    ensures var (result, after) := CreateSpec(digest, rows, req, id, now);
      && result.Ok?
      && after == rows + [result.value]
      && result.value.id == id
      && result.value.idempotencyKey == req.idempotencyKey
      && result.value.accountId == req.accountId
      && Value(result.value.amount) == Value(req.amount)
      && result.value.currency == Upper(req.currency)
      && result.value.status == Pending
      && result.value.createdAt == now
      && result.value.previousHash == ""
      && Sealed(digest, result.value)
  {
    NewRecordAcceptable(req, id, now, false);
    SaveOutcome(digest, rows, NewRecord(req, id, now));
  }

  /** A first submission that is not admissible, or whose new id is taken,
      fails and writes nothing. */
  lemma CreateRefuses(digest: Digest, rows: seq<Record>, req: CreateRequest, id: Uuid, now: Timestamp)
    requires !KeyTaken(rows, req.idempotencyKey)
    requires IdTaken(rows, id) || !Admissible(req)
    ensures CreateSpec(digest, rows, req, id, now).0.Err?
    ensures CreateSpec(digest, rows, req, id, now).1 == rows
    ensures IdTaken(rows, id) ==> CreateSpec(digest, rows, req, id, now).0 == Err(Immutable)
  {
    NewRecordAcceptable(req, id, now, false);
    SaveOutcome(digest, rows, NewRecord(req, id, now));
  }

  /** create keeps the ledger invariant. */
  lemma CreatePreservesInvariant(digest: Digest, rows: seq<Record>, req: CreateRequest, id: Uuid, now: Timestamp)
    requires LedgerInvariant(digest, rows)
    ensures LedgerInvariant(digest, CreateSpec(digest, rows, req, id, now).1)
  {
    if FindByKey(rows, req.idempotencyKey).None? {
      SavePreservesInvariant(digest, rows, NewRecord(req, id, now));
    }
  }

  /** Two creates in a row with the same key: the table grows by at most one
      row, and once the first succeeded the second returns the very same
      record (same id, same hash) and writes nothing, whatever else it is
      given. */
  lemma CreateTwice(digest: Digest, rows: seq<Record>, first: CreateRequest, second: CreateRequest,
                    id1: Uuid, id2: Uuid, now1: Timestamp, now2: Timestamp)
    requires LedgerInvariant(digest, rows)
    requires second.idempotencyKey == first.idempotencyKey
    ensures var (r1, rows1) := CreateSpec(digest, rows, first, id1, now1);
      var (r2, rows2) := CreateSpec(digest, rows1, second, id2, now2);
      && |rows2| <= |rows| + 1
      && (r1.Ok? ==> r2 == r1 && rows2 == rows1)
      && (r1.Ok? ==> r2.value.id == r1.value.id && r2.value.hash == r1.value.hash)
  {
    var (r1, rows1) := CreateSpec(digest, rows, first, id1, now1);
    CreatePreservesInvariant(digest, rows, first, id1, now1);
    var key := first.idempotencyKey;
    if r1.Ok? {
      var k :| 0 <= k < |rows1| && rows1[k] == r1.value;
      ReplayReturnsStored(digest, rows1, second, id2, now2, k);
    } else {
      SaveOutcome(digest, rows, NewRecord(first, id1, now1));
      SaveOutcome(digest, rows1, NewRecord(second, id2, now2));
    }
  }

  /** Rows as create writes them: a supported currency in upper case, status
      pending and no link to a previous record. */
  ghost predicate CreatedRows(rows: seq<Record>)
  {
    forall i :: 0 <= i < |rows| ==>
      rows[i].currency in SupportedCurrencies && rows[i].status == Pending && rows[i].previousHash == ""
  }

  /** A table written only through create keeps its currencies upper-case and
      never chains a record to its predecessor. */
  lemma CreateKeepsRowsCanonical(digest: Digest, rows: seq<Record>, req: CreateRequest, id: Uuid, now: Timestamp)
    requires CreatedRows(rows)
    ensures CreatedRows(CreateSpec(digest, rows, req, id, now).1)
  {
    if FindByKey(rows, req.idempotencyKey).None? {
      var t := NewRecord(req, id, now);
      SaveOutcome(digest, rows, t);
      UpperIdempotent(req.currency);
    }
  }

  /** save itself does not upper-case: a record it accepts is stored with the
      currency as given, so one saved directly with "usd" is stored with "usd"
      and only create keeps currencies canonical. */
  lemma SaveKeepsCurrencyAsGiven(digest: Digest, rows: seq<Record>, t: Record)
    requires !IdTaken(rows, t.id) && Acceptable(t, KeyTaken(rows, t.idempotencyKey))
    ensures SaveSpec(digest, rows, t).0.Ok?
    ensures SaveSpec(digest, rows, t).0.value.currency == t.currency
    ensures t.currency == "usd" ==> !CreatedRows(SaveSpec(digest, rows, t).1)
  {
    SaveOutcome(digest, rows, t);
    var after := SaveSpec(digest, rows, t).1;
    assert after[|rows|].currency == t.currency;
  }

  /** A lower-case currency passes full_clean. */
  lemma LowerCaseCurrencyAcceptable(t: Record)
    requires t.idempotencyKey == "k1" && t.amount == Decimal(false, 500, -2)
    requires t.currency == "usd" && t.hash == "" && t.previousHash == ""
    ensures Acceptable(t, false)
  {
    assert Value(t.amount) == 5.0;
    assert NatToString(500) == "500" by {
      assert NatToString(50) == "50";
    }
    assert TotalDigits(t.amount) == 3;
    assert Upper("usd") == "USD";
  }

  // ----- the hash of the amount as the code writes it -----

  /** The record the code writes: the column keeps the amount at two decimal
      places, but the hash is computed over the amount as it was given. */
  function SealAsWritten(digest: Digest, t: Record): (s: Record)
    requires DecimalPlaces(t.amount) <= AmountDecimalPlaces
    ensures s.hash == ComputeHash(digest, t)
    ensures Value(s.amount) == Value(t.amount) && s.amount.exponent == -(AmountDecimalPlaces as int)
  {
    t.(amount := Quantize(t.amount, AmountDecimalPlaces), hash := ComputeHash(digest, t))
  }

  /** The text fields of a record other than the amount contain no '|'. */
  predicate PlainText(t: Record)
  {
    && '|' !in t.id && '|' !in t.idempotencyKey && '|' !in t.accountId
    && '|' !in t.currency && '|' !in t.createdAt && '|' !in t.previousHash
  }

  lemma StatusPlain(s: Status)
    ensures '|' !in StatusValue(s)
  {
  }

  lemma PlainTextDelimitable(t: Record)
    requires PlainText(t)
    ensures Delimitable(t)
  {
    var fields := HashedFields(t);
    forall i | 0 <= i < |fields|
      ensures '|' !in fields[i]
    {
      if i == 3 {
        RenderPlain(t.amount);
      } else if i == 5 {
        StatusPlain(t.status);
      }
    }
  }

  /** The input of the finding: 50 given without places is written "50",
      and the column gives it back as 50.00, written "50.00". */
  lemma FiftyRenders()
    ensures Quantize(Decimal(false, 50, 0), AmountDecimalPlaces) == Decimal(false, 5000, -2)
    ensures Render(Decimal(false, 50, 0)) == "50"
    ensures Render(Decimal(false, 5000, -2)) == "50.00"
  {
    assert NatToString(50) == "50";
    assert NatToString(5000) == "5000" by {
      assert NatToString(500) == "500";
    }
  }

  /** Any amount given with fewer than two decimal places: the column keeps
      it at two places, which str() writes differently, so the payload hashed
      is not the payload of the stored row. */
  lemma AsWrittenPayloadsDiffer(t: Record)
    requires PlainText(t) && t.amount.exponent > -(AmountDecimalPlaces as int)
    ensures Payload(t) != Payload(t.(amount := Quantize(t.amount, AmountDecimalPlaces)))
  {
    var stored := t.(amount := Quantize(t.amount, AmountDecimalPlaces));
    assert stored.amount != t.amount;
    PlainTextDelimitable(t);
    PlainTextDelimitable(stored);
    if Payload(t) == Payload(stored) {
      PayloadDeterminesFields(t, stored);
    }
  }

  /** So for any digest that tells those two payloads apart, as SHA-256 does,
      the row the code stores does not carry the hash of its own fields. */
  lemma AsWrittenBreaksSeal(digest: Digest, t: Record)
    requires PlainText(t) && t.amount.exponent > -(AmountDecimalPlaces as int)
    requires digest(Payload(t)) != digest(Payload(t.(amount := Quantize(t.amount, AmountDecimalPlaces))))
    ensures !Sealed(digest, SealAsWritten(digest, t))
  {
    var s := SealAsWritten(digest, t);
    assert HashedFields(s) == HashedFields(t.(amount := Quantize(t.amount, AmountDecimalPlaces)));
  }

  /** Where the amount already has two decimal places, the code as written and
      the corrected Seal store the same row. */
  lemma SealAgreesAtTwoPlaces(digest: Digest, t: Record)
    requires t.amount.exponent == -(AmountDecimalPlaces as int)
    ensures SealAsWritten(digest, t) == Seal(digest, t)
  {
    assert Quantize(t.amount, AmountDecimalPlaces) == t.amount;
  }

  // ----- the imperative model -----

  /** The transaction table. `digest` is the hash function the ledger uses. */
  class Ledger {
    const digest: Digest
    var rows: seq<Record>

    ghost predicate Valid()
      reads this
    {
      LedgerInvariant(digest, rows)
    }

    constructor (digest: Digest)
      ensures Valid() && this.digest == digest && rows == []
    {
      this.digest := digest;
      rows := [];
    }

    /** The raw insert of one row, refused only by the table's own
        constraints: the primary key, the unique idempotency key and a
        positive amount. It neither needs nor keeps `Valid()`: a row that is
        not sealed would go in. `Transaction.Save` is its one caller, and it
        inserts only sealed rows that pass full_clean. */
    method Insert(r: Record) returns (inserted: bool)
      modifies this
      ensures inserted <==>
        !IdTaken(old(rows), r.id) && !KeyTaken(old(rows), r.idempotencyKey) && Value(r.amount) > 0.0
      ensures rows == if inserted then old(rows) + [r] else old(rows)
    {
      assert Value(Zero) == 0.0;
      inserted := !IdTaken(rows, r.id) && !KeyTaken(rows, r.idempotencyKey) && Compare(r.amount, Zero) > 0;
      if inserted {
        rows := rows + [r];
      }
    }
  }

  /** A transaction instance: the fields of one record, held in memory
      before it is saved or after it is read back. */
  class Transaction {
    var id: Uuid
    var idempotencyKey: string
    var accountId: Uuid
    var amount: Decimal
    var currency: string
    var status: Status
    var createdAt: Timestamp
    var hash: string
    var previousHash: string

    function Row(): Record
      reads this
    {
      Record(id, idempotencyKey, accountId, amount, currency, status, createdAt, hash, previousHash)
    }

    /** A new, unsaved instance: status pending, no hash, no previous hash.
        `id` and `createdAt` are the fresh UUID and the current time. */
    constructor (id: Uuid, idempotencyKey: string, accountId: Uuid, amount: Decimal, currency: string, createdAt: Timestamp)
      ensures Row() == Record(id, idempotencyKey, accountId, amount, currency, Pending, createdAt, "", "")
    {
      this.id := id;
      this.idempotencyKey := idempotencyKey;
      this.accountId := accountId;
      this.amount := amount;
      this.currency := currency;
      this.status := Pending;
      this.createdAt := createdAt;
      this.hash := "";
      this.previousHash := "";
    }

    /** An instance holding a row read from the table. */
    constructor FromRow(r: Record)
      ensures Row() == r
    {
      id := r.id;
      idempotencyKey := r.idempotencyKey;
      accountId := r.accountId;
      amount := r.amount;
      currency := r.currency;
      status := r.status;
      createdAt := r.createdAt;
      hash := r.hash;
      previousHash := r.previousHash;
    }

    /** Persists this instance once: an id already in the table is refused
        as an edit; then full_clean; then the hash is set and the row is
        inserted. The row inserted is the sealed record: the amount as the
        column keeps it, at two places, and the hash over those stored
        fields. The instance keeps its amount as given and takes the hash.
        On failure neither the instance nor the table changes. */
    method Save(ledger: Ledger) returns (error: Option<SaveError>)
      requires ledger.Valid()
      modifies this, ledger
      ensures ledger.Valid()
      ensures ledger.rows == SaveSpec(ledger.digest, old(ledger.rows), old(Row())).1
      ensures error.None? <==> SaveSpec(ledger.digest, old(ledger.rows), old(Row())).0.Ok?
      ensures error.None? ==>
        Row() == SaveSpec(ledger.digest, old(ledger.rows), old(Row())).0.value.(amount := old(amount))
      ensures error.Some? ==>
        Err(error.value) == SaveSpec(ledger.digest, old(ledger.rows), old(Row())).0 && Row() == old(Row())
    {
      if IdTaken(ledger.rows, id) {
        return Some(Immutable);
      }
      var verdict := FullClean(Row(), KeyTaken(ledger.rows, idempotencyKey));
      if verdict.Fail? {
        return Some(verdict.error);
      }
      var sealed := Seal(ledger.digest, Row());
      hash := sealed.hash;
      var inserted := ledger.Insert(sealed);
      assert inserted;
      SavePreservesInvariant(ledger.digest, old(ledger.rows), old(Row()));
      return None;
    }

    /** Creates the transaction for `idempotencyKey` once. A row that already
        has the key is read back and returned as it is, with no validation of
        the other arguments. Otherwise a new instance is built, with the
        currency upper-cased, the fresh id `newId` and the time `now`, and
        saved; the instance returned keeps the amount as given. */
    static method CreateIdempotent(ledger: Ledger, idempotencyKey: string, accountId: Uuid, amount: Decimal,
                                   currency: string, newId: Uuid, now: Timestamp)
      returns (result: Result<Transaction, SaveError>)
      requires ledger.Valid()
      modifies ledger
      ensures ledger.Valid()
      ensures var spec := CreateSpec(ledger.digest, old(ledger.rows),
                                     CreateRequest(idempotencyKey, accountId, amount, currency), newId, now);
        && ledger.rows == spec.1
        && result.Ok? == spec.0.Ok?
        && (result.Ok? ==> fresh(result.value))
        && (result.Ok? && KeyTaken(old(ledger.rows), idempotencyKey) ==> result.value.Row() == spec.0.value)
        && (result.Ok? && !KeyTaken(old(ledger.rows), idempotencyKey) ==>
              result.value.Row() == spec.0.value.(amount := amount))
        && (result.Err? ==> result.error == spec.0.error)
    {
      var existing := FindByKey(ledger.rows, idempotencyKey);
      if existing.Some? {
        var stored := new Transaction.FromRow(existing.value);
        return Ok(stored);
      }
      var instance := new Transaction(newId, idempotencyKey, accountId, amount, Upper(currency), now);
      var error := instance.Save(ledger);
      if error.Some? {
        return Err(error.value);
      }
      return Ok(instance);
    }
  }
}
