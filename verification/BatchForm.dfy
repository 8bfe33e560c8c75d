/**
 * Rows of the batch payment form and the send/retry pass
 * (frontend/components/BatchPaymentForm.tsx).
 *
 * Building, signing and submitting a payment are outcomes chosen by the environment. Amounts are
 * exact: `parseFloat` is an abstract function to rationals, and `toFixed(7)` rounds to whole
 * stroops (section 21.1.3.3 of ECMA-262: nearest, ties to the larger).
 */
module BatchForm {
  import opened Options

  datatype TokenKind = Xlm | Usdc | Custom

  datatype Token = Token(code: string, issuer: Option<string>, kind: TokenKind)

  datatype Status = Idle | Pending | Success | Failed

  datatype RowError =
    | InvalidAddress
    | AmountNotPositive
    | OwnAddress
    | IssuerMissing
    | SigningRejected
    | Message(text: string)

  datatype Row = Row(
    id: string, address: string, amount: string, memo: string, token: Token,
    status: Status, error: Option<RowError>, transactionHash: Option<string>)

  /** What `parseFloat` yields: NaN and the infinities are not finite. */
  datatype Number = NotFinite | Finite(value: real)

  /** The connected account and the functions the form calls. `fixed7` is `toFixed(7)`. */
  datatype Env = Env(
    publicKey: string,
    isAddress: string -> bool,
    parse: string -> Number,
    fixed7: real -> string)

  const XLM := Token("XLM", None, Xlm)

  const STROOPS_PER_UNIT := 10000000.0

  /** `x.toFixed(7)` for x >= 0, as a whole number of stroops. */
  function Stroops(x: real): int {
    (x * STROOPS_PER_UNIT + 0.5).Floor
  }

  /** `validateRecipient`: the first problem, or None. An empty issuer is falsy. */
  function Validate(env: Env, row: Row): Option<RowError> {
    if !env.isAddress(row.address) then Some(InvalidAddress)
    else if !IsPositive(env.parse(row.amount)) then Some(AmountNotPositive)
    else if row.address == env.publicKey then Some(OwnAddress)
    else if row.token.kind != Xlm && !HasIssuer(row.token) then Some(IssuerMissing)
    else None
  }

  predicate IsPositive(n: Number) {
    n.Finite? && n.value > 0.0
  }

  predicate HasIssuer(token: Token) {
    token.issuer.Some? && token.issuer.value != ""
  }

  // ----- One row of a pass -----

  /**
   * How building, signing and submitting end. Two of these leave an accepted payment unreported: a
   * lost response makes the submit call fail although the network took the transaction, and a
   * success callback that throws does so inside the same `try`. Both mark the row failed.
   */
  datatype Outcome =
    | BuildFails(message: string)
    | SignFails(reason: Option<string>)
    | SubmitFails(message: string)
    | AcceptedButSubmitFails(message: string)
    | Submits(hash: string)
    | SubmitsButCallbackThrows(hash: string, message: string)

  /** The network accepted the payment. */
  predicate Paid(outcome: Outcome) {
    SubmitReturns(outcome) || outcome.AcceptedButSubmitFails?
  }

  /** The submit call returned a hash. */
  predicate SubmitReturns(outcome: Outcome) {
    outcome.Submits? || outcome.SubmitsButCallbackThrows?
  }

  datatype Asset = Native | UsdcAsset | Issued(code: string, issuer: string)

  /** A payment the network accepted, with the row it came from. */
  datatype Payment = Payment(rowId: string, to: string, stroops: int, asset: Asset)

  /** `assetParam`: a code other than XLM and USDC without an issuer falls back to XLM. */
  function AssetOf(token: Token): Asset {
    if token.code == "XLM" then Native
    else if token.code == "USDC" then UsdcAsset
    else if HasIssuer(token) then Issued(token.code, token.issuer.value)
    else Native
  }

  function AssetCode(asset: Asset): string {
    match asset
    case Native => "XLM"
    case UsdcAsset => "USDC"
    case Issued(code, _) => code
  }

  function PaymentOf(env: Env, row: Row): Payment
    requires IsPositive(env.parse(row.amount))
  {
    Payment(row.id, row.address, Stroops(env.parse(row.amount).value), AssetOf(row.token))
  }

  /** Whether a pass takes up the row at all. */
  predicate Attempted(row: Row, retryOnlyFailed: bool) {
    row.status != Success && (retryOnlyFailed ==> row.status == Failed)
  }

  /** Whether a pass submits a payment for the row. */
  predicate Pays(env: Env, row: Row, retryOnlyFailed: bool, outcome: Outcome) {
    Attempted(row, retryOnlyFailed) && Validate(env, row) == None && Paid(outcome)
  }

  /** A validated row once its attempt has ended. */
  function Settled(row: Row, outcome: Outcome): Row {
    row.(status := if outcome.Submits? then Success else Failed,
         error := ErrorOf(outcome),
         transactionHash := if SubmitReturns(outcome) then Some(outcome.hash) else row.transactionHash)
  }

  function ErrorOf(outcome: Outcome): Option<RowError> {
    match outcome
    case Submits(_) => None
    case SignFails(reason) => Some(SignError(reason))
    case _ => Some(Message(outcome.message))
  }

  function SignError(reason: Option<string>): RowError {
    if reason.Some? && reason.value != "" then Message(reason.value) else SigningRejected
  }

  /** The row after a pass. */
  function RowAfter(env: Env, row: Row, retryOnlyFailed: bool, outcome: Outcome): Row {
    if !Attempted(row, retryOnlyFailed) then row
    else if Validate(env, row).Some? then row.(status := Failed, error := Validate(env, row))
    else Settled(row, outcome)
  }

  // ----- A whole pass -----

  type Outcomes = nat -> Outcome

  function RowsAfter(env: Env, rows: seq<Row>, retryOnlyFailed: bool, outcomes: Outcomes): (r: seq<Row>)
    ensures |r| == |rows|
    ensures forall i :: 0 <= i < |rows| ==> r[i] == RowAfter(env, rows[i], retryOnlyFailed, outcomes(i))
  {
    seq(|rows|, i requires 0 <= i < |rows| => RowAfter(env, rows[i], retryOnlyFailed, outcomes(i)))
  }

  /** The accepted payments of a pass over the first `n` rows, in row order. */
  function PaymentsOf(env: Env, rows: seq<Row>, retryOnlyFailed: bool, outcomes: Outcomes, n: nat): seq<Payment>
    requires n <= |rows|
  {
    if n == 0 then []
    else
      PaymentsOf(env, rows, retryOnlyFailed, outcomes, n - 1)
      + if Pays(env, rows[n - 1], retryOnlyFailed, outcomes(n - 1)) then [PaymentOf(env, rows[n - 1])] else []
  }

  datatype BatchMessage = NoMessage | Complete | SomeFailures

  predicate AnyWith(rows: seq<Row>, status: Status) {
    exists i :: 0 <= i < |rows| && rows[i].status == status
  }

  /**
   * `processRows`. Rows are copied and then changed one by one; `payments` collects what the
   * network accepted.
   */
  method ProcessRows(env: Env, recipients: seq<Row>, retryOnlyFailed: bool, outcomes: Outcomes)
    returns (next: seq<Row>, payments: seq<Payment>, message: BatchMessage)
    ensures next == RowsAfter(env, recipients, retryOnlyFailed, outcomes)
    ensures payments == PaymentsOf(env, recipients, retryOnlyFailed, outcomes, |recipients|)
    ensures message == Complete <==> forall i :: 0 <= i < |next| ==> next[i].status != Failed
    ensures message == SomeFailures <==>
              (exists i :: 0 <= i < |next| && next[i].status == Failed)
              && (exists i :: 0 <= i < |next| && next[i].status == Success)
  {
    next, payments := recipients, [];
    for i := 0 to |next|
      invariant |next| == |recipients|
      invariant forall k :: 0 <= k < i ==> next[k] == RowAfter(env, recipients[k], retryOnlyFailed, outcomes(k))
      invariant forall k :: i <= k < |next| ==> next[k] == recipients[k]
      invariant payments == PaymentsOf(env, recipients, retryOnlyFailed, outcomes, i)
    {
      if next[i].status == Success || (retryOnlyFailed && next[i].status != Failed) {
        continue;
      }
      var validationError := Validate(env, next[i]);
      if validationError.Some? {
        next := next[i := next[i].(status := Failed, error := validationError)];
        continue;
      }
      var row, paid := Attempt(env, next[i], outcomes(i));
      next := next[i := row];
      payments := payments + paid;
    }
    message := Summarize(next);
  }

  /** The end of `processRows`. */
  method Summarize(next: seq<Row>) returns (message: BatchMessage)
    ensures message == Complete <==> forall i :: 0 <= i < |next| ==> next[i].status != Failed
    ensures message == SomeFailures <==>
              (exists i :: 0 <= i < |next| && next[i].status == Failed)
              && (exists i :: 0 <= i < |next| && next[i].status == Success)
  {
    var failedRows := AnyWith(next, Failed);
    var successRows := AnyWith(next, Success);
    message := if !failedRows then Complete else if successRows then SomeFailures else NoMessage;
  }

  /**
   * The `try` block for one validated row: success exactly when submission and callback returned,
   * otherwise failed with an error; a hash is recorded exactly when the submission returned; the
   * payment is made exactly when the network accepted it.
   */
  method Attempt(env: Env, recipient: Row, outcome: Outcome) returns (row: Row, paid: seq<Payment>)
    requires Validate(env, recipient) == None
    ensures SamePayee(row, recipient)
    ensures row.status in {Success, Failed} && (row.status == Success <==> outcome.Submits?)
    ensures row.error == None <==> row.status == Success
    ensures row.transactionHash == if SubmitReturns(outcome) then Some(outcome.hash) else recipient.transactionHash
    ensures paid == if Paid(outcome) then [PaymentOf(env, recipient)] else []
    ensures row == Settled(recipient, outcome)
  {
    paid := [];
    row := recipient.(status := Pending, error := None);
    match outcome
    case BuildFails(message) =>
      row := row.(status := Failed, error := Some(Message(message)));
    case SignFails(reason) =>
      row := row.(status := Failed, error := Some(SignError(reason)));
    case SubmitFails(message) =>
      row := row.(status := Failed, error := Some(Message(message)));
    case AcceptedButSubmitFails(message) =>
      paid := [PaymentOf(env, recipient)];
      row := row.(status := Failed, error := Some(Message(message)));
    case Submits(hash) =>
      paid := [PaymentOf(env, recipient)];
      row := row.(status := Success, error := None, transactionHash := Some(hash));
    case SubmitsButCallbackThrows(hash, message) =>
      paid := [PaymentOf(env, recipient)];
      row := row.(status := Success, error := None, transactionHash := Some(hash));
      row := row.(status := Failed, error := Some(Message(message)));
  }

  // ----- What a pass does to the list -----

  /** A row can be sent: a valid foreign address, a positive finite amount, and an asset that is known. */
  ghost predicate Sendable(env: Env, row: Row) {
    && env.isAddress(row.address) && row.address != env.publicKey
    && env.parse(row.amount).Finite? && env.parse(row.amount).value > 0.0
    && (row.token.kind == Xlm || (row.token.issuer.Some? && row.token.issuer.value != ""))
  }

  /** A full pass takes up every row that has not succeeded, a retry every failed one. */
  ghost predicate TakenUp(row: Row, retryOnlyFailed: bool) {
    row.status == Failed || (row.status in {Idle, Pending} && !retryOnlyFailed)
  }

  /**
   * A row that is taken up ends success exactly when it can be sent and its submission and the
   * callback return, and failed otherwise; every other row stays as it is.
   */
  lemma RowSucceedsIff(env: Env, rows: seq<Row>, retryOnlyFailed: bool, outcomes: Outcomes, i: nat)
    requires i < |rows|
    ensures var row, after := rows[i], RowsAfter(env, rows, retryOnlyFailed, outcomes)[i];
            && SamePayee(after, row)
            && (TakenUp(row, retryOnlyFailed) ==>
                  after.status == if Sendable(env, row) && outcomes(i).Submits? then Success else Failed)
            && (!TakenUp(row, retryOnlyFailed) ==> after == row)
  {}

  /** A row that is taken up and cannot be sent shows the first of the four tests it fails. */
  lemma RefusedRowShowsFirstProblem(env: Env, rows: seq<Row>, retryOnlyFailed: bool, outcomes: Outcomes, i: nat)
    requires i < |rows| && TakenUp(rows[i], retryOnlyFailed) && !Sendable(env, rows[i])
    ensures var row, after := rows[i], RowsAfter(env, rows, retryOnlyFailed, outcomes)[i];
            var positive := env.parse(row.amount).Finite? && env.parse(row.amount).value > 0.0;
            && (after.error == Some(InvalidAddress) <==> !env.isAddress(row.address))
            && (after.error == Some(AmountNotPositive) <==> env.isAddress(row.address) && !positive)
            && (after.error == Some(OwnAddress) <==>
                  env.isAddress(row.address) && positive && row.address == env.publicKey)
            && (after.error == Some(IssuerMissing) <==>
                  env.isAddress(row.address) && positive && row.address != env.publicKey)
            && after.transactionHash == row.transactionHash
  {}

  /** A row that can be sent shows what stopped it, and the hash if the submit call returned one. */
  lemma SentRowShowsOutcome(env: Env, rows: seq<Row>, retryOnlyFailed: bool, outcomes: Outcomes, i: nat)
    requires i < |rows| && TakenUp(rows[i], retryOnlyFailed) && Sendable(env, rows[i])
    ensures var row, after := rows[i], RowsAfter(env, rows, retryOnlyFailed, outcomes)[i];
            match outcomes(i)
            case BuildFails(m) => after.error == Some(Message(m)) && after.transactionHash == row.transactionHash
            case SignFails(reason) =>
              && after.error == (if reason.Some? && reason.value != "" then Some(Message(reason.value)) else Some(SigningRejected))
              && after.transactionHash == row.transactionHash
            case SubmitFails(m) => after.error == Some(Message(m)) && after.transactionHash == row.transactionHash
            case AcceptedButSubmitFails(m) =>
              after.error == Some(Message(m)) && after.transactionHash == row.transactionHash
            case Submits(hash) => after.error == None && after.transactionHash == Some(hash)
            case SubmitsButCallbackThrows(hash, m) =>
              after.error == Some(Message(m)) && after.transactionHash == Some(hash)
  {}

  /** Identity and payment fields of a row. */
  predicate SamePayee(a: Row, b: Row) {
    a.id == b.id && a.address == b.address && a.amount == b.amount && a.memo == b.memo && a.token == b.token
  }

  /**
   * A full pass over a list without pending rows settles every row, touches no id, order or
   * payment field and no row that had succeeded; a row newly succeeds exactly when it is valid and
   * submission and callback returned.
   */
  lemma SendSettlesEveryRow(env: Env, rows: seq<Row>, outcomes: Outcomes, i: nat)
    requires i < |rows|
    ensures var next := RowsAfter(env, rows, false, outcomes);
            && |next| == |rows|
            && SamePayee(next[i], rows[i])
            && next[i].status in {Success, Failed}
            && (rows[i].status == Success ==> next[i] == rows[i])
            && (next[i].status == Success <==>
                  rows[i].status == Success || (Sendable(env, rows[i]) && outcomes(i).Submits?))
  {}

  /** A retry pass changes failed rows only, and settles those. */
  lemma RetryTouchesFailedOnly(env: Env, rows: seq<Row>, outcomes: Outcomes, i: nat)
    requires i < |rows|
    ensures var next := RowsAfter(env, rows, true, outcomes);
            && |next| == |rows|
            && SamePayee(next[i], rows[i])
            && (rows[i].status != Failed ==> next[i] == rows[i])
            && (rows[i].status == Failed ==> next[i].status in {Success, Failed})
  {}

  /** After a full pass, "complete" is reported exactly when every row succeeded. */
  lemma CompleteIffAllSucceeded(env: Env, rows: seq<Row>, outcomes: Outcomes)
    ensures var next := RowsAfter(env, rows, false, outcomes);
            !AnyWith(next, Failed) <==> forall i :: 0 <= i < |next| ==> next[i].status == Success
  {
    forall i | 0 <= i < |rows|
      ensures RowsAfter(env, rows, false, outcomes)[i].status in {Success, Failed}
    {
      SendSettlesEveryRow(env, rows, outcomes, i);
    }
  }

  /**
   * After a retry of a list without pending rows, "complete" means that every row succeeded only
   * if no row was still waiting: it is exactly "no row failed", and idle rows do not count.
   */
  lemma RetryCompleteIgnoresIdleRows(env: Env, rows: seq<Row>, outcomes: Outcomes)
    requires !AnyWith(rows, Pending) && !AnyWith(RowsAfter(env, rows, true, outcomes), Failed)
    ensures var next := RowsAfter(env, rows, true, outcomes);
            (forall i :: 0 <= i < |next| ==> next[i].status == Success) <==> !AnyWith(rows, Idle)
  {
    var next := RowsAfter(env, rows, true, outcomes);
    forall i | 0 <= i < |rows|
      ensures next[i].status == Idle <==> rows[i].status == Idle
      ensures next[i].status != Pending && next[i].status != Failed
    {
      RetryTouchesFailedOnly(env, rows, outcomes, i);
      assert rows[i].status != Pending;
    }
    if AnyWith(rows, Idle) {
      var i :| 0 <= i < |rows| && rows[i].status == Idle;
      assert next[i].status == Idle;
    }
  }

  // ----- The payments of a pass -----

  /** Each accepted payment is that of a row the pass pays, and conversely. */
  lemma {:induction false} PaymentsComeFromRows(
      env: Env, rows: seq<Row>, retryOnlyFailed: bool, outcomes: Outcomes, n: nat, p: Payment)
    requires n <= |rows|
    ensures p in PaymentsOf(env, rows, retryOnlyFailed, outcomes, n)
            <==> exists i :: 0 <= i < n && Pays(env, rows[i], retryOnlyFailed, outcomes(i))
                             && p == PaymentOf(env, rows[i])
  {
    if n > 0 {
      PaymentsComeFromRows(env, rows, retryOnlyFailed, outcomes, n - 1, p);
      assert p in PaymentsOf(env, rows, retryOnlyFailed, outcomes, n) <==>
        || p in PaymentsOf(env, rows, retryOnlyFailed, outcomes, n - 1)
        || (Pays(env, rows[n - 1], retryOnlyFailed, outcomes(n - 1)) && p == PaymentOf(env, rows[n - 1]));
    }
  }

  /** The payment is what the row shows: its address, its amount to the nearest stroop, its asset. */
  ghost predicate PaysRow(env: Env, p: Payment, row: Row) {
    && p.rowId == row.id && p.to == row.address
    && env.parse(row.amount).Finite?
    && -0.5 < p.stroops as real - env.parse(row.amount).value * 10000000.0 <= 0.5
    && (p.asset == Native <==> row.token.code == "XLM")
    && (p.asset == UsdcAsset <==> row.token.code == "USDC")
    && (p.asset.Issued? ==> p.asset.code == row.token.code && row.token.issuer == Some(p.asset.issuer))
  }

  /** The pass submits a payment for the row, and the network accepts it. */
  ghost predicate AcceptedFor(env: Env, row: Row, retryOnlyFailed: bool, outcome: Outcome) {
    && TakenUp(row, retryOnlyFailed) && Sendable(env, row)
    && (outcome.Submits? || outcome.SubmitsButCallbackThrows? || outcome.AcceptedButSubmitFails?)
  }

  lemma PaysIffAccepted(env: Env, row: Row, retryOnlyFailed: bool, outcome: Outcome)
    ensures Pays(env, row, retryOnlyFailed, outcome) <==> AcceptedFor(env, row, retryOnlyFailed, outcome)
  {}

  lemma PaymentShowsRow(env: Env, row: Row)
    requires Sendable(env, row) && TokenConsistent(row.token)
    ensures IsPositive(env.parse(row.amount)) && PaysRow(env, PaymentOf(env, row), row)
  {
    var y := env.parse(row.amount).value * 10000000.0;
    assert Stroops(env.parse(row.amount).value) == (y + 0.5).Floor;
  }

  /**
   * The payments of a pass are, one for one and in list order, those of the rows it takes up, that
   * can be sent, and that the network accepts.
   */
  lemma {:induction false} PaymentsAreThoseOfAcceptedRows(
      env: Env, rows: seq<Row>, retryOnlyFailed: bool, outcomes: Outcomes, n: nat) returns (at: seq<nat>)
    requires n <= |rows| && forall i :: 0 <= i < |rows| ==> TokenConsistent(rows[i].token)
    ensures var ps := PaymentsOf(env, rows, retryOnlyFailed, outcomes, n);
            && |at| == |ps|
            && (forall k, l :: 0 <= k < l < |at| ==> at[k] < at[l])
            && (forall k :: 0 <= k < |at| ==> at[k] < n && PaysRow(env, ps[k], rows[at[k]]))
            && (forall i: nat :: i < n ==>
                  (i in at <==> AcceptedFor(env, rows[i], retryOnlyFailed, outcomes(i))))
  {
    if n == 0 {
      at := [];
    } else {
      var before := PaymentsAreThoseOfAcceptedRows(env, rows, retryOnlyFailed, outcomes, n - 1);
      PaysIffAccepted(env, rows[n - 1], retryOnlyFailed, outcomes(n - 1));
      at := before;
      if AcceptedFor(env, rows[n - 1], retryOnlyFailed, outcomes(n - 1)) {
        PaymentShowsRow(env, rows[n - 1]);
        at := before + [n - 1];
        assert at[|before|] == n - 1;
        assert forall i: nat :: i < n - 1 ==> (i in at <==> i in before);
      } else {
        assert forall k :: 0 <= k < |before| ==> before[k] != n - 1;
      }
    }
  }

  /** XLM rows are the native-kind rows: every way the form sets a token keeps this. */
  predicate TokenConsistent(token: Token) {
    token.kind == Xlm <==> token.code == "XLM"
  }

  /** For such tokens a validated row is paid in the asset it displays; the fallback is not reached. */
  lemma PaidInDisplayedAsset(env: Env, row: Row)
    requires TokenConsistent(row.token) && Validate(env, row) == None
    ensures AssetCode(PaymentOf(env, row).asset) == row.token.code
  {}
}
