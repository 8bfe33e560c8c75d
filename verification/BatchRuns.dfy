/**
 * Whole runs of the batch payment form in form mode
 * (frontend/components/BatchPaymentForm.tsx): row edits, imports, group selection, send and retry
 * in any order, and edits that come in while a pass awaits the network.
 */
module BatchRuns {
  import opened Options
  import opened Lists
  import opened BatchForm

  const MAX_RECIPIENTS: nat := 10

  /** The list of rows, and as history every accepted payment and every id ever listed. */
  datatype Form = Form(rows: seq<Row>, payments: seq<Payment>, used: set<string>)

  datatype CsvRow = CsvRow(recipient: string, amount: string, asset: string, memo: string, valid: bool)

  datatype Contact = Contact(publicKey: string, memo: string)

  datatype CatalogueAsset = CatalogueAsset(code: string, issuer: string)

  datatype Distribution = PerRecipient | Total

  /** Ids of new rows come from the clock and a random source: the k-th new row of a step gets ids(k). */
  type IdSource = nat -> string

  datatype Edit =
    | AddRow(id: string)
    | RemoveRow(id: string)
    | EditRow(id: string, address: Option<string>, amount: Option<string>, memo: Option<string>)
    | SelectToken(id: string, code: string, issuer: Option<string>, known: Option<string>)
    | CatalogueLoaded(assets: seq<CatalogueAsset>)
    | ImportCsv(csv: seq<CsvRow>, ids: IdSource)
    | SelectGroup(contacts: seq<Contact>, ids: IdSource)
    | ApplyAmount(groupSelected: bool, mode: Distribution, text: string)

  /** The edits that come in while row i of a pass is awaited. */
  type Interleaving = nat -> seq<Edit>

  datatype Action =
    | Do(edit: Edit)
    | SendBatch(outcomes: Outcomes, during: Interleaving)
    | RetryFailed(outcomes: Outcomes, during: Interleaving)

  const USDC_ISSUER := "GBBD47IFQTWJG7QNO6O74H5GLT4H3PTJQ4XHMFNKDQYSCY5BXKDY3J7B"

  const USDC := Token("USDC", Some(USDC_ISSUER), Usdc)

  function NewRow(id: string): Row {
    Row(id, "", "", "", XLM, Idle, None, None)
  }

  // ----- Row handlers -----

  /** `current.map(f)`; every handler's f keeps id, status, error and hash. */
  function MapRows(rows: seq<Row>, f: Row -> Row): (r: seq<Row>)
    ensures |r| == |rows|
    ensures forall i :: 0 <= i < |rows| ==> r[i] == f(rows[i])
  {
    seq(|rows|, i requires 0 <= i < |rows| => f(rows[i]))
  }

  function HasOtherId(id: string): Row -> bool {
    (r: Row) => r.id != id
  }

  function WithoutRow(rows: seq<Row>, id: string): seq<Row> {
    Filter(rows, HasOtherId(id))
  }

  function Edited(row: Row, e: Edit): Row
    requires e.EditRow?
  {
    if row.id != e.id then row
    else
      row.(address := e.address.GetOr(row.address),
           amount := e.amount.GetOr(row.amount),
           memo := e.memo.GetOr(row.memo))
  }

  /** `handleSelectToken`; a custom code without an issuer takes the catalogue's (`known`). */
  function TokenFor(code: string, issuer: Option<string>, known: Option<string>): Token {
    if code == "XLM" then XLM
    else if code == "USDC" then
      Token(code, if issuer.Some? && issuer.value != "" then issuer else Some(USDC_ISSUER), Usdc)
    else Token(code, if issuer.Some? && issuer.value != "" then issuer else known, Custom)
  }

  /** A custom token without an issuer takes over the issuer the loaded catalogue lists for its code. */
  function Migrated(token: Token, assets: seq<CatalogueAsset>): Token {
    if token.kind == Custom && token.code != "XLM" && !HasIssuer(token) && FirstIssuer(assets, token.code).Some? then
      token.(issuer := FirstIssuer(assets, token.code))
    else token
  }

  function FirstIssuer(assets: seq<CatalogueAsset>, code: string): Option<string> {
    if assets == [] then None
    else if assets[0].code == code then Some(assets[0].issuer)
    else FirstIssuer(assets[1..], code)
  }

  predicate IsImportable(c: CsvRow) {
    c.valid && c.recipient != "" && c.amount != ""
  }

  /** The rows `handleCSVImport` keeps, of which it takes the first ten. */
  function Importable(csv: seq<CsvRow>): seq<CsvRow> {
    Filter(csv, IsImportable)
  }

  function FirstTen<T>(xs: seq<T>): (r: seq<T>)
    ensures |r| <= MAX_RECIPIENTS && r <= xs
  {
    if |xs| <= MAX_RECIPIENTS then xs else xs[..MAX_RECIPIENTS]
  }

  function ImportedRow(c: CsvRow, id: string): Row {
    Row(id, c.recipient, c.amount, c.memo, if c.asset == "USDC" then USDC else XLM, Idle, None, None)
  }

  function Imported(csv: seq<CsvRow>, ids: IdSource): (r: seq<Row>)
    ensures |r| <= MAX_RECIPIENTS && AllNew(r, ids)
  {
    var kept := FirstTen(Importable(csv));
    assert "USDC" != "XLM";
    seq(|kept|, i requires 0 <= i < |kept| => ImportedRow(kept[i], ids(i)))
  }

  /** `handleGroupSelect`: one row per contact, and an empty one if there is room. */
  function GroupRows(contacts: seq<Contact>, ids: IdSource): (r: seq<Row>)
    ensures |r| <= MAX_RECIPIENTS && AllNew(r, ids)
  {
    var members := seq(|contacts|, i requires 0 <= i < |contacts| => MemberRow(contacts[i], ids(i)));
    var all := members + if |contacts| < MAX_RECIPIENTS then [NewRow(ids(|contacts|))] else [];
    assert AllNew(all, ids);
    FirstTen(all)
  }

  function MemberRow(c: Contact, id: string): Row {
    NewRow(id).(address := c.publicKey, memo := c.memo)
  }

  /** Idle rows with the ids of the source and a token of the static pair. */
  predicate AllNew(rows: seq<Row>, ids: IdSource) {
    forall i :: 0 <= i < |rows| ==>
      rows[i].id == ids(i) && rows[i].status == Idle && TokenConsistent(rows[i].token)
  }

  function Addressed(rows: seq<Row>): (n: nat)
    ensures n <= |rows|
    ensures n == 0 <==> forall i :: 0 <= i < |rows| ==> rows[i].address == ""
  {
    if rows == [] then 0 else Addressed(rows[..|rows| - 1]) + if rows[|rows| - 1].address != "" then 1 else 0
  }

  /** `handleApplyGroupAmount` */
  function WithAmounts(env: Env, rows: seq<Row>, groupSelected: bool, mode: Distribution, text: string): seq<Row> {
    var n := Addressed(rows);
    if !groupSelected || !IsPositive(env.parse(text)) || n == 0 then rows
    else
      var amount := match mode {
        case PerRecipient => text
        case Total => env.fixed7(env.parse(text).value / n as real)
      };
      MapRows(rows, (r: Row) => if r.address != "" then r.(amount := amount) else r)
  }

  // ----- Edits -----

  /** The form after an edit. */
  function Change(env: Env, s: Form, e: Edit): Form {
    match e
    case AddRow(id) => if |s.rows| >= MAX_RECIPIENTS then s else Listed(s, s.rows + [NewRow(id)])
    case RemoveRow(id) => Listed(s, WithoutRow(s.rows, id))
    case EditRow(_, _, _, _) => Listed(s, MapRows(s.rows, (r: Row) => Edited(r, e)))
    case SelectToken(id, code, issuer, known) =>
      Listed(s, MapRows(s.rows, (r: Row) => if r.id == id then r.(token := TokenFor(code, issuer, known)) else r))
    case CatalogueLoaded(assets) =>
      Listed(s, MapRows(s.rows, (r: Row) => r.(token := Migrated(r.token, assets))))
    case ImportCsv(csv, ids) =>
      if |Importable(csv)| == 0 then s else Listed(s, Imported(csv, ids))
    case SelectGroup(contacts, ids) => Listed(s, GroupRows(contacts, ids))
    case ApplyAmount(groupSelected, mode, text) =>
      Listed(s, WithAmounts(env, s.rows, groupSelected, mode, text))
  }

  function Changes(env: Env, s: Form, edits: seq<Edit>): Form
    decreases |edits|
  {
    if edits == [] then s else Change(env, Changes(env, s, edits[..|edits| - 1]), edits[|edits| - 1])
  }

  function Listed(s: Form, rows: seq<Row>): Form {
    Form(rows, s.payments, s.used + IdsOf(rows))
  }

  function IdsOf(rows: seq<Row>): set<string> {
    set r | r in rows :: r.id
  }

  // ----- What each edit reaches -----

  ghost predicate IsEmptyRow(row: Row, id: string) {
    && row.id == id && row.address == "" && row.amount == "" && row.memo == ""
    && row.token == Token("XLM", None, Xlm)
    && row.status == Idle && row.error == None && row.transactionHash == None
  }

  /** Adding appends an empty row while there are fewer than ten, and otherwise does nothing. */
  lemma AddAppendsEmptyRow(env: Env, s: Form, id: string)
    ensures var next := Change(env, s, AddRow(id)).rows;
            if |s.rows| < 10 then |next| == |s.rows| + 1 && next[..|s.rows|] == s.rows && IsEmptyRow(next[|s.rows|], id)
            else next == s.rows
  {}

  /** An edit sets the given fields of the rows with its id, and nothing else. */
  lemma EditReachesItsRow(
      env: Env, s: Form, id: string, address: Option<string>, amount: Option<string>, memo: Option<string>, i: nat)
    requires i < |s.rows|
    ensures var row, next := s.rows[i], Change(env, s, EditRow(id, address, amount, memo)).rows;
            && |next| == |s.rows|
            && (row.id != id ==> next[i] == row)
            && (row.id == id ==>
                  && (address.Some? ==> next[i].address == address.value)
                  && (amount.Some? ==> next[i].amount == amount.value)
                  && (memo.Some? ==> next[i].memo == memo.value)
                  && next[i] == row.(
                       address := if address.Some? then next[i].address else row.address,
                       amount := if amount.Some? then next[i].amount else row.amount,
                       memo := if memo.Some? then next[i].memo else row.memo))
  {}

  /**
   * Selecting a token sets the token of the rows with the id: XLM has no issuer, a given issuer is
   * taken, and without one USDC has its fixed issuer and another code that of the catalogue.
   */
  lemma SelectionStoresToken(
      env: Env, s: Form, id: string, code: string, issuer: Option<string>, known: Option<string>, i: nat)
    requires i < |s.rows|
    ensures var row, next := s.rows[i], Change(env, s, SelectToken(id, code, issuer, known)).rows;
            && |next| == |s.rows|
            && next[i] == row.(token := next[i].token)
            && (row.id != id ==> next[i].token == row.token)
            && (row.id == id ==>
                  && next[i].token.code == code
                  && (next[i].token.kind == Xlm <==> code == "XLM")
                  && (next[i].token.kind == Usdc <==> code == "USDC")
                  && next[i].token.issuer
                     == if code == "XLM" then None
                        else if issuer.Some? && issuer.value != "" then issuer
                        else if code == "USDC" then Some("GBBD47IFQTWJG7QNO6O74H5GLT4H3PTJQ4XHMFNKDQYSCY5BXKDY3J7B")
                        else known)
  {}

  /** The first catalogue entry with the code, at `j`; none if `j` is the length. */
  ghost predicate FirstWithCode(assets: seq<CatalogueAsset>, code: string, j: nat) {
    && j <= |assets|
    && (forall k :: 0 <= k < j ==> assets[k].code != code)
    && (j < |assets| ==> assets[j].code == code)
  }

  lemma {:induction false} FirstIssuerIsFirst(assets: seq<CatalogueAsset>, code: string, j: nat)
    requires FirstWithCode(assets, code, j)
    ensures FirstIssuer(assets, code) == if j < |assets| then Some(assets[j].issuer) else None
  {
    if j > 0 {
      assert assets[0].code != code;
      FirstIssuerIsFirst(assets[1..], code, j - 1);
    }
  }

  /**
   * The loaded catalogue changes nothing but the issuer of custom rows that have none: it becomes
   * that of the first entry with their code, if there is one.
   */
  lemma CatalogueFillsIssuers(env: Env, s: Form, assets: seq<CatalogueAsset>, i: nat, j: nat)
    requires i < |s.rows| && FirstWithCode(assets, s.rows[i].token.code, j)
    ensures var row, next := s.rows[i], Change(env, s, CatalogueLoaded(assets)).rows;
            && |next| == |s.rows|
            && next[i] == row.(token := row.token.(issuer :=
                 if row.token.kind == Custom && row.token.code != "XLM" && j < |assets|
                    && (row.token.issuer.None? || row.token.issuer.value == "")
                 then Some(assets[j].issuer) else row.token.issuer))
  {
    FirstIssuerIsFirst(assets, s.rows[i].token.code, j);
  }

  /** A new row with what the file says; its token is USDC or, for any other asset, XLM. */
  ghost predicate ShowsCsv(row: Row, c: CsvRow, id: string) {
    && row.id == id && row.address == c.recipient && row.amount == c.amount && row.memo == c.memo
    && row.token == (if c.asset == "USDC" then Token("USDC", Some(USDC_ISSUER), Usdc) else Token("XLM", None, Xlm))
    && row.status == Idle && row.error == None && row.transactionHash == None
  }

  /**
   * An import replaces the list by the first ten rows of the file that are valid and have recipient
   * and amount, in order; it does nothing when there are none. `at` are the places of all of them.
   */
  lemma ImportTakesFirstTen(env: Env, s: Form, csv: seq<CsvRow>, ids: IdSource) returns (at: seq<nat>)
    ensures forall k :: 0 <= k < |at| ==> at[k] < |csv|
    ensures forall k, l :: 0 <= k < l < |at| ==> at[k] < at[l]
    ensures forall i: nat :: i < |csv| ==>
              (i in at <==> csv[i].valid && csv[i].recipient != "" && csv[i].amount != "")
    ensures var next := Change(env, s, ImportCsv(csv, ids)).rows;
            if at == [] then next == s.rows
            else
              && |next| == (if |at| < 10 then |at| else 10)
              && (forall k :: 0 <= k < |next| ==> ShowsCsv(next[k], csv[at[k]], ids(k)))
  {
    at := FilterKeepsInOrder(csv, IsImportable);
  }

  /**
   * A group replaces the list by one new row for each of its first ten contacts, in order, with
   * address and memo, and an empty row behind them if there are fewer than ten.
   */
  lemma GroupGivesOneRowEach(env: Env, s: Form, contacts: seq<Contact>, ids: IdSource)
    ensures var next, n := Change(env, s, SelectGroup(contacts, ids)).rows, |contacts|;
            && |next| == (if n < 10 then n + 1 else 10)
            && (forall k :: 0 <= k < |next| && k < n ==>
                  && next[k].address == contacts[k].publicKey && next[k].memo == contacts[k].memo
                  && IsEmptyRow(next[k].(address := "", memo := ""), ids(k)))
            && (n < 10 ==> IsEmptyRow(next[n], ids(n)))
  {}

  // ----- Passes -----

  /** A pass under way: its private copy of the rows, and the form as shown and edited meanwhile. */
  datatype Progress = Progress(next: seq<Row>, form: Form)

  /** `setRecipients([...nextRecipients])`: the private copy replaces whatever is listed. */
  function Shown(next: seq<Row>, form: Form): Progress {
    Progress(next, form.(rows := next))
  }

  /** The pass at row i: while the row is pending, the edits change the shown list. */
  function RowStep(env: Env, p: Progress, i: nat, retryOnlyFailed: bool, outcome: Outcome, edits: seq<Edit>): Progress
    requires i < |p.next|
  {
    var row := p.next[i];
    var problem := Validate(env, row);
    if !Attempted(row, retryOnlyFailed) then p
    else if problem.Some? then Shown(p.next[i := row.(status := Failed, error := problem)], p.form)
    else
      var waiting := Shown(p.next[i := row.(status := Pending, error := None)], p.form);
      var edited := Changes(env, waiting.form, edits);
      var paid := if Paid(outcome) then [PaymentOf(env, row)] else [];
      Shown(waiting.next[i := Settled(row, outcome)], edited.(payments := edited.payments + paid))
  }

  /** The first n rows of a pass. */
  function PassSteps(
      env: Env, s: Form, retryOnlyFailed: bool, outcomes: Outcomes, during: Interleaving, n: nat): (p: Progress)
    requires n <= |s.rows|
    ensures |p.next| == |s.rows|
  {
    if n == 0 then Shown(s.rows, s)
    else
      var p := PassSteps(env, s, retryOnlyFailed, outcomes, during, n - 1);
      RowStep(env, p, n - 1, retryOnlyFailed, outcomes(n - 1), during(n - 1))
  }

  /** A whole pass, and the edits that come in during it. */
  function Pass(env: Env, s: Form, retryOnlyFailed: bool, outcomes: Outcomes, during: Interleaving): Form {
    PassSteps(env, s, retryOnlyFailed, outcomes, during, |s.rows|).form
  }

  /** A pass without interruption, as one step. */
  function Passed(env: Env, s: Form, retryOnlyFailed: bool, outcomes: Outcomes): Form {
    s.(rows := RowsAfter(env, s.rows, retryOnlyFailed, outcomes),
       payments := s.payments + PaymentsOf(env, s.rows, retryOnlyFailed, outcomes, |s.rows|))
  }

  lemma {:induction false} EditsPayNothing(env: Env, s: Form, edits: seq<Edit>)
    ensures Changes(env, s, edits).payments == s.payments
    ensures s.used <= Changes(env, s, edits).used
    decreases |edits|
  {
    if edits != [] {
      EditsPayNothing(env, s, edits[..|edits| - 1]);
    }
  }

  /** Where a pass stands after n rows: nothing an edit did meanwhile is left in the list. */
  ghost predicate StandsAt(
      env: Env, s: Form, retryOnlyFailed: bool, outcomes: Outcomes, n: nat, p: Progress)
    requires n <= |s.rows|
  {
    && p.form.rows == p.next
    && |p.next| == |s.rows|
    && (forall k :: 0 <= k < n ==> p.next[k] == RowAfter(env, s.rows[k], retryOnlyFailed, outcomes(k)))
    && (forall k :: n <= k < |s.rows| ==> p.next[k] == s.rows[k])
    && p.form.payments == s.payments + PaymentsOf(env, s.rows, retryOnlyFailed, outcomes, n)
    && s.used <= p.form.used
  }

  /** One row of a pass: the edits that came in while it was pending leave no trace but their ids. */
  lemma RowStepOverwritesEdits(
      env: Env, p: Progress, i: nat, retryOnlyFailed: bool, outcome: Outcome, edits: seq<Edit>)
    requires i < |p.next| && p.form.rows == p.next
    ensures var q := RowStep(env, p, i, retryOnlyFailed, outcome, edits);
            && q.form.rows == q.next == p.next[i := RowAfter(env, p.next[i], retryOnlyFailed, outcome)]
            && q.form.payments == p.form.payments
               + (if Pays(env, p.next[i], retryOnlyFailed, outcome) then [PaymentOf(env, p.next[i])] else [])
            && p.form.used <= q.form.used
  {
    var row := p.next[i];
    EditsPayNothing(env, Shown(p.next[i := row.(status := Pending, error := None)], p.form).form, edits);
  }

  lemma StandsOneFurther(
      env: Env, s: Form, retryOnlyFailed: bool, outcomes: Outcomes, n: nat, p: Progress, q: Progress)
    requires n < |s.rows| && StandsAt(env, s, retryOnlyFailed, outcomes, n, p)
    requires q.form.rows == q.next == p.next[n := RowAfter(env, s.rows[n], retryOnlyFailed, outcomes(n))]
    requires q.form.payments == p.form.payments
             + (if Pays(env, s.rows[n], retryOnlyFailed, outcomes(n)) then [PaymentOf(env, s.rows[n])] else [])
    requires p.form.used <= q.form.used
    ensures StandsAt(env, s, retryOnlyFailed, outcomes, n + 1, q)
  {}

  lemma RowStepStands(
      env: Env, s: Form, retryOnlyFailed: bool, outcomes: Outcomes, n: nat, p: Progress, edits: seq<Edit>)
    requires n < |s.rows| && StandsAt(env, s, retryOnlyFailed, outcomes, n, p)
    ensures StandsAt(env, s, retryOnlyFailed, outcomes, n + 1, RowStep(env, p, n, retryOnlyFailed, outcomes(n), edits))
  {
    RowStepOverwritesEdits(env, p, n, retryOnlyFailed, outcomes(n), edits);
    StandsOneFurther(env, s, retryOnlyFailed, outcomes, n, p, RowStep(env, p, n, retryOnlyFailed, outcomes(n), edits));
  }

  lemma {:induction false} PassStandsAt(
      env: Env, s: Form, retryOnlyFailed: bool, outcomes: Outcomes, during: Interleaving, n: nat)
    requires n <= |s.rows|
    ensures StandsAt(env, s, retryOnlyFailed, outcomes, n, PassSteps(env, s, retryOnlyFailed, outcomes, during, n))
  {
    if n > 0 {
      PassStandsAt(env, s, retryOnlyFailed, outcomes, during, n - 1);
      var p := PassSteps(env, s, retryOnlyFailed, outcomes, during, n - 1);
      RowStepStands(env, s, retryOnlyFailed, outcomes, n - 1, p, during(n - 1));
    }
  }

  /**
   * Edits during a pass do not reach it: rows and payments end up as if the pass had been one
   * step. Only the ids they listed meanwhile count as used.
   */
  lemma PassIsAtomic(env: Env, s: Form, retryOnlyFailed: bool, outcomes: Outcomes, during: Interleaving)
    ensures var s' := Pass(env, s, retryOnlyFailed, outcomes, during);
            && s' == Passed(env, s, retryOnlyFailed, outcomes).(used := s'.used)
            && s.used <= s'.used
  {
    PassStandsAt(env, s, retryOnlyFailed, outcomes, during, |s.rows|);
    assert Pass(env, s, retryOnlyFailed, outcomes, during).rows == RowsAfter(env, s.rows, retryOnlyFailed, outcomes);
  }

  // ----- Runs -----

  function Act(env: Env, s: Form, a: Action): Form {
    match a
    case Do(edit) => Change(env, s, edit)
    case SendBatch(outcomes, during) => Pass(env, s, false, outcomes, during)
    case RetryFailed(outcomes, during) =>
      if AnyWith(s.rows, Failed) then Pass(env, s, true, outcomes, during) else s
  }

  function Initial(id: string): Form {
    Form([NewRow(id)], [], {id})
  }

  function Run(env: Env, s: Form, actions: seq<Action>): Form
    decreases |actions|
  {
    if actions == [] then s else Act(env, Run(env, s, actions[..|actions| - 1]), actions[|actions| - 1])
  }

  ghost predicate FreshSource(s: Form, ids: IdSource) {
    && (forall i: nat :: ids(i) !in s.used)
    && (forall i: nat, j: nat :: i != j ==> ids(i) != ids(j))
  }

  /** New ids differ from each other and from every id used before. */
  ghost predicate FreshIds(s: Form, e: Edit) {
    match e
    case AddRow(id) => id !in s.used
    case ImportCsv(_, ids) => FreshSource(s, ids)
    case SelectGroup(_, ids) => FreshSource(s, ids)
    case _ => true
  }

  /** A callback may throw, and a response may get lost, only if the flags say so. */
  predicate Allowed(outcome: Outcome, mayThrow: bool, mayLose: bool) {
    && (outcome.SubmitsButCallbackThrows? ==> mayThrow)
    && (outcome.AcceptedButSubmitFails? ==> mayLose)
  }

  ghost predicate AllAllowed(outcomes: Outcomes, mayThrow: bool, mayLose: bool) {
    forall i: nat :: Allowed(outcomes(i), mayThrow, mayLose)
  }

  ghost predicate Proper(s: Form, a: Action, mayThrow: bool, mayLose: bool) {
    match a
    case Do(edit) => FreshIds(s, edit)
    case SendBatch(outcomes, _) => AllAllowed(outcomes, mayThrow, mayLose)
    case RetryFailed(outcomes, _) => AllAllowed(outcomes, mayThrow, mayLose)
  }

  /** Fresh ids between passes - those listed during a pass may be any - and allowed outcomes. */
  ghost predicate ProperRun(env: Env, s: Form, actions: seq<Action>, mayThrow: bool, mayLose: bool) {
    forall k :: 0 <= k < |actions| ==> Proper(Run(env, s, actions[..k]), actions[k], mayThrow, mayLose)
  }

  // ----- The invariant -----

  ghost predicate DistinctRows(rows: seq<Row>) {
    forall i, j :: 0 <= i < j < |rows| ==> rows[i].id != rows[j].id
  }

  ghost predicate AtMostOnce(payments: seq<Payment>) {
    forall i, j :: 0 <= i < j < |payments| ==> payments[i].rowId != payments[j].rowId
  }

  predicate HasPayment(payments: seq<Payment>, id: string) {
    exists i :: 0 <= i < |payments| && payments[i].rowId == id
  }

  /** A listed row is settled or idle, and success exactly when its payment was accepted. */
  ghost predicate RowInv(row: Row, payments: seq<Payment>) {
    && row.status != Pending
    && TokenConsistent(row.token)
    && (row.status == Success <==> HasPayment(payments, row.id))
  }

  ghost predicate Inv(s: Form) {
    && |s.rows| <= MAX_RECIPIENTS
    && DistinctRows(s.rows)
    && AtMostOnce(s.payments)
    && (forall i :: 0 <= i < |s.rows| ==> s.rows[i].id in s.used && RowInv(s.rows[i], s.payments))
    && (forall i :: 0 <= i < |s.payments| ==> s.payments[i].rowId in s.used)
  }

  /** New lists made of old rows and fresh idle rows keep the invariant. */
  lemma ListedKeepsInv(s: Form, rows: seq<Row>)
    requires Inv(s) && |rows| <= MAX_RECIPIENTS && DistinctRows(rows)
    requires forall i :: 0 <= i < |rows| ==> RowInv(rows[i], s.payments)
    ensures Inv(Listed(s, rows))
  {
    forall i | 0 <= i < |rows|
      ensures rows[i].id in IdsOf(rows)
    {
      assert rows[i] in rows;
    }
  }

  /** A map that keeps ids and statuses, and tokens consistent, keeps the invariant. */
  lemma MapKeepsInv(s: Form, rows: seq<Row>)
    requires Inv(s) && |rows| == |s.rows|
    requires forall i :: 0 <= i < |rows| ==>
               && rows[i].id == s.rows[i].id && rows[i].status == s.rows[i].status
               && TokenConsistent(rows[i].token)
    ensures Inv(Listed(s, rows))
  {
    ListedKeepsInv(s, rows);
  }

  lemma FreshKeepsInv(s: Form, rows: seq<Row>, ids: IdSource)
    requires Inv(s) && |rows| <= MAX_RECIPIENTS
    requires FreshSource(s, ids) && AllNew(rows, ids)
    ensures Inv(Listed(s, rows))
  {
    ListedKeepsInv(s, rows);
  }

  /** Removing an id keeps exactly the rows with other ids, in their order. */
  lemma WithoutRowKeepsRest(rows: seq<Row>, id: string) returns (at: seq<nat>)
    ensures |at| == |WithoutRow(rows, id)|
    ensures forall k :: 0 <= k < |at| ==> at[k] < |rows| && rows[at[k]].id != id && WithoutRow(rows, id)[k] == rows[at[k]]
    ensures forall k, l :: 0 <= k < l < |at| ==> at[k] < at[l]
    ensures forall i: nat :: i < |rows| && rows[i].id != id ==> i in at
    ensures DistinctRows(rows) ==> DistinctRows(WithoutRow(rows, id))
  {
    at := FilterKeepsInOrder(rows, HasOtherId(id));
  }

  lemma AddKeepsInv(s: Form, id: string)
    requires Inv(s) && |s.rows| < MAX_RECIPIENTS && id !in s.used
    ensures Inv(Listed(s, s.rows + [NewRow(id)]))
  {
    ListedKeepsInv(s, s.rows + [NewRow(id)]);
  }

  lemma RemoveKeepsInv(s: Form, id: string)
    requires Inv(s)
    ensures Inv(Listed(s, WithoutRow(s.rows, id)))
  {
    var at := WithoutRowKeepsRest(s.rows, id);
    ListedKeepsInv(s, WithoutRow(s.rows, id));
  }

  lemma FieldEditKeepsInv(env: Env, s: Form, e: Edit)
    requires Inv(s) && (e.EditRow? || e.SelectToken? || e.CatalogueLoaded? || e.ApplyAmount?)
    ensures Inv(Change(env, s, e))
  {
    MapKeepsInv(s, Change(env, s, e).rows);
  }

  lemma EditKeepsInv(env: Env, s: Form, e: Edit)
    requires Inv(s) && FreshIds(s, e)
    ensures Inv(Change(env, s, e))
  {
    match e
    case AddRow(id) => if |s.rows| < MAX_RECIPIENTS { AddKeepsInv(s, id); }
    case RemoveRow(id) => RemoveKeepsInv(s, id);
    case ImportCsv(csv, ids) => FreshKeepsInv(s, Imported(csv, ids), ids);
    case SelectGroup(contacts, ids) => FreshKeepsInv(s, GroupRows(contacts, ids), ids);
    case _ => FieldEditKeepsInv(env, s, e);
  }

  // ----- A pass keeps the invariant -----

  /** The pass pays the listed row with this id, among the first `n`. */
  ghost predicate PaidInPass(env: Env, rows: seq<Row>, retryOnlyFailed: bool, outcomes: Outcomes, n: nat, id: string)
    requires n <= |rows|
  {
    exists i :: 0 <= i < n && rows[i].id == id && Pays(env, rows[i], retryOnlyFailed, outcomes(i))
  }

  lemma HasPaymentConcat(ps: seq<Payment>, qs: seq<Payment>, id: string)
    ensures HasPayment(ps + qs, id) <==> HasPayment(ps, id) || HasPayment(qs, id)
  {
    if HasPayment(ps, id) {
      var i :| 0 <= i < |ps| && ps[i].rowId == id;
      assert (ps + qs)[i].rowId == id;
    }
    if HasPayment(qs, id) {
      var i :| 0 <= i < |qs| && qs[i].rowId == id;
      assert (ps + qs)[|ps| + i].rowId == id;
    }
  }

  lemma {:induction false} PassPaysTheseIds(
      env: Env, rows: seq<Row>, retryOnlyFailed: bool, outcomes: Outcomes, n: nat, id: string)
    requires n <= |rows|
    ensures HasPayment(PaymentsOf(env, rows, retryOnlyFailed, outcomes, n), id)
            <==> PaidInPass(env, rows, retryOnlyFailed, outcomes, n, id)
  {
    if n > 0 {
      PassPaysTheseIds(env, rows, retryOnlyFailed, outcomes, n - 1, id);
      var before := PaymentsOf(env, rows, retryOnlyFailed, outcomes, n - 1);
      var last := if Pays(env, rows[n - 1], retryOnlyFailed, outcomes(n - 1)) then [PaymentOf(env, rows[n - 1])] else [];
      HasPaymentConcat(before, last, id);
      assert last != [] ==> last[0].rowId == rows[n - 1].id;
      assert HasPayment(last, id) <==> last != [] && rows[n - 1].id == id;
    }
  }

  lemma {:induction false} PassPaysEachRowOnce(
      env: Env, rows: seq<Row>, retryOnlyFailed: bool, outcomes: Outcomes, n: nat)
    requires DistinctRows(rows) && n <= |rows|
    ensures AtMostOnce(PaymentsOf(env, rows, retryOnlyFailed, outcomes, n))
  {
    if n > 0 {
      PassPaysEachRowOnce(env, rows, retryOnlyFailed, outcomes, n - 1);
      PassPaysTheseIds(env, rows, retryOnlyFailed, outcomes, n - 1, rows[n - 1].id);
    }
  }

  /** After a pass that reports every accepted payment, success still means paid. */
  lemma PassKeepsRowInv(env: Env, s: Form, retryOnlyFailed: bool, outcomes: Outcomes, i: nat)
    requires Inv(s) && i < |s.rows| && Allowed(outcomes(i), false, false)
    ensures var s' := Passed(env, s, retryOnlyFailed, outcomes); RowInv(s'.rows[i], s'.payments)
  {
    var n, id := |s.rows|, s.rows[i].id;
    PassPaysTheseIds(env, s.rows, retryOnlyFailed, outcomes, n, id);
    HasPaymentConcat(s.payments, PaymentsOf(env, s.rows, retryOnlyFailed, outcomes, n), id);
    assert RowInv(s.rows[i], s.payments);
    assert PaidInPass(env, s.rows, retryOnlyFailed, outcomes, n, id)
      <==> Pays(env, s.rows[i], retryOnlyFailed, outcomes(i));
  }

  /** No id is paid twice: the pass pays distinct rows, and only rows that were not paid before. */
  lemma PassKeepsAtMostOnce(env: Env, s: Form, retryOnlyFailed: bool, outcomes: Outcomes)
    requires Inv(s)
    ensures AtMostOnce(Passed(env, s, retryOnlyFailed, outcomes).payments)
  {
    var n := |s.rows|;
    var ps := PaymentsOf(env, s.rows, retryOnlyFailed, outcomes, n);
    PassPaysEachRowOnce(env, s.rows, retryOnlyFailed, outcomes, n);
    forall j | 0 <= j < |ps|
      ensures !HasPayment(s.payments, ps[j].rowId) && ps[j].rowId in s.used
    {
      PassPaysAListedRow(env, s, retryOnlyFailed, outcomes, ps, j);
    }
  }

  lemma PassPaysAListedRow(
      env: Env, s: Form, retryOnlyFailed: bool, outcomes: Outcomes, ps: seq<Payment>, j: nat)
    requires Inv(s) && ps == PaymentsOf(env, s.rows, retryOnlyFailed, outcomes, |s.rows|) && j < |ps|
    ensures !HasPayment(s.payments, ps[j].rowId) && ps[j].rowId in s.used
  {
    PassPaysTheseIds(env, s.rows, retryOnlyFailed, outcomes, |s.rows|, ps[j].rowId);
    assert HasPayment(ps, ps[j].rowId);
    var i :| 0 <= i < |s.rows| && s.rows[i].id == ps[j].rowId
             && Pays(env, s.rows[i], retryOnlyFailed, outcomes(i));
    assert RowInv(s.rows[i], s.payments);
  }

  lemma PassedKeepsInv(env: Env, s: Form, retryOnlyFailed: bool, outcomes: Outcomes)
    requires Inv(s) && AllAllowed(outcomes, false, false)
    ensures Inv(Passed(env, s, retryOnlyFailed, outcomes))
  {
    var s' := Passed(env, s, retryOnlyFailed, outcomes);
    PassKeepsAtMostOnce(env, s, retryOnlyFailed, outcomes);
    forall i | 0 <= i < |s.rows|
      ensures s'.rows[i].id == s.rows[i].id && RowInv(s'.rows[i], s'.payments)
    {
      PassKeepsRowInv(env, s, retryOnlyFailed, outcomes, i);
    }
    var ps := PaymentsOf(env, s.rows, retryOnlyFailed, outcomes, |s.rows|);
    forall j | 0 <= j < |ps|
      ensures ps[j].rowId in s.used
    {
      PassPaysAListedRow(env, s, retryOnlyFailed, outcomes, ps, j);
    }
  }

  /** Whatever edits come in during it, a pass keeps the invariant. */
  lemma PassKeepsInv(env: Env, s: Form, retryOnlyFailed: bool, outcomes: Outcomes, during: Interleaving)
    requires Inv(s) && AllAllowed(outcomes, false, false)
    ensures Inv(Pass(env, s, retryOnlyFailed, outcomes, during))
  {
    PassedKeepsInv(env, s, retryOnlyFailed, outcomes);
    PassIsAtomic(env, s, retryOnlyFailed, outcomes, during);
    MoreUsedIds(Passed(env, s, retryOnlyFailed, outcomes), Pass(env, s, retryOnlyFailed, outcomes, during).used);
  }

  lemma MoreUsedIds(s: Form, used: set<string>)
    requires Inv(s) && s.used <= used
    ensures Inv(s.(used := used))
  {}

  lemma {:induction false} RunKeepsInv(env: Env, s: Form, actions: seq<Action>)
    requires Inv(s) && ProperRun(env, s, actions, false, false)
    ensures Inv(Run(env, s, actions))
    decreases |actions|
  {
    if actions != [] {
      var n := |actions| - 1;
      assert forall k :: 0 <= k < n ==> actions[..n][..k] == actions[..k];
      RunKeepsInv(env, s, actions[..n]);
      ActKeepsInv(env, Run(env, s, actions[..n]), actions[n]);
    }
  }

  lemma ActKeepsInv(env: Env, s: Form, a: Action)
    requires Inv(s) && Proper(s, a, false, false)
    ensures Inv(Act(env, s, a))
  {
    match a
    case Do(edit) => EditKeepsInv(env, s, edit);
    case SendBatch(outcomes, during) => PassKeepsInv(env, s, false, outcomes, during);
    case RetryFailed(outcomes, during) => PassKeepsInv(env, s, true, outcomes, during);
  }

  /**
   * Over every run that reports each accepted payment, whatever is edited during its passes: each
   * row id has at most one accepted payment, a listed row is `success` exactly when it has one, and
   * no row is `pending` between passes.
   */
  lemma RowsArePaidAtMostOnce(env: Env, id: string, actions: seq<Action>)
    requires ProperRun(env, Initial(id), actions, false, false)
    ensures var s := Run(env, Initial(id), actions);
            && |s.rows| <= 10
            && (forall i, j :: 0 <= i < j < |s.payments| ==> s.payments[i].rowId != s.payments[j].rowId)
            && (forall r :: r in s.rows ==> r.status != Pending)
            && (forall r :: r in s.rows ==>
                  (r.status == Success <==> exists i :: 0 <= i < |s.payments| && s.payments[i].rowId == r.id))
  {
    RunKeepsInv(env, Initial(id), actions);
    var s := Run(env, Initial(id), actions);
    forall r | r in s.rows
      ensures RowInv(r, s.payments)
    {
      var i :| 0 <= i < |s.rows| && s.rows[i] == r;
    }
  }

  // ----- Tokens -----

  ghost predicate TokensConsistent(rows: seq<Row>) {
    forall i :: 0 <= i < |rows| ==> TokenConsistent(rows[i].token)
  }

  lemma EditKeepsTokensConsistent(env: Env, s: Form, e: Edit)
    requires TokensConsistent(s.rows)
    ensures TokensConsistent(Change(env, s, e).rows)
  {
    match e
    case RemoveRow(id) => var at := WithoutRowKeepsRest(s.rows, id);
    case _ =>
  }

  lemma ActKeepsTokensConsistent(env: Env, s: Form, a: Action)
    requires TokensConsistent(s.rows)
    ensures TokensConsistent(Act(env, s, a).rows)
  {
    match a
    case Do(edit) => EditKeepsTokensConsistent(env, s, edit);
    case SendBatch(outcomes, during) => PassKeepsTokens(env, s, false, outcomes, during);
    case RetryFailed(outcomes, during) => PassKeepsTokens(env, s, true, outcomes, during);
  }

  lemma PassKeepsTokens(env: Env, s: Form, retryOnlyFailed: bool, outcomes: Outcomes, during: Interleaving)
    ensures var next := Pass(env, s, retryOnlyFailed, outcomes, during).rows;
            |next| == |s.rows| && forall i :: 0 <= i < |s.rows| ==> next[i].token == s.rows[i].token
  {
    PassIsAtomic(env, s, retryOnlyFailed, outcomes, during);
  }

  /** Whatever the ids and outcomes: on every run, exactly the XLM rows are of the native kind. */
  lemma {:induction false} TokensStayConsistent(env: Env, id: string, actions: seq<Action>)
    ensures TokensConsistent(Run(env, Initial(id), actions).rows)
    decreases |actions|
  {
    if actions != [] {
      var n := |actions| - 1;
      TokensStayConsistent(env, id, actions[..n]);
      ActKeepsTokensConsistent(env, Run(env, Initial(id), actions[..n]), actions[n]);
    }
  }

  // ----- The condition on outcomes is exact -----

  /** Address and amount pass the form's validation for XLM. */
  predicate Payable(env: Env, address: string, amount: string) {
    env.isAddress(address) && IsPositive(env.parse(amount)) && address != env.publicKey
  }

  ghost predicate CanPay(env: Env) {
    exists address, amount :: Payable(env, address, amount)
  }

  /** The network accepted the payment, and the row is marked failed. */
  predicate Unreported(outcome: Outcome) {
    outcome.SubmitsButCallbackThrows? || outcome.AcceptedButSubmitFails?
  }

  function Throws(i: nat): Outcome {
    SubmitsButCallbackThrows("hash", "error")
  }

  function Loses(i: nat): Outcome {
    AcceptedButSubmitFails("timeout")
  }

  function Works(i: nat): Outcome {
    Submits("hash")
  }

  function Undisturbed(i: nat): seq<Edit> {
    []
  }

  /** What an undisturbed pass does to a single row it takes up and finds valid. */
  lemma OneRowPass(env: Env, s: Form, row: Row, retryOnlyFailed: bool, outcomes: Outcomes)
    requires s.rows == [row] && Attempted(row, retryOnlyFailed) && Validate(env, row) == None
    ensures Pass(env, s, retryOnlyFailed, outcomes, Undisturbed)
            == Form([Settled(row, outcomes(0))],
                    s.payments + if Paid(outcomes(0)) then [PaymentOf(env, row)] else [], s.used)
  {
    assert PassSteps(env, s, retryOnlyFailed, outcomes, Undisturbed, 0) == Shown(s.rows, s);
    assert Pass(env, s, retryOnlyFailed, outcomes, Undisturbed)
        == RowStep(env, Shown(s.rows, s), 0, retryOnlyFailed, outcomes(0), []).form;
  }

  function FillIn(id: string, address: string, amount: string): Action {
    Do(EditRow(id, Some(address), Some(amount), None))
  }

  /** Fill in the first row, send it, and retry. */
  function SendThenRetry(id: string, address: string, amount: string, first: Outcomes): seq<Action> {
    [FillIn(id, address, amount), SendBatch(first, Undisturbed), RetryFailed(Works, Undisturbed)]
  }

  function FilledIn(id: string, address: string, amount: string): Row {
    NewRow(id).(address := address, amount := amount)
  }

  /** The run up to and including the first pass. */
  lemma FillInAndSend(env: Env, id: string, address: string, amount: string, first: Outcomes)
    requires Payable(env, address, amount)
    ensures var row := FilledIn(id, address, amount);
            Act(env, Act(env, Initial(id), FillIn(id, address, amount)), SendBatch(first, Undisturbed))
            == Form([Settled(row, first(0))], if Paid(first(0)) then [PaymentOf(env, row)] else [], {id})
  {
    var row := FilledIn(id, address, amount);
    var s := Act(env, Initial(id), FillIn(id, address, amount));
    assert s.rows == [row];
    assert IdsOf(s.rows) == {id};
    OneRowPass(env, s, row, false, first);
  }

  lemma RunOfThree(env: Env, s: Form, a: Action, b: Action, c: Action)
    ensures Run(env, s, [a, b]) == Act(env, Act(env, s, a), b)
    ensures Run(env, s, [a, b, c]) == Act(env, Act(env, Act(env, s, a), b), c)
  {
    assert [a, b, c][..2] == [a, b] && [a, b][..1] == [a] && [a][..0] == [];
    assert Run(env, s, [a]) == Act(env, Run(env, s, []), a);
    assert Run(env, s, [a, b]) == Act(env, Run(env, s, [a]), b);
  }

  /**
   * Every payable row whose accepted payment goes unreported - the callback throws, or the response
   * is lost - is paid again by a retry.
   */
  lemma UnreportedPaymentIsRepeated(env: Env, id: string, address: string, amount: string, first: Outcomes)
    requires Payable(env, address, amount) && Unreported(first(0))
    ensures var payments := Run(env, Initial(id), SendThenRetry(id, address, amount, first)).payments;
            |payments| == 2 && payments[0] == payments[1] && payments[0].rowId == id
  {
    var row := FilledIn(id, address, amount);
    var failed := Settled(row, first(0));
    FillInAndSend(env, id, address, amount, first);
    RunOfThree(env, Initial(id), FillIn(id, address, amount), SendBatch(first, Undisturbed), RetryFailed(Works, Undisturbed));
    var s := Form([failed], [PaymentOf(env, row)], {id});
    assert s.rows[0].status == Failed;
    OneRowPass(env, s, failed, true, Works);
  }

  /** The witness run creates no rows, so it is proper as far as its outcomes are. */
  lemma WitnessIsProper(
      env: Env, id: string, address: string, amount: string, first: Outcomes, mayThrow: bool, mayLose: bool)
    requires AllAllowed(first, mayThrow, mayLose)
    ensures ProperRun(env, Initial(id), SendThenRetry(id, address, amount, first), mayThrow, mayLose)
  {
    var actions := SendThenRetry(id, address, amount, first);
    forall k | 0 <= k < |actions|
      ensures Proper(Run(env, Initial(id), actions[..k]), actions[k], mayThrow, mayLose)
    {
      ProperAnywhere(Run(env, Initial(id), actions[..k]), actions[k], mayThrow, mayLose);
    }
  }

  /** Editing a row is proper in any form, and so are passes with allowed outcomes. */
  lemma ProperAnywhere(s: Form, a: Action, mayThrow: bool, mayLose: bool)
    requires a.Do? ==> a.edit.EditRow?
    requires !a.Do? ==> AllAllowed(a.outcomes, mayThrow, mayLose)
    ensures Proper(s, a, mayThrow, mayLose)
  {}

  /**
   * Every run pays each row at most once if and only if every accepted payment is reported - no
   * callback throws and no response gets lost - or no row can be paid at all.
   */
  lemma AtMostOnceIffPaymentsReported(env: Env, id: string, mayThrow: bool, mayLose: bool)
    ensures (forall actions :: ProperRun(env, Initial(id), actions, mayThrow, mayLose)
               ==> AtMostOnce(Run(env, Initial(id), actions).payments))
            <==> (!mayThrow && !mayLose) || !CanPay(env)
  {
    if !mayThrow && !mayLose {
      forall actions | ProperRun(env, Initial(id), actions, false, false)
        ensures AtMostOnce(Run(env, Initial(id), actions).payments)
      {
        RunKeepsInv(env, Initial(id), actions);
      }
    } else if CanPay(env) {
      var address, amount :| Payable(env, address, amount);
      var first := if mayThrow then Throws else Loses;
      UnreportedPaymentIsRepeated(env, id, address, amount, first);
      WitnessIsProper(env, id, address, amount, first, mayThrow, mayLose);
    } else {
      forall actions
        ensures AtMostOnce(Run(env, Initial(id), actions).payments)
      {
        NothingIsPaid(env, Initial(id), actions);
      }
    }
  }

  lemma {:induction false} NothingIsPaid(env: Env, s: Form, actions: seq<Action>)
    requires !CanPay(env)
    ensures Run(env, s, actions).payments == s.payments
    decreases |actions|
  {
    if actions != [] {
      var before := Run(env, s, actions[..|actions| - 1]);
      NothingIsPaid(env, s, actions[..|actions| - 1]);
      match actions[|actions| - 1]
      case Do(edit) =>
      case SendBatch(outcomes, during) =>
        PassIsAtomic(env, before, false, outcomes, during);
        PassPaysNothing(env, before.rows, false, outcomes, |before.rows|);
      case RetryFailed(outcomes, during) =>
        PassIsAtomic(env, before, true, outcomes, during);
        PassPaysNothing(env, before.rows, true, outcomes, |before.rows|);
    }
  }

  lemma {:induction false} PassPaysNothing(
      env: Env, rows: seq<Row>, retryOnlyFailed: bool, outcomes: Outcomes, n: nat)
    requires !CanPay(env) && n <= |rows|
    ensures PaymentsOf(env, rows, retryOnlyFailed, outcomes, n) == []
  {
    if n > 0 {
      PassPaysNothing(env, rows, retryOnlyFailed, outcomes, n - 1);
      assert !Payable(env, rows[n - 1].address, rows[n - 1].amount);
    }
  }

  // ----- "Complete" beside an idle row -----

  /** Fill in the first row, send, add a row, and retry. */
  function AddBeforeRetry(
      id: string, address: string, amount: string, newId: string, first: Outcomes, second: Outcomes): seq<Action>
  {
    [FillIn(id, address, amount), SendBatch(first, Undisturbed), Do(AddRow(newId)), RetryFailed(second, Undisturbed)]
  }

  lemma RunSnoc(env: Env, s: Form, actions: seq<Action>, a: Action)
    ensures Run(env, s, actions + [a]) == Act(env, Run(env, s, actions), a)
  {
    assert (actions + [a])[..|actions|] == actions;
  }

  lemma BeforeTheRetry(env: Env, id: string, address: string, amount: string, newId: string, first: Outcomes)
    requires Payable(env, address, amount) && !Paid(first(0))
    ensures var s := Run(env, Initial(id), [FillIn(id, address, amount), SendBatch(first, Undisturbed), Do(AddRow(newId))]);
            s.rows == [Settled(FilledIn(id, address, amount), first(0)), NewRow(newId)]
  {
    var a, b, c := FillIn(id, address, amount), SendBatch(first, Undisturbed), Do(AddRow(newId));
    RunOfThree(env, Initial(id), a, b, c);
    FillInAndSend(env, id, address, amount, first);
  }

  lemma NewIdIsFresh(env: Env, id: string, address: string, amount: string, newId: string, first: Outcomes)
    requires Payable(env, address, amount) && newId != id
    ensures var s := Run(env, Initial(id), [FillIn(id, address, amount), SendBatch(first, Undisturbed)]);
            newId !in s.used
  {
    var a, b := FillIn(id, address, amount), SendBatch(first, Undisturbed);
    RunOfThree(env, Initial(id), a, b, b);
    FillInAndSend(env, id, address, amount, first);
  }

  lemma AddBeforeRetryIsProper(
      env: Env, id: string, address: string, amount: string, newId: string, first: Outcomes, second: Outcomes)
    requires Payable(env, address, amount) && newId != id
    requires AllAllowed(first, false, false) && AllAllowed(second, false, false)
    ensures ProperRun(env, Initial(id), AddBeforeRetry(id, address, amount, newId, first, second), false, false)
  {
    var actions := AddBeforeRetry(id, address, amount, newId, first, second);
    NewIdIsFresh(env, id, address, amount, newId, first);
    forall k | 0 <= k < 4
      ensures Proper(Run(env, Initial(id), actions[..k]), actions[k], false, false)
    {
      if k == 2 {
        assert actions[..2] == [FillIn(id, address, amount), SendBatch(first, Undisturbed)];
      } else {
        ProperAnywhere(Run(env, Initial(id), actions[..k]), actions[k], false, false);
      }
    }
  }

  /**
   * When a row is added after a send that paid nothing, a retry that succeeds leaves no row failed,
   * so it reports "complete", yet a row is idle.
   */
  lemma CompleteBesideIdleRow(
      env: Env, id: string, address: string, amount: string, newId: string, first: Outcomes, second: Outcomes)
    requires Payable(env, address, amount) && !Paid(first(0)) && second(0).Submits?
    ensures var actions := AddBeforeRetry(id, address, amount, newId, first, second);
            var before := Run(env, Initial(id), actions[..3]).rows;
            var after := Run(env, Initial(id), actions).rows;
            && AnyWith(before, Failed) && after == RowsAfter(env, before, true, second)
            && !AnyWith(after, Failed) && AnyWith(after, Idle)
  {
    var a, b, c := FillIn(id, address, amount), SendBatch(first, Undisturbed), Do(AddRow(newId));
    var d := RetryFailed(second, Undisturbed);
    var actions := AddBeforeRetry(id, address, amount, newId, first, second);
    assert actions[..3] == [a, b, c];
    assert actions == [a, b, c] + [d];
    var s := Run(env, Initial(id), [a, b, c]);
    BeforeTheRetry(env, id, address, amount, newId, first);
    assert s.rows[0].status == Failed;
    RunSnoc(env, Initial(id), [a, b, c], d);
    PassIsAtomic(env, s, true, second, Undisturbed);
    var after := RowsAfter(env, s.rows, true, second);
    assert after[0].status == Success && after[1].status == Idle;
  }
}
