/**
 * Totals, balances and amounts of the batch form: what the screen shows against what a pass sends
 * (frontend/components/BatchPaymentForm.tsx, frontend/components/BatchSummary.tsx).
 */
module BatchMoney {
  import opened Options
  import opened Lists
  import opened BatchForm
  import opened BatchRuns
  import Builder

  // ----- Totals by token -----

  /** A counted amount and the code it is booked under. */
  datatype Entry = Entry(code: string, amount: real)

  function SumOf(entries: seq<Entry>, code: string): real {
    if entries == [] then 0.0
    else
      var last := entries[|entries| - 1];
      SumOf(entries[..|entries| - 1], code) + if last.code == code then last.amount else 0.0
  }

  predicate Booked(entries: seq<Entry>, code: string) {
    exists i :: 0 <= i < |entries| && entries[i].code == code
  }

  /** `totals` holds exactly the booked codes, each with its sum. */
  ghost predicate TotalsOf(totals: map<string, real>, entries: seq<Entry>) {
    && (forall code :: code in totals <==> Booked(entries, code))
    && (forall code :: code in totals ==> totals[code] == SumOf(entries, code))
  }

  lemma TotalsAppend(totals: map<string, real>, entries: seq<Entry>, e: Entry)
    requires TotalsOf(totals, entries)
    ensures TotalsOf(
              totals[e.code := (if e.code in totals then totals[e.code] else 0.0) + e.amount], entries + [e])
  {
    var more := entries + [e];
    assert more[..|entries|] == entries;
    forall code
      ensures Booked(more, code) <==> Booked(entries, code) || code == e.code
    {
      if Booked(entries, code) {
        var i :| 0 <= i < |entries| && entries[i].code == code;
        assert more[i].code == code;
      }
      assert more[|entries|].code == e.code;
    }
    UnbookedSumsToZero(entries, e.code);
  }

  lemma {:induction false} UnbookedSumsToZero(entries: seq<Entry>, code: string)
    ensures !Booked(entries, code) ==> SumOf(entries, code) == 0.0
  {
    if entries != [] && !Booked(entries, code) {
      var n := |entries| - 1;
      assert forall i :: 0 <= i < n ==> entries[..n][i] == entries[i];
      UnbookedSumsToZero(entries[..n], code);
      assert entries[n].code != code;
    }
  }

  lemma TotalsAreUnique(a: map<string, real>, b: map<string, real>, entries: seq<Entry>)
    requires TotalsOf(a, entries) && TotalsOf(b, entries)
    ensures a == b
  {
    assert forall code :: code in a <==> code in b;
    assert forall code :: code in a ==> a[code] == b[code];
  }

  /** What the form counts: every row with a positive finite amount, under its token's code. */
  function FormEntries(env: Env, rows: seq<Row>): seq<Entry> {
    if rows == [] then []
    else
      var n := |rows| - 1;
      FormEntries(env, rows[..n])
      + if IsPositive(env.parse(rows[n].amount)) then
          [Entry(rows[n].token.code, env.parse(rows[n].amount).value)]
        else []
  }

  /** The entries are those of the rows with a positive finite amount, in order, under their own code. */
  lemma {:induction false} EntriesAreThoseOfPositiveRows(env: Env, rows: seq<Row>) returns (at: seq<nat>)
    ensures var entries := FormEntries(env, rows);
            && |at| == |entries|
            && (forall k, l :: 0 <= k < l < |at| ==> at[k] < at[l])
            && (forall k :: 0 <= k < |at| ==>
                  && at[k] < |rows| && entries[k].code == rows[at[k]].token.code
                  && Finite(entries[k].amount) == env.parse(rows[at[k]].amount))
            && (forall i: nat :: i < |rows| ==>
                  (i in at <==> env.parse(rows[i].amount).Finite? && env.parse(rows[i].amount).value > 0.0))
  {
    if rows == [] {
      at := [];
    } else {
      var n := |rows| - 1;
      var before := EntriesAreThoseOfPositiveRows(env, rows[..n]);
      at := before;
      if IsPositive(env.parse(rows[n].amount)) {
        at := before + [n];
        assert at[|before|] == n;
        assert forall i: nat :: i < n ==> (i in at <==> i in before);
      } else {
        assert forall k :: 0 <= k < |before| ==> before[k] != n;
      }
    }
  }

  /** `totalByToken` */
  method TotalByToken(env: Env, rows: seq<Row>) returns (totals: map<string, real>)
    ensures TotalsOf(totals, FormEntries(env, rows))
  {
    totals := map[];
    for i := 0 to |rows|
      invariant TotalsOf(totals, FormEntries(env, rows[..i]))
    {
      ghost var before := FormEntries(env, rows[..i]);
      assert rows[..i + 1][..i] == rows[..i];
      var amount := env.parse(rows[i].amount);
      if IsPositive(amount) {
        var e := Entry(rows[i].token.code, amount.value);
        TotalsAppend(totals, before, e);
        assert FormEntries(env, rows[..i + 1]) == before + [e];
        totals := totals[e.code := (if e.code in totals then totals[e.code] else 0.0) + e.amount];
      } else {
        assert FormEntries(env, rows[..i + 1]) == before;
      }
    }
    assert rows[..|rows|] == rows;
  }

  // ----- The balance gate -----

  /** The available balance of a token, 0 when there is no entry; a balance text may parse to NaN. */
  function Available(balances: map<string, Number>, code: string): Number {
    if code in balances then balances[code] else Finite(0.0)
  }

  /** `amount > available`; a comparison with NaN is false. */
  predicate Exceeds(amount: real, available: Number) {
    available.Finite? && amount > available.value
  }

  /** `exceedsBalance`, which disables the Send button. */
  predicate ExceedsBalance(totals: map<string, real>, balances: map<string, Number>) {
    exists code :: code in totals && Exceeds(totals[code], Available(balances, code))
  }

  lemma {:induction false} BookedSumIsPositive(entries: seq<Entry>, code: string)
    requires forall i :: 0 <= i < |entries| ==> entries[i].amount > 0.0
    ensures if Booked(entries, code) then SumOf(entries, code) > 0.0 else SumOf(entries, code) == 0.0
  {
    if entries != [] {
      var n := |entries| - 1;
      assert forall i :: 0 <= i < n ==> entries[..n][i] == entries[i];
      BookedSumIsPositive(entries[..n], code);
    }
  }

  /**
   * The Send button is disabled exactly when some displayed token has no balance entry or a
   * readable balance below its total: a displayed total is positive, and a balance that does not
   * parse never disables.
   */
  lemma GateIsOnIff(env: Env, rows: seq<Row>, totals: map<string, real>, balances: map<string, Number>)
    requires TotalsOf(totals, FormEntries(env, rows))
    ensures forall code :: code in totals ==> totals[code] > 0.0
    ensures ExceedsBalance(totals, balances) <==>
      exists code :: code in totals
        && (code !in balances || (balances[code].Finite? && balances[code].value < totals[code]))
  {
    var at := EntriesAreThoseOfPositiveRows(env, rows);
    var entries := FormEntries(env, rows);
    forall k | 0 <= k < |entries|
      ensures entries[k].amount > 0.0
    {
      assert at[k] in at;
    }
    forall code | code in totals
      ensures totals[code] > 0.0
      ensures Exceeds(totals[code], Available(balances, code)) <==>
        code !in balances || (balances[code].Finite? && balances[code].value < totals[code])
    {
      BookedSumIsPositive(entries, code);
    }
  }

  function PaidStroops(payments: seq<Payment>, code: string): int {
    if payments == [] then 0
    else
      var last := payments[|payments| - 1];
      PaidStroops(payments[..|payments| - 1], code) + if AssetCode(last.asset) == code then last.stroops else 0
  }

  function PaymentCount(payments: seq<Payment>, code: string): nat {
    if payments == [] then 0
    else
      PaymentCount(payments[..|payments| - 1], code)
      + if AssetCode(payments[|payments| - 1].asset) == code then 1 else 0
  }

  /** The amount of the row is a whole number of stroops. */
  predicate WholeStroops(env: Env, row: Row) {
    IsPositive(env.parse(row.amount)) ==>
      var x := env.parse(row.amount).value * STROOPS_PER_UNIT; x.Floor as real == x
  }

  /** Rounding to stroops is to the nearest one, ties to the larger, and exact on whole stroops. */
  lemma RoundingError(x: real)
    ensures -0.5 < Stroops(x) as real - x * 10000000.0 <= 0.5
    ensures (x * 10000000.0).Floor as real == x * 10000000.0 ==> Stroops(x) as real == x * 10000000.0
  {
    var y := x * STROOPS_PER_UNIT;
    if y.Floor as real == y {
      assert (y + 0.5).Floor == y.Floor;
    }
  }

  /**
   * Every accepted payment of a pass is that of a listed row: its address, which is valid and not
   * the sender's, its displayed token, and its positive amount rounded to the nearest stroop.
   */
  lemma PaymentMatchesItsRow(
      env: Env, rows: seq<Row>, retryOnlyFailed: bool, outcomes: Outcomes, p: Payment)
    returns (i: nat)
    requires forall k :: 0 <= k < |rows| ==> TokenConsistent(rows[k].token)
    requires p in PaymentsOf(env, rows, retryOnlyFailed, outcomes, |rows|)
    ensures i < |rows| && rows[i].status != Success && (retryOnlyFailed ==> rows[i].status == Failed)
    ensures p.rowId == rows[i].id && p.to == rows[i].address && AssetCode(p.asset) == rows[i].token.code
    ensures p.asset.Issued? ==> rows[i].token.issuer == Some(p.asset.issuer)
    ensures env.isAddress(p.to) && p.to != env.publicKey
    ensures env.parse(rows[i].amount).Finite? && env.parse(rows[i].amount).value > 0.0
    ensures -0.5 < p.stroops as real - env.parse(rows[i].amount).value * 10000000.0 <= 0.5
  {
    PaymentsComeFromRows(env, rows, retryOnlyFailed, outcomes, |rows|, p);
    i :| 0 <= i < |rows| && Pays(env, rows[i], retryOnlyFailed, outcomes(i)) && p == PaymentOf(env, rows[i]);
    PaidInDisplayedAsset(env, rows[i]);
    RoundingError(env.parse(rows[i].amount).value);
  }

  /** The stroops the row adds to the displayed total of `code`, before rounding. */
  function Due(env: Env, row: Row, code: string): real {
    if IsPositive(env.parse(row.amount)) && row.token.code == code then
      env.parse(row.amount).value * STROOPS_PER_UNIT
    else 0.0
  }

  lemma DueIsRounded(env: Env, row: Row, code: string)
    ensures Due(env, row, code) >= 0.0
    ensures IsPositive(env.parse(row.amount)) && row.token.code == code ==>
              Stroops(env.parse(row.amount).value) as real - Due(env, row, code) <= 0.5
    ensures WholeStroops(env, row) && IsPositive(env.parse(row.amount)) && row.token.code == code ==>
              Stroops(env.parse(row.amount).value) as real == Due(env, row, code)
  {
    if IsPositive(env.parse(row.amount)) {
      RoundingError(env.parse(row.amount).value);
    }
  }

  function DisplayedStroops(env: Env, rows: seq<Row>, code: string): real {
    SumOf(FormEntries(env, rows), code) * STROOPS_PER_UNIT
  }

  lemma DisplayedOfPrefix(env: Env, rows: seq<Row>, n: nat, code: string)
    requires 0 < n <= |rows|
    ensures DisplayedStroops(env, rows[..n], code)
            == DisplayedStroops(env, rows[..n - 1], code) + Due(env, rows[n - 1], code)
  {
    assert rows[..n][..n - 1] == rows[..n - 1];
    var before, after := FormEntries(env, rows[..n - 1]), FormEntries(env, rows[..n]);
    if IsPositive(env.parse(rows[n - 1].amount)) {
      assert after[..|after| - 1] == before;
    } else {
      assert after == before;
    }
  }

  /** What the row adds to the paid stroops and to the number of payments in `code`. */
  lemma PaidOfPrefix(
      env: Env, rows: seq<Row>, retryOnlyFailed: bool, outcomes: Outcomes, n: nat, code: string)
    requires 0 < n <= |rows| && TokenConsistent(rows[n - 1].token)
    ensures var row := rows[n - 1];
            var before := PaymentsOf(env, rows, retryOnlyFailed, outcomes, n - 1);
            var after := PaymentsOf(env, rows, retryOnlyFailed, outcomes, n);
            if Pays(env, row, retryOnlyFailed, outcomes(n - 1)) && row.token.code == code then
              && PaidStroops(after, code) == PaidStroops(before, code) + Stroops(env.parse(row.amount).value)
              && PaymentCount(after, code) == PaymentCount(before, code) + 1
            else
              && PaidStroops(after, code) == PaidStroops(before, code)
              && PaymentCount(after, code) == PaymentCount(before, code)
  {
    var before := PaymentsOf(env, rows, retryOnlyFailed, outcomes, n - 1);
    var after := PaymentsOf(env, rows, retryOnlyFailed, outcomes, n);
    if Pays(env, rows[n - 1], retryOnlyFailed, outcomes(n - 1)) {
      PaidInDisplayedAsset(env, rows[n - 1]);
      assert after[..|after| - 1] == before && after[|after| - 1] == PaymentOf(env, rows[n - 1]);
    } else {
      assert after == before;
    }
  }

  /** One row more keeps the bound: its payment, if any, is within half a stroop of what is due. */
  lemma OneRowMore(paid: real, displayed: real, count: real, due: real, stroops: real, pays: bool)
    requires paid <= displayed + count * 0.5
    requires due >= 0.0 && (pays ==> stroops - due <= 0.5)
    ensures (if pays then paid + stroops else paid) <= displayed + due + (if pays then count + 1.0 else count) * 0.5
  {}

  /**
   * A pass - full or retry - pays, per token, at most the displayed total plus half a stroop per
   * payment.
   */
  lemma {:induction false} PassPaysAtMostTotal(
      env: Env, rows: seq<Row>, retryOnlyFailed: bool, outcomes: Outcomes, n: nat, code: string)
    requires n <= |rows| && forall i :: 0 <= i < |rows| ==> TokenConsistent(rows[i].token)
    ensures var ps := PaymentsOf(env, rows, retryOnlyFailed, outcomes, n);
            PaidStroops(ps, code) as real
            <= DisplayedStroops(env, rows[..n], code) + PaymentCount(ps, code) as real * 0.5
  {
    if n > 0 {
      PassPaysAtMostTotal(env, rows, retryOnlyFailed, outcomes, n - 1, code);
      DisplayedOfPrefix(env, rows, n, code);
      PaidOfPrefix(env, rows, retryOnlyFailed, outcomes, n, code);
      var row, before := rows[n - 1], PaymentsOf(env, rows, retryOnlyFailed, outcomes, n - 1);
      var pays := Pays(env, row, retryOnlyFailed, outcomes(n - 1)) && row.token.code == code;
      DueIsRounded(env, row, code);
      OneRowMore(
        PaidStroops(before, code) as real, DisplayedStroops(env, rows[..n - 1], code),
        PaymentCount(before, code) as real, Due(env, row, code),
        if pays then Stroops(env.parse(row.amount).value) as real else 0.0, pays);
    }
  }

  /** When all amounts are whole stroops, it pays at most the displayed total. */
  lemma {:induction false} WholeStroopsPayAtMostTotal(
      env: Env, rows: seq<Row>, retryOnlyFailed: bool, outcomes: Outcomes, n: nat, code: string)
    requires n <= |rows| && forall i :: 0 <= i < |rows| ==> TokenConsistent(rows[i].token)
    requires forall i :: 0 <= i < |rows| ==> WholeStroops(env, rows[i])
    ensures PaidStroops(PaymentsOf(env, rows, retryOnlyFailed, outcomes, n), code) as real
            <= DisplayedStroops(env, rows[..n], code)
  {
    if n > 0 {
      WholeStroopsPayAtMostTotal(env, rows, retryOnlyFailed, outcomes, n - 1, code);
      DisplayedOfPrefix(env, rows, n, code);
      PaidOfPrefix(env, rows, retryOnlyFailed, outcomes, n, code);
      assert WholeStroops(env, rows[n - 1]);
      DueIsRounded(env, rows[n - 1], code);
    }
  }

  /**
   * In every run of the form: when a Send pass starts while no token exceeds its balance, every
   * displayed token has a balance entry, and a readable one bounds what is paid in the token when
   * amounts are whole stroops; otherwise at most half a stroop per payment is paid more. Nothing
   * is paid in a token without a total.
   */
  lemma SendStaysWithinBalance(
      env: Env, id: string, actions: seq<Action>, outcomes: Outcomes,
      totals: map<string, real>, balances: map<string, Number>, code: string)
    requires var rows := Run(env, Initial(id), actions).rows;
             TotalsOf(totals, FormEntries(env, rows)) && !ExceedsBalance(totals, balances)
    ensures var rows := Run(env, Initial(id), actions).rows;
            var ps := PaymentsOf(env, rows, false, outcomes, |rows|);
            var paid := PaidStroops(ps, code) as real;
            && (code !in totals ==> PaidStroops(ps, code) == 0)
            && (code in totals ==> code in balances)
            && (code in totals && balances[code].Finite? ==>
                  var limit := balances[code].value * 10000000.0;
                  && paid <= limit + PaymentCount(ps, code) as real * 0.5
                  && ((forall i :: 0 <= i < |rows| ==> WholeStroops(env, rows[i])) ==> paid <= limit))
  {
    TokensStayConsistent(env, id, actions);
    var rows := Run(env, Initial(id), actions).rows;
    GateIsOnIff(env, rows, totals, balances);
    PassPaysAtMostTotal(env, rows, false, outcomes, |rows|, code);
    assert rows[..|rows|] == rows;
    if forall i :: 0 <= i < |rows| ==> WholeStroops(env, rows[i]) {
      WholeStroopsPayAtMostTotal(env, rows, false, outcomes, |rows|, code);
    }
    if code !in totals {
      UnbookedIsUnpaid(env, rows, false, outcomes, |rows|, code);
    }
  }

  lemma UnbookedPrefix(env: Env, rows: seq<Row>, n: nat, code: string)
    requires 0 < n <= |rows| && !Booked(FormEntries(env, rows[..n]), code)
    ensures !Booked(FormEntries(env, rows[..n - 1]), code)
    ensures IsPositive(env.parse(rows[n - 1].amount)) ==> rows[n - 1].token.code != code
  {
    var before, after := FormEntries(env, rows[..n - 1]), FormEntries(env, rows[..n]);
    assert rows[..n][..n - 1] == rows[..n - 1];
    assert forall i :: 0 <= i < |before| ==> after[i] == before[i];
    if IsPositive(env.parse(rows[n - 1].amount)) {
      assert after[|before|].code == rows[n - 1].token.code;
    }
  }

  lemma {:induction false} UnbookedIsUnpaid(
      env: Env, rows: seq<Row>, retryOnlyFailed: bool, outcomes: Outcomes, n: nat, code: string)
    requires n <= |rows| && forall i :: 0 <= i < |rows| ==> TokenConsistent(rows[i].token)
    requires !Booked(FormEntries(env, rows[..n]), code)
    ensures PaidStroops(PaymentsOf(env, rows, retryOnlyFailed, outcomes, n), code) == 0
  {
    if n > 0 {
      UnbookedPrefix(env, rows, n, code);
      UnbookedIsUnpaid(env, rows, retryOnlyFailed, outcomes, n - 1, code);
      PaidOfPrefix(env, rows, retryOnlyFailed, outcomes, n, code);
    }
  }

  // ----- Distributing an amount over a group -----

  /** `parseFloat` reads back what `toFixed(7)` wrote. */
  ghost predicate ReadsFixed(env: Env) {
    forall x: real :: x > 0.0 ==> env.parse(env.fixed7(x)) == Finite(Stroops(x) as real / STROOPS_PER_UNIT)
  }

  /** The sum over the addressed rows, in stroops. */
  function AddressedSum(env: Env, rows: seq<Row>): real {
    if rows == [] then 0.0
    else
      var last := rows[|rows| - 1];
      AddressedSum(env, rows[..|rows| - 1])
      + if last.address != "" && env.parse(last.amount).Finite? then
          env.parse(last.amount).value * STROOPS_PER_UNIT
        else 0.0
  }

  /** n times x, added up. */
  function Times(n: nat, x: real): real {
    if n == 0 then 0.0 else Times(n - 1, x) + x
  }

  lemma {:induction false} TimesIsProduct(n: nat, x: real)
    ensures Times(n, x) == n as real * x
  {
    if n > 0 {
      TimesIsProduct(n - 1, x);
      OneMore((n - 1) as real, x);
    }
  }

  lemma OneMore(n: real, x: real)
    ensures (n + 1.0) * x == n * x + x
  {}

  lemma {:induction false} SumOfEqualAmounts(env: Env, rows: seq<Row>, v: real)
    requires forall i :: 0 <= i < |rows| && rows[i].address != "" ==> env.parse(rows[i].amount) == Finite(v)
    ensures AddressedSum(env, rows) == Times(Addressed(rows), v * STROOPS_PER_UNIT)
  {
    if rows != [] {
      var front := rows[..|rows| - 1];
      SumOfEqualAmounts(env, front, v);
      assert rows[|rows| - 1].address != "" ==> Addressed(rows) == Addressed(front) + 1;
    }
  }

  lemma {:induction false} AddressedDependsOnAddresses(a: seq<Row>, b: seq<Row>)
    requires |a| == |b| && forall i :: 0 <= i < |a| ==> a[i].address == b[i].address
    ensures Addressed(a) == Addressed(b)
  {
    if a != [] {
      AddressedDependsOnAddresses(a[..|a| - 1], b[..|b| - 1]);
    }
  }

  /** What both modes leave alone: rows without address, and all but the amount of the others. */
  lemma ApplyTouchesAmountsOnly(
      env: Env, rows: seq<Row>, groupSelected: bool, mode: Distribution, text: string, i: nat)
    requires i < |rows|
    ensures var next := WithAmounts(env, rows, groupSelected, mode, text);
            && |next| == |rows|
            && next[i] == rows[i].(amount := next[i].amount)
            && (rows[i].address == "" || !groupSelected || !IsPositive(env.parse(text)) ==> next[i] == rows[i])
  {}

  ghost function AddressedRows(rows: seq<Row>): set<nat> {
    set i: nat | i < |rows| && rows[i].address != ""
  }

  lemma AddressedRowsStep(rows: seq<Row>, n: nat)
    requires |rows| == n + 1
    ensures |AddressedRows(rows)| == |AddressedRows(rows[..n])| + if rows[n].address != "" then 1 else 0
  {
    var before := AddressedRows(rows[..n]);
    assert forall i: nat :: i < n ==> rows[..n][i] == rows[i];
    if rows[n].address != "" {
      assert AddressedRows(rows) == before + {n};
    } else {
      assert AddressedRows(rows) == before;
    }
  }

  lemma {:induction false} AddressedIsCount(rows: seq<Row>)
    ensures Addressed(rows) == |AddressedRows(rows)|
  {
    if rows != [] {
      var n := |rows| - 1;
      AddressedIsCount(rows[..n]);
      AddressedRowsStep(rows, n);
    }
  }

  /**
   * With a group selected and a positive amount, every addressed row gets the text itself, or in
   * total mode the amount divided by the number of addressed rows, with seven decimals.
   */
  lemma AppliedAmounts(env: Env, rows: seq<Row>, mode: Distribution, text: string, i: nat)
    requires i < |rows| && rows[i].address != ""
    requires env.parse(text).Finite? && env.parse(text).value > 0.0
    ensures |AddressedRows(rows)| > 0
    ensures var next := WithAmounts(env, rows, true, mode, text);
            |next| == |rows| && next[i].amount == match mode {
              case PerRecipient => text
              case Total => env.fixed7(env.parse(text).value / |AddressedRows(rows)| as real)
            }
  {
    AddressedIsCount(rows);
  }

  /** Per-recipient mode gives every addressed row the amount itself: n rows get exactly n times it. */
  lemma PerRecipientIsExact(env: Env, rows: seq<Row>, text: string)
    requires IsPositive(env.parse(text)) && Addressed(rows) > 0
    ensures AddressedSum(env, WithAmounts(env, rows, true, PerRecipient, text))
            == Times(Addressed(rows), env.parse(text).value * STROOPS_PER_UNIT)
  {
    var next := WithAmounts(env, rows, true, PerRecipient, text);
    AddressedDependsOnAddresses(rows, next);
    SumOfEqualAmounts(env, next, env.parse(text).value);
  }

  /** The rounded n-th part of an amount, in stroops. */
  function Share(amount: real, n: nat): int
    requires n > 0
  {
    Stroops(amount / n as real)
  }

  /** Total mode: all addressed rows get the same share, the n-th part rounded to stroops. */
  lemma TotalGivesEqualShares(env: Env, rows: seq<Row>, text: string)
    requires ReadsFixed(env) && IsPositive(env.parse(text)) && Addressed(rows) > 0
    ensures var n := Addressed(rows);
            var next := WithAmounts(env, rows, true, Total, text);
            var share := Share(env.parse(text).value, n);
            && (forall i :: 0 <= i < |rows| && rows[i].address != "" ==>
                  env.parse(next[i].amount) == Finite(share as real / STROOPS_PER_UNIT))
            && AddressedSum(env, next) == Times(n, share as real)
  {
    var a, n := env.parse(text).value, Addressed(rows);
    var next := WithAmounts(env, rows, true, Total, text);
    PositiveQuotient(a, n as real);
    var v := Share(a, n) as real / STROOPS_PER_UNIT;
    AddressedDependsOnAddresses(rows, next);
    SumOfEqualAmounts(env, next, v);
    assert v * STROOPS_PER_UNIT == Share(a, n) as real;
    assert forall i :: 0 <= i < |rows| && rows[i].address != "" ==> next[i].amount == env.fixed7(a / n as real);
  }

  /** The two amounts differ by at most half a stroop for each of n rows. */
  predicate WithinRounding(sum: real, total: real, n: nat) {
    -(n as real) <= 2.0 * (sum - total) <= n as real
  }

  /** Dividing evenly: the n-th part is a whole number of stroops. */
  predicate DividesEvenly(amount: real, n: nat)
    requires n > 0
  {
    var part := amount / n as real * STROOPS_PER_UNIT;
    part.Floor as real == part
  }

  /**
   * So the distributed sum differs from the total by at most n/2 stroops, and not at all when the
   * n-th part is a whole number of stroops.
   */
  lemma TotalIsSplitWithinRounding(env: Env, rows: seq<Row>, text: string)
    requires ReadsFixed(env) && IsPositive(env.parse(text)) && Addressed(rows) > 0
    ensures var a, n := env.parse(text).value, Addressed(rows);
            var sum := AddressedSum(env, WithAmounts(env, rows, true, Total, text));
            && WithinRounding(sum, a * STROOPS_PER_UNIT, n)
            && (DividesEvenly(a, n) ==> sum == a * STROOPS_PER_UNIT)
  {
    TotalGivesEqualShares(env, rows, text);
    ShareError(env.parse(text).value, Addressed(rows));
  }

  lemma PositiveQuotient(a: real, n: real)
    requires a > 0.0 && n > 0.0
    ensures a / n > 0.0
  {
    var q := a / n;
    assert q * n == a;
    assert q <= 0.0 ==> q * n <= 0.0;
  }

  lemma ShareError(a: real, n: nat)
    requires n > 0
    ensures var sum := Times(n, Share(a, n) as real);
            && WithinRounding(sum, a * STROOPS_PER_UNIT, n)
            && (DividesEvenly(a, n) ==> sum == a * STROOPS_PER_UNIT)
  {
    var r, q, share := n as real, a / n as real, Share(a, n) as real;
    var part := q * STROOPS_PER_UNIT;
    RoundingError(q);
    TimesIsProduct(n, share);
    Whole(a, r);
    Scaled(r, share, part, Times(n, share), a * STROOPS_PER_UNIT);
  }

  lemma Whole(a: real, r: real)
    requires r > 0.0
    ensures r * (a / r * STROOPS_PER_UNIT) == a * STROOPS_PER_UNIT
  {
    var q := a / r;
    assert q * r == a;
  }

  lemma Scaled(r: real, x: real, y: real, sum: real, total: real)
    requires r > 0.0 && -0.5 <= x - y <= 0.5 && sum == r * x && total == r * y
    ensures -r <= 2.0 * (sum - total) <= r
    ensures x == y ==> sum == total
  {
    var d := x - y;
    assert r * d == sum - total;
    NonNegative(r, 0.5 - d);
    NonNegative(r, 0.5 + d);
    assert r * (0.5 - d) == 0.5 * r - r * d;
    assert r * (0.5 + d) == 0.5 * r + r * d;
  }

  lemma NonNegative(a: real, b: real)
    requires a >= 0.0 && b >= 0.0
    ensures a * b >= 0.0
  {}

  // ----- The summary panel -----

  /** `r.token?.code || "XLM"` */
  function CodeOrXlm(code: string): string {
    if code != "" then code else "XLM"
  }

  /** What the summary counts: positive finite amount and an address. */
  predicate Counted(env: Env, r: Builder.Recipient) {
    IsPositive(env.parse(r.amount)) && r.address != ""
  }

  function SummaryEntries(env: Env, recipients: seq<Builder.Recipient>): seq<Entry> {
    if recipients == [] then []
    else
      var n := |recipients| - 1;
      var r := recipients[n];
      SummaryEntries(env, recipients[..n])
      + if Counted(env, r) then [Entry(CodeOrXlm(r.token.code), env.parse(r.amount).value)] else []
  }

  /** The panel counts recipients with an address and a positive finite amount; no code means XLM. */
  lemma {:induction false} SummaryCountsAddressed(env: Env, recipients: seq<Builder.Recipient>) returns (at: seq<nat>)
    ensures var entries := SummaryEntries(env, recipients);
            && |at| == |entries|
            && (forall k, l :: 0 <= k < l < |at| ==> at[k] < at[l])
            && (forall k :: 0 <= k < |at| ==>
                  && at[k] < |recipients|
                  && entries[k].code
                     == (if recipients[at[k]].token.code == "" then "XLM" else recipients[at[k]].token.code)
                  && Finite(entries[k].amount) == env.parse(recipients[at[k]].amount))
            && (forall i: nat :: i < |recipients| ==>
                  (i in at <==> recipients[i].address != "" && env.parse(recipients[i].amount).Finite?
                                && env.parse(recipients[i].amount).value > 0.0))
    decreases |recipients|
  {
    if recipients == [] {
      at := [];
    } else {
      var n := |recipients| - 1;
      var before := SummaryCountsAddressed(env, recipients[..n]);
      at := before;
      if Counted(env, recipients[n]) {
        at := before + [n];
        assert at[|before|] == n;
        assert forall i: nat :: i < n ==> (i in at <==> i in before);
      } else {
        assert forall k :: 0 <= k < |before| ==> before[k] != n;
      }
    }
  }

  /** The `totals` fold of the summary panel. */
  method SummaryTotals(env: Env, recipients: seq<Builder.Recipient>)
    returns (byToken: map<string, real>, validCount: nat)
    ensures TotalsOf(byToken, SummaryEntries(env, recipients))
    ensures validCount == |SummaryEntries(env, recipients)|
  {
    byToken, validCount := map[], 0;
    for i := 0 to |recipients|
      invariant TotalsOf(byToken, SummaryEntries(env, recipients[..i]))
      invariant validCount == |SummaryEntries(env, recipients[..i])|
    {
      ghost var before := SummaryEntries(env, recipients[..i]);
      assert recipients[..i + 1][..i] == recipients[..i];
      var r := recipients[i];
      if Counted(env, r) {
        var e := Entry(CodeOrXlm(r.token.code), env.parse(r.amount).value);
        TotalsAppend(byToken, before, e);
        assert SummaryEntries(env, recipients[..i + 1]) == before + [e];
        byToken := byToken[e.code := (if e.code in byToken then byToken[e.code] else 0.0) + e.amount];
        validCount := validCount + 1;
      } else {
        assert SummaryEntries(env, recipients[..i + 1]) == before;
      }
    }
    assert recipients[..|recipients|] == recipients;
  }

  /** The row a builder recipient becomes; status, error and hash come from a listed row with its id. */
  function SyncedRow(rows: seq<Row>, r: Builder.Recipient): Row {
    var base := Row(r.id, r.address, r.amount, r.memo,
                    Token(r.token.code, r.token.issuer, if r.token.code == "XLM" then Xlm else Usdc),
                    Idle, None, None);
    match FindRow(rows, r.id)
    case None => base
    case Some(row) => base.(status := row.status, error := row.error, transactionHash := row.transactionHash)
  }

  function FindRow(rows: seq<Row>, id: string): Option<Row> {
    if rows == [] then None
    else if rows[0].id == id then Some(rows[0])
    else FindRow(rows[1..], id)
  }

  predicate IsFilledIn(r: Builder.Recipient) {
    r.address != "" && r.amount != ""
  }

  /** `onRecipientsChange` in builder mode: rows with an address and an amount text. */
  function Synced(rows: seq<Row>, recipients: seq<Builder.Recipient>): (synced: seq<Row>)
    ensures |synced| == |Filter(recipients, IsFilledIn)|
    ensures forall k :: 0 <= k < |synced| ==> synced[k] == SyncedRow(rows, Filter(recipients, IsFilledIn)[k])
  {
    var kept := Filter(recipients, IsFilledIn);
    seq(|kept|, k requires 0 <= k < |kept| => SyncedRow(rows, kept[k]))
  }

  lemma {:induction false} FindRowIsFirst(rows: seq<Row>, id: string) returns (j: nat)
    ensures j <= |rows| && forall i :: 0 <= i < j ==> rows[i].id != id
    ensures if j < |rows| then rows[j].id == id && FindRow(rows, id) == Some(rows[j]) else FindRow(rows, id) == None
  {
    if rows == [] || rows[0].id == id {
      j := 0;
    } else {
      j := FindRowIsFirst(rows[1..], id);
      j := j + 1;
    }
  }

  /** What the recipient shows, and it is of native kind exactly when its code is XLM. */
  ghost predicate ShowsRecipient(row: Row, r: Builder.Recipient) {
    && row.id == r.id && row.address == r.address && row.amount == r.amount && row.memo == r.memo
    && row.token.code == r.token.code && row.token.issuer == r.token.issuer
    && TokenConsistent(row.token)
  }

  /** Status, error and hash of the first listed row with its id, or those of a new row. */
  ghost predicate KeepsProgress(row: Row, rows: seq<Row>) {
    if forall j :: 0 <= j < |rows| ==> rows[j].id != row.id then
      row.status == Idle && row.error == None && row.transactionHash == None
    else
      exists j :: 0 <= j < |rows| && rows[j].id == row.id && (forall i :: 0 <= i < j ==> rows[i].id != row.id)
        && row.status == rows[j].status && row.error == rows[j].error
        && row.transactionHash == rows[j].transactionHash
  }

  lemma SyncedRowKeepsProgress(rows: seq<Row>, r: Builder.Recipient)
    ensures ShowsRecipient(SyncedRow(rows, r), r) && KeepsProgress(SyncedRow(rows, r), rows)
  {
    var j := FindRowIsFirst(rows, r.id);
    assert j < |rows| ==> rows[j].id == r.id;
  }

  /**
   * The builder's list replaces the form's: one row, in order, for each recipient with an address
   * and an amount text, which keeps the progress of the listed row with its id.
   */
  lemma SyncedRowsAreThoseOfRecipients(rows: seq<Row>, recipients: seq<Builder.Recipient>) returns (at: seq<nat>)
    ensures var synced := Synced(rows, recipients);
            && |at| == |synced|
            && (forall k, l :: 0 <= k < l < |at| ==> at[k] < at[l])
            && (forall k :: 0 <= k < |at| ==> at[k] < |recipients| && ShowsRecipient(synced[k], recipients[at[k]]))
            && (forall k :: 0 <= k < |synced| ==> KeepsProgress(synced[k], rows))
            && (forall i: nat :: i < |recipients| && recipients[i].address != "" && recipients[i].amount != "" ==>
                  i in at)
            && (forall i: nat :: i in at ==> recipients[i].address != "" && recipients[i].amount != "")
  {
    at := FilterKeepsInOrder(recipients, IsFilledIn);
    var kept := Filter(recipients, IsFilledIn);
    forall k | 0 <= k < |kept|
      ensures ShowsRecipient(Synced(rows, recipients)[k], kept[k]) && KeepsProgress(Synced(rows, recipients)[k], rows)
    {
      SyncedRowKeepsProgress(rows, kept[k]);
    }
  }

  lemma EntriesAppend(env: Env, rows: seq<Row>, row: Row)
    ensures FormEntries(env, rows + [row]) == FormEntries(env, rows)
            + if IsPositive(env.parse(row.amount)) then [Entry(row.token.code, env.parse(row.amount).value)] else []
  {
    assert (rows + [row])[..|rows|] == rows;
  }

  /** The entries with an empty code booked under XLM. */
  function WithDefaultCode(entries: seq<Entry>): (r: seq<Entry>)
    ensures |r| == |entries|
  {
    seq(|entries|, i requires 0 <= i < |entries| => Entry(CodeOrXlm(entries[i].code), entries[i].amount))
  }

  /** One more recipient adds the same amount to both folds, or nothing to either. */
  lemma SyncedAppend(env: Env, rows: seq<Row>, recipients: seq<Builder.Recipient>)
    requires env.parse("") == NotFinite && recipients != []
    ensures var n := |recipients| - 1;
            var last := recipients[n];
            FormEntries(env, Synced(rows, recipients)) == FormEntries(env, Synced(rows, recipients[..n]))
            + if Counted(env, last) then [Entry(last.token.code, env.parse(last.amount).value)] else []
  {
    var n := |recipients| - 1;
    var last, before := recipients[n], Synced(rows, recipients[..n]);
    if last.address != "" && last.amount != "" {
      EntriesAppend(env, before, SyncedRow(rows, last));
      assert Synced(rows, recipients) == before + [SyncedRow(rows, last)];
    } else {
      assert Synced(rows, recipients) == before;
    }
  }

  /** The two folds, with their different filters, count the same amounts in the same order. */
  lemma {:induction false} SummaryCountsSyncedRows(env: Env, rows: seq<Row>, recipients: seq<Builder.Recipient>)
    requires env.parse("") == NotFinite
    ensures SummaryEntries(env, recipients) == WithDefaultCode(FormEntries(env, Synced(rows, recipients)))
    decreases |recipients|
  {
    if recipients != [] {
      SummaryCountsSyncedRows(env, rows, recipients[..|recipients| - 1]);
      SyncedAppend(env, rows, recipients);
    }
  }

  /**
   * The panel and the Send gate show the same totals exactly when no counted recipient has an
   * empty token code: the panel books such an amount as XLM, the form under the empty code.
   */
  lemma SummaryAgreesIffCodesNonEmpty(
      env: Env, rows: seq<Row>, recipients: seq<Builder.Recipient>,
      panel: map<string, real>, form: map<string, real>)
    requires env.parse("") == NotFinite
    requires TotalsOf(panel, SummaryEntries(env, recipients))
    requires TotalsOf(form, FormEntries(env, Synced(rows, recipients)))
    ensures panel == form <==>
      forall i :: 0 <= i < |recipients| && Counted(env, recipients[i]) ==> recipients[i].token.code != ""
  {
    var entries := FormEntries(env, Synced(rows, recipients));
    var summary := SummaryEntries(env, recipients);
    SummaryCountsSyncedRows(env, rows, recipients);
    EmptyCodeIsBooked(env, rows, recipients);
    assert !Booked(summary, "");
    assert "" !in panel;
    if !Booked(entries, "") {
      assert forall i :: 0 <= i < |entries| ==> summary[i] == entries[i];
      assert summary == entries;
      TotalsAreUnique(panel, form, entries);
    } else {
      assert "" in form;
    }
  }

  ghost predicate CountsEmptyCode(env: Env, recipients: seq<Builder.Recipient>) {
    exists i :: 0 <= i < |recipients| && Counted(env, recipients[i]) && recipients[i].token.code == ""
  }

  lemma {:induction false} EmptyCodeIsBooked(env: Env, rows: seq<Row>, recipients: seq<Builder.Recipient>)
    requires env.parse("") == NotFinite
    ensures Booked(FormEntries(env, Synced(rows, recipients)), "") <==> CountsEmptyCode(env, recipients)
    decreases |recipients|
  {
    if recipients != [] {
      var n := |recipients| - 1;
      var front, last := recipients[..n], recipients[n];
      EmptyCodeIsBooked(env, rows, front);
      SyncedAppend(env, rows, recipients);
      if Counted(env, last) {
        BookedAppend(FormEntries(env, Synced(rows, front)), Entry(last.token.code, env.parse(last.amount).value), "");
      } else {
        assert FormEntries(env, Synced(rows, recipients)) == FormEntries(env, Synced(rows, front));
      }
      CountsEmptyCodeStep(env, recipients);
    }
  }

  lemma CountsEmptyCodeStep(env: Env, recipients: seq<Builder.Recipient>)
    requires recipients != []
    ensures var n := |recipients| - 1;
            var last := recipients[n];
            CountsEmptyCode(env, recipients)
            <==> CountsEmptyCode(env, recipients[..n]) || (Counted(env, last) && last.token.code == "")
  {
    var n := |recipients| - 1;
    assert forall i :: 0 <= i < n ==> recipients[..n][i] == recipients[i];
  }

  lemma BookedAppend(entries: seq<Entry>, e: Entry, code: string)
    ensures Booked(entries + [e], code) <==> Booked(entries, code) || e.code == code
  {
    assert (entries + [e])[|entries|] == e;
    if Booked(entries, code) {
      var i :| 0 <= i < |entries| && entries[i].code == code;
      assert (entries + [e])[i].code == code;
    }
  }

  // ----- Panel and Send gate do differ -----

  /** Type address and amount of the first recipient, then drop a token without a code on it. */
  function DropEmptyToken(id: string, address: string, amount: string): seq<Builder.Action> {
    [Builder.Update(id, Builder.Patch(None, Some(address), None, None, None)),
     Builder.Update(id, Builder.Patch(None, None, Some(amount), None, None)),
     Builder.Update(id, Builder.Patch(None, None, None, None, Some(Builder.Token("", None))))]
  }

  function NewBuilder(id: string): Builder.History {
    Builder.History([], [Builder.Recipient(id, "", "", "", Builder.XLM)], [])
  }

  lemma AfterDrop(id: string, address: string, amount: string)
    ensures Builder.Run(NewBuilder(id), DropEmptyToken(id, address, amount)).present
            == [Builder.Recipient(id, address, amount, "", Builder.Token("", None))]
  {
    var actions := DropEmptyToken(id, address, amount);
    var s0 := NewBuilder(id);
    assert actions[..3] == actions && actions[..2][..1] == actions[..1] && actions[..1][..0] == [];
    assert Builder.Run(s0, actions[..1]) == Builder.Reduce(s0, actions[0]);
    assert Builder.Run(s0, actions[..2]) == Builder.Reduce(Builder.Reduce(s0, actions[0]), actions[1]);
  }

  lemma SingleTotal(totals: map<string, real>, e: Entry)
    requires TotalsOf(totals, [e])
    ensures totals == map[e.code := e.amount]
  {
    TotalsAppend(map[], [], e);
    assert [] + [e] == [e];
    TotalsAreUnique(totals, map[e.code := e.amount], [e]);
  }

  lemma OneCounted(env: Env, rows: seq<Row>, r: Builder.Recipient)
    requires Counted(env, r) && r.amount != ""
    ensures SummaryEntries(env, [r]) == [Entry(CodeOrXlm(r.token.code), env.parse(r.amount).value)]
    ensures FormEntries(env, Synced(rows, [r])) == [Entry(r.token.code, env.parse(r.amount).value)]
  {
    assert [r][..0] == [];
    assert Filter([r], IsFilledIn) == [r];
    EntriesAppend(env, [], SyncedRow(rows, r));
    assert Synced(rows, [r]) == [] + [SyncedRow(rows, r)];
  }

  /** After these updates the panel shows the amount as XLM and the form under the empty code. */
  lemma EmptyTokenSplitsTotals(
      env: Env, rows: seq<Row>, id: string, address: string, amount: string,
      panel: map<string, real>, form: map<string, real>)
    requires address != "" && amount != "" && IsPositive(env.parse(amount))
    requires var recipients := Builder.Run(NewBuilder(id), DropEmptyToken(id, address, amount)).present;
             && TotalsOf(panel, SummaryEntries(env, recipients))
             && TotalsOf(form, FormEntries(env, Synced(rows, recipients)))
    ensures Builder.AdmissibleRun(NewBuilder(id), DropEmptyToken(id, address, amount))
    ensures panel == map["XLM" := env.parse(amount).value]
    ensures form == map["" := env.parse(amount).value]
  {
    AfterDrop(id, address, amount);
    OneCounted(env, rows, Builder.Recipient(id, address, amount, "", Builder.Token("", None)));
    SingleTotal(panel, Entry("XLM", env.parse(amount).value));
    SingleTotal(form, Entry("", env.parse(amount).value));
  }
}
