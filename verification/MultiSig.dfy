/**
 * The multi-signature payment flow (frontend/components/MultiSigFlow.tsx) as a state machine.
 *
 * A handler that awaits is split at each await: a click starts it, and later actions resume it
 * with whatever the awaited call returned, so every other click can come in between. An action
 * whose button is not rendered or is disabled changes nothing.
 */
module MultiSig {
  import opened Options

  datatype Step = Build | Preview | Sign | Share | Collect | Submit | Success

  /** `sim.result`: which transaction was simulated and its prepared form, if any. */
  datatype Simulation = Simulation(transactionXdr: string, prepared: Option<string>)

  /** What `sim.simulate` did; without a wallet it leaves the previous result in place. */
  datatype SimulationOutcome = NotConnected | Failed | Finished(prepared: Option<string>)

  /** What the wallet was asked to sign. */
  datatype Payload = Unsigned | Prepared(simulatedXdr: string, xdr: string)

  /** Under which transaction the initiator's signing began; `build` numbers the built ones. */
  datatype Origin = Origin(build: nat, unsignedXDR: string, payload: Payload)

  datatype Signature = Signature(signedXDR: string, origin: Origin)

  /** A submission: the values `handleSubmit` captured when it was clicked. */
  datatype Call = Call(
    build: nat, unsignedXDR: string, signedXDRs: seq<string>, threshold: int, signature: Option<Signature>)

  /** The await a handler is suspended at. */
  datatype Pending =
    | Nothing
    | Building
    | Simulating(xdr: string)
    | Signing(origin: Origin)
    | Collecting(call: Call)
    | Submitting(call: Call)

  /**
   * The component's state. The last four fields record history: how many transactions were
   * built, where the initiator's signature came from, every network submission, and the builds
   * whose submission was reported successful.
   */
  datatype State = State(
    step: Step,
    threshold: int,
    unsignedXDR: Option<string>,
    initiatorSignedXDR: Option<string>,
    cosignerXDRs: seq<string>,
    simulation: Option<Simulation>,
    showPreview: bool,
    txHash: Option<string>,
    loading: bool,
    pending: Pending,
    builds: nat,
    signature: Option<Signature>,
    calls: seq<Call>,
    confirmed: seq<nat>)
  {
    function AllSigned(): seq<string> {
      (if Truthy(initiatorSignedXDR) then [initiatorSignedXDR.value] else []) + cosignerXDRs
    }

    predicate ThresholdMet() {
      |AllSigned()| >= threshold
    }
  }

  const INITIAL :=
    State(Build, 2, None, None, [], None, false, None, false, Nothing, 0, None, [], [])

  datatype Action =
    | SetThreshold(parsed: Option<int>)
    | ClickBuild(formValid: bool)
    | BuildReturns(xdr: Option<string>)
    | SimulationReturns(outcome: SimulationOutcome)
    | ProceedFromPreview
    | ClosePreview
    | ClickSign
    | SignReturns(signed: Option<string>)
    | StartOver
    | GoToCollect
    | AddCosigner(trimmed: string, parses: bool)
    | RemoveCosigner(index: nat)
    | GoToSubmit
    | BackToSignatures
    | ClickSubmit
    | CollectReturns(combined: Option<string>)
    | SubmitReturns(hash: Option<string>)

  /** A JavaScript string or null in a condition: null and "" are false. */
  predicate Truthy(s: Option<string>) {
    s.Some? && s.value != ""
  }

  /** `Math.max(2, parseInt(text) || 2)` */
  function AtLeastTwo(parsed: Option<int>): int {
    if parsed.Some? && parsed.value > 2 then parsed.value else 2
  }

  function WithoutIndex(xs: seq<string>, index: nat): seq<string> {
    if index < |xs| then xs[..index] + xs[index + 1..] else xs
  }

  /** The transaction handed to the wallet: the prepared one if the simulation has one. */
  function PayloadOf(s: State): Payload {
    if s.simulation.Some? && s.simulation.value.prepared.Some? then
      Prepared(s.simulation.value.transactionXdr, s.simulation.value.prepared.value)
    else Unsigned
  }

  function Idle(s: State): State {
    s.(loading := false, pending := Nothing)
  }

  /** `handleReset` clears the flow but not `loading`: a suspended handler stays suspended. */
  function Cleared(s: State): State {
    State(Build, 2, None, None, [], None, false, None,
          s.loading, s.pending, s.builds, None, s.calls, s.confirmed)
  }

  /** One action of the user, or one awaited call coming back. */
  function Next(s: State, a: Action): State {
    match a
    case SetThreshold(parsed) =>
      if s.step == Build then s.(threshold := AtLeastTwo(parsed)) else s
    case ClickBuild(formValid) =>
      if s.step == Build && !s.loading && formValid && s.threshold >= 2 then
        s.(loading := true, pending := Building)
      else s
    case BuildReturns(xdr) =>
      if s.pending != Building then s
      else if xdr.Some? then
        s.(unsignedXDR := xdr, builds := s.builds + 1, pending := Simulating(xdr.value))
      else Idle(s)
    case SimulationReturns(outcome) =>
      if !s.pending.Simulating? then s
      else
        Idle(s).(
          simulation := match outcome {
            case NotConnected => s.simulation
            case Failed => None
            case Finished(prepared) => Some(Simulation(s.pending.xdr, prepared))
          },
          showPreview := true,
          step := Preview)
    case ProceedFromPreview =>
      if s.step == Preview || s.showPreview then s.(showPreview := false, step := Sign) else s
    case ClosePreview =>
      if s.showPreview then s.(showPreview := false, simulation := None) else s
    case ClickSign =>
      if s.step == Sign && !s.loading && Truthy(s.unsignedXDR) then
        s.(loading := true, pending := Signing(Origin(s.builds, s.unsignedXDR.value, PayloadOf(s))))
      else s
    case SignReturns(signed) =>
      if !s.pending.Signing? then s
      else if Truthy(signed) then
        Idle(s).(
          initiatorSignedXDR := signed,
          signature := Some(Signature(signed.value, s.pending.origin)),
          step := Share)
      else Idle(s)
    case StartOver =>
      if s.step == Sign || (s.step == Success && Truthy(s.txHash)) then
        Cleared(s)
      else s
    case GoToCollect =>
      if s.step == Share then s.(step := Collect) else s
    case AddCosigner(trimmed, parses) =>
      if s.step == Collect && !s.ThresholdMet() && trimmed != "" && parses then
        s.(cosignerXDRs := s.cosignerXDRs + [trimmed])
      else s
    case RemoveCosigner(index) =>
      if s.step == Collect then s.(cosignerXDRs := WithoutIndex(s.cosignerXDRs, index)) else s
    case GoToSubmit =>
      if s.step == Collect && s.ThresholdMet() then s.(step := Submit) else s
    case BackToSignatures =>
      if s.step == Submit then s.(step := Collect) else s
    case ClickSubmit =>
      if s.step == Submit && !s.loading && s.ThresholdMet() && Truthy(s.unsignedXDR) then
        s.(loading := true,
           pending := Collecting(
             Call(s.builds, s.unsignedXDR.value, s.AllSigned(), s.threshold, s.signature)))
      else s
    case CollectReturns(combined) =>
      if !s.pending.Collecting? then s
      else if combined.Some? then
        s.(pending := Submitting(s.pending.call), calls := s.calls + [s.pending.call])
      else Idle(s)
    case SubmitReturns(hash) =>
      if !s.pending.Submitting? then s
      else if hash.Some? then
        Idle(s).(txHash := hash, step := Success, confirmed := s.confirmed + [s.pending.call.build])
      else Idle(s)
  }

  function Run(s: State, actions: seq<Action>): State
    decreases |actions|
  {
    if actions == [] then s else Next(Run(s, actions[..|actions| - 1]), actions[|actions| - 1])
  }

  // ----- The invariant -----

  /**
   * What is promised of every submission: a built transaction, exactly threshold (>= 2) signed
   * XDRs, the first being the initiator's, whose signing began under this very build, on the
   * transaction itself or on the prepared form of this very transaction.
   */
  ghost predicate GoodCall(c: Call) {
    && c.unsignedXDR != ""
    && 2 <= c.threshold == |c.signedXDRs|
    && c.signature.Some?
    && c.signedXDRs[0] == c.signature.value.signedXDR
    && GoodOrigin(c.signature.value.origin, c.build, c.unsignedXDR)
  }

  ghost predicate GoodOrigin(o: Origin, build: nat, unsignedXDR: string) {
    && o.build == build
    && o.unsignedXDR == unsignedXDR != ""
    && (o.payload.Prepared? ==> o.payload.simulatedXdr == unsignedXDR)
  }

  /** At each step: what has been filled in, and which await can be pending. */
  ghost predicate StepInv(s: State) {
    match s.step
    case Build =>
      && s.initiatorSignedXDR == None && s.cosignerXDRs == [] && s.simulation == None
      && (if s.pending.Simulating? then s.unsignedXDR == Some(s.pending.xdr) else s.unsignedXDR == None)
      && !s.pending.Collecting? && !s.pending.Submitting?
    case Preview =>
      && s.unsignedXDR.Some? && s.initiatorSignedXDR == None && s.cosignerXDRs == []
      && s.pending == Nothing
    case Sign =>
      && s.unsignedXDR.Some? && s.initiatorSignedXDR == None && s.cosignerXDRs == []
      && (s.pending != Nothing ==>
            s.pending.Signing? && GoodOrigin(s.pending.origin, s.builds, s.unsignedXDR.value))
    case Share => SignedInv(s) && s.pending == Nothing
    case Collect => SignedInv(s)
    case Submit => SignedInv(s) && s.ThresholdMet()
    case Success => SignedInv(s) && s.pending == Nothing
  }

  /** After signing: the signature belongs to the current transaction, if there still is one. */
  ghost predicate SignedInv(s: State) {
    && Truthy(s.initiatorSignedXDR) && s.signature.Some? && 1 + |s.cosignerXDRs| <= s.threshold
    && s.signature.value.signedXDR == s.initiatorSignedXDR.value
    && (s.unsignedXDR.Some? ==> GoodOrigin(s.signature.value.origin, s.builds, s.unsignedXDR.value))
    && (s.pending != Nothing ==>
          && (s.pending.Collecting? || s.pending.Submitting?)
          && GoodCall(s.pending.call) && s.pending.call.build == s.builds
          && s.unsignedXDR == Some(s.pending.call.unsignedXDR)
          && s.threshold == s.pending.call.threshold)
  }

  ghost predicate Inv(s: State) {
    && s.threshold >= 2
    && (s.loading <==> s.pending != Nothing)
    && (s.showPreview ==> s.step == Preview)
    && (s.txHash.Some? <==> s.step == Success)
    && (s.simulation.Some? ==> s.unsignedXDR == Some(s.simulation.value.transactionXdr))
    && StepInv(s)
    && (forall i :: 0 <= i < |s.calls| ==> GoodCall(s.calls[i]))
    && ConfirmedInv(s)
  }

  /** No build is confirmed twice; the current one can be confirmed only by leaving the flow. */
  ghost predicate ConfirmedInv(s: State) {
    && (forall i :: 0 <= i < |s.confirmed| ==> s.confirmed[i] <= s.builds)
    && (forall i, j :: 0 <= i < j < |s.confirmed| ==> s.confirmed[i] != s.confirmed[j])
    && (s.builds in s.confirmed ==> s.step == Success || s.unsignedXDR == None)
  }

  predicate BuildAction(a: Action) {
    a.SetThreshold? || a.ClickBuild? || a.BuildReturns? || a.SimulationReturns?
    || a.ProceedFromPreview? || a.ClosePreview?
  }

  predicate SignAction(a: Action) {
    a.ClickSign? || a.SignReturns? || a.StartOver?
  }

  predicate CollectAction(a: Action) {
    a.GoToCollect? || a.AddCosigner? || a.RemoveCosigner? || a.GoToSubmit? || a.BackToSignatures?
  }

  lemma BuildActionKeepsInv(s: State, a: Action)
    requires Inv(s) && BuildAction(a)
    ensures Inv(Next(s, a))
  {}

  lemma SignActionKeepsInv(s: State, a: Action)
    requires Inv(s) && SignAction(a)
    ensures Inv(Next(s, a))
  {}

  lemma CollectActionKeepsInv(s: State, a: Action)
    requires Inv(s) && CollectAction(a)
    ensures Inv(Next(s, a))
  {}

  lemma SubmitActionKeepsInv(s: State, a: Action)
    requires Inv(s) && !BuildAction(a) && !SignAction(a) && !CollectAction(a)
    ensures Inv(Next(s, a))
  {
    assert s.pending.Submitting? ==> s.builds !in s.confirmed;
  }

  /** Every action, in every state of the invariant, keeps it. */
  lemma NextKeepsInv(s: State, a: Action)
    requires Inv(s)
    ensures Inv(Next(s, a))
  {
    if BuildAction(a) {
      BuildActionKeepsInv(s, a);
    } else if SignAction(a) {
      SignActionKeepsInv(s, a);
    } else if CollectAction(a) {
      CollectActionKeepsInv(s, a);
    } else {
      SubmitActionKeepsInv(s, a);
    }
  }

  lemma {:induction false} RunKeepsInv(s: State, actions: seq<Action>)
    requires Inv(s)
    ensures Inv(Run(s, actions))
    decreases |actions|
  {
    if actions != [] {
      RunKeepsInv(s, actions[..|actions| - 1]);
      NextKeepsInv(Run(s, actions[..|actions| - 1]), actions[|actions| - 1]);
    }
  }

  // ----- Safety over every interleaving -----

  /** Each network submission of each run is good, with "Start over" and "Back" anywhere. */
  lemma EverySubmissionIsSigned(actions: seq<Action>, i: nat)
    requires i < |Run(INITIAL, actions).calls|
    ensures var c := Run(INITIAL, actions).calls[i];
            && c.unsignedXDR != ""
            && |c.signedXDRs| == c.threshold >= 2
            && c.signature.Some? && c.signedXDRs[0] == c.signature.value.signedXDR
            && c.signature.value.origin.build == c.build
            && c.signature.value.origin.unsignedXDR == c.unsignedXDR
            && (c.signature.value.origin.payload.Prepared? ==>
                  c.signature.value.origin.payload.simulatedXdr == c.unsignedXDR)
  {
    RunKeepsInv(INITIAL, actions);
  }

  /** In every reachable state the threshold is at least 2, and it is met at step Submit. */
  lemma ThresholdHolds(actions: seq<Action>)
    ensures var s := Run(INITIAL, actions);
            s.threshold >= 2 && (s.step == Submit ==> |s.AllSigned()| >= s.threshold)
  {
    RunKeepsInv(INITIAL, actions);
  }

  /** No built transaction is reported as submitted twice. */
  lemma ConfirmedOnce(actions: seq<Action>, i: nat, j: nat)
    requires i < j < |Run(INITIAL, actions).confirmed|
    ensures Run(INITIAL, actions).confirmed[i] != Run(INITIAL, actions).confirmed[j]
  {
    RunKeepsInv(INITIAL, actions);
  }

  // ----- Which transaction the wallet is handed -----

  /** The action replaces or drops the simulation result. */
  ghost predicate Discards(s: State, a: Action) {
    || (a.SimulationReturns? && s.pending.Simulating? && !a.outcome.NotConnected?)
    || (a.ClosePreview? && s.showPreview)
    || (a.StartOver? && (s.step == Sign || (s.step == Success && s.txHash.Some? && s.txHash.value != "")))
  }

  /** Action k ended the simulation of x with prepared form p, and nothing discarded that since. */
  ghost predicate PreparedAt(actions: seq<Action>, k: nat, x: string, p: string) {
    && k < |actions| && actions[k] == SimulationReturns(Finished(Some(p)))
    && Run(INITIAL, actions[..k]).pending == Simulating(x)
    && forall j :: k < j < |actions| ==> !Discards(Run(INITIAL, actions[..j]), actions[j])
  }

  ghost predicate LastPrepared(actions: seq<Action>, x: string, p: string) {
    exists k: nat :: PreparedAt(actions, k, x, p)
  }

  predicate HoldsPrepared(s: State, x: string, p: string) {
    s.simulation == Some(Simulation(x, Some(p)))
  }

  /** What one action does to the simulation result. */
  lemma SimulationStep(s: State, a: Action, x: string, p: string)
    requires Inv(s)
    ensures HoldsPrepared(Next(s, a), x, p) <==>
              || (a == SimulationReturns(Finished(Some(p))) && s.pending == Simulating(x))
              || (HoldsPrepared(s, x, p) && !Discards(s, a))
    ensures HoldsPrepared(Next(s, a), x, p) ==> Next(s, a).builds == s.builds
  {
    if BuildAction(a) {
    } else if SignAction(a) {
    } else if CollectAction(a) {
    } else {
    }
  }

  /** The last action either ends the simulation itself, or leaves or discards an earlier result. */
  lemma PreparedShift(actions: seq<Action>, a: Action, k: nat, x: string, p: string)
    requires k <= |actions|
    ensures PreparedAt(actions + [a], k, x, p) <==>
              if k < |actions| then PreparedAt(actions, k, x, p) && !Discards(Run(INITIAL, actions), a)
              else a == SimulationReturns(Finished(Some(p))) && Run(INITIAL, actions).pending == Simulating(x)
  {
    var n, all := |actions|, actions + [a];
    assert all[..n] == actions;
    assert forall j :: 0 <= j < n ==> all[..j] == actions[..j] && all[j] == actions[j];
    assert PreparedAt(all, k, x, p) && k < n ==> !Discards(Run(INITIAL, all[..n]), all[n]);
  }

  lemma PreparedStep(actions: seq<Action>, a: Action, x: string, p: string)
    ensures LastPrepared(actions + [a], x, p) <==>
              || (a == SimulationReturns(Finished(Some(p))) && Run(INITIAL, actions).pending == Simulating(x))
              || (LastPrepared(actions, x, p) && !Discards(Run(INITIAL, actions), a))
  {
    if LastPrepared(actions + [a], x, p) {
      var k: nat :| PreparedAt(actions + [a], k, x, p);
      PreparedShift(actions, a, k, x, p);
    }
    PreparedShift(actions, a, |actions|, x, p);
    if LastPrepared(actions, x, p) {
      var k: nat :| PreparedAt(actions, k, x, p);
      PreparedShift(actions, a, k, x, p);
    }
  }

  /** On every run: the held simulation result is the last prepared form that was not discarded. */
  lemma {:induction false} HeldIffLastPrepared(actions: seq<Action>, x: string, p: string)
    ensures HoldsPrepared(Run(INITIAL, actions), x, p) <==> LastPrepared(actions, x, p)
    decreases |actions|
  {
    if actions != [] {
      var n := |actions| - 1;
      var front, a := actions[..n], actions[n];
      var s := Run(INITIAL, front);
      assert actions == front + [a];
      RunKeepsInv(INITIAL, front);
      HeldIffLastPrepared(front, x, p);
      SimulationStep(s, a, x, p);
      PreparedStep(front, a, x, p);
    }
  }

  ghost function BuildsAfter(actions: seq<Action>): nat {
    Run(INITIAL, actions).builds
  }

  /** A prepared form that was not discarded belongs to the current build and its transaction. */
  lemma {:induction false} PreparedUnderThisBuild(actions: seq<Action>, k: nat, x: string, p: string)
    requires PreparedAt(actions, k, x, p)
    ensures BuildsAfter(actions[..k]) == BuildsAfter(actions)
    ensures Run(INITIAL, actions).unsignedXDR == Some(x)
    decreases |actions|
  {
    var front, a := actions[..|actions| - 1], actions[|actions| - 1];
    assert actions == front + [a];
    PreparedIsHeld(actions, k, x, p);
    BuildStays(front, a, x, p);
    if k < |front| {
      PreparedShift(front, a, k, x, p);
      PreparedUnderThisBuild(front, k, x, p);
      assert front[..k] == actions[..k];
    } else {
      assert front == actions[..k];
    }
  }

  lemma PreparedIsHeld(actions: seq<Action>, k: nat, x: string, p: string)
    requires PreparedAt(actions, k, x, p)
    ensures HoldsPrepared(Run(INITIAL, actions), x, p)
  {
    HeldIffLastPrepared(actions, x, p);
  }

  lemma BuildStays(front: seq<Action>, a: Action, x: string, p: string)
    requires HoldsPrepared(Run(INITIAL, front + [a]), x, p)
    ensures BuildsAfter(front + [a]) == BuildsAfter(front)
    ensures Run(INITIAL, front + [a]).unsignedXDR == Some(x)
  {
    assert (front + [a])[..|front|] == front;
    RunKeepsInv(INITIAL, front);
    SimulationStep(Run(INITIAL, front), a, x, p);
    RunKeepsInv(INITIAL, front + [a]);
  }

  /**
   * The signing with this origin was begun after these actions: at the sign step, on the current
   * transaction, with the last prepared form of it that was not discarded, or without one.
   */
  ghost predicate BegunAfter(actions: seq<Action>, o: Origin) {
    var s := Run(INITIAL, actions);
    && s.step == Sign && s.pending == Nothing
    && o.build == s.builds && s.unsignedXDR == Some(o.unsignedXDR) && o.unsignedXDR != ""
    && (forall x, p :: o.payload == Prepared(x, p) <==> LastPrepared(actions, x, p))
  }

  lemma SignClick(s: State, a: Action)
    requires s.pending == Nothing && Next(s, a).pending.Signing?
    ensures a.ClickSign? && s.step == Sign && Truthy(s.unsignedXDR)
    ensures var o := Next(s, a).pending.origin;
            && o.build == s.builds && s.unsignedXDR == Some(o.unsignedXDR)
            && (forall x, p :: o.payload == Prepared(x, p) <==> HoldsPrepared(s, x, p))
  {}

  /** A click on the sign button begins such a signing; nothing else begins one. */
  lemma SigningBegins(actions: seq<Action>, a: Action)
    requires Run(INITIAL, actions).pending == Nothing
    requires Next(Run(INITIAL, actions), a).pending.Signing?
    ensures a.ClickSign? && BegunAfter(actions, Next(Run(INITIAL, actions), a).pending.origin)
  {
    SignClick(Run(INITIAL, actions), a);
    forall x, p
      ensures HoldsPrepared(Run(INITIAL, actions), x, p) <==> LastPrepared(actions, x, p)
    {
      HeldIffLastPrepared(actions, x, p);
    }
  }

  ghost predicate HasBegun(actions: seq<Action>, o: Origin) {
    exists j :: 0 <= j < |actions| && actions[j] == ClickSign && BegunAfter(actions[..j], o)
  }

  /** All origins the state mentions are those of signings begun during the run. */
  ghost predicate OriginsBegun(actions: seq<Action>, s: State) {
    && (s.pending.Signing? ==> HasBegun(actions, s.pending.origin))
    && (s.signature.Some? ==> HasBegun(actions, s.signature.value.origin))
    && (HasCall(s.pending) ==> CallBegun(actions, s.pending.call))
    && (forall i :: 0 <= i < |s.calls| ==> CallBegun(actions, s.calls[i]))
  }

  ghost predicate CallBegun(actions: seq<Action>, c: Call) {
    c.signature.Some? ==> HasBegun(actions, c.signature.value.origin)
  }

  lemma BegunStays(actions: seq<Action>, a: Action, o: Origin)
    requires HasBegun(actions, o)
    ensures HasBegun(actions + [a], o)
  {
    var j :| 0 <= j < |actions| && actions[j] == ClickSign && BegunAfter(actions[..j], o);
    assert (actions + [a])[..j] == actions[..j] && (actions + [a])[j] == actions[j];
  }

  lemma AllBegunStay(actions: seq<Action>, a: Action)
    ensures forall o :: HasBegun(actions, o) ==> HasBegun(actions + [a], o)
  {
    forall o | HasBegun(actions, o)
      ensures HasBegun(actions + [a], o)
    {
      BegunStays(actions, a, o);
    }
  }

  /** Where the next state's signing and signature come from. */
  ghost predicate SigningFrom(s: State, a: Action, s': State) {
    && (s'.pending.Signing? ==> s'.pending == s.pending || (a.ClickSign? && s.pending == Nothing))
    && (s'.signature.Some? ==>
          s'.signature == s.signature || (s.pending.Signing? && s'.signature.value.origin == s.pending.origin))
  }

  predicate HasCall(pending: Pending) {
    pending.Collecting? || pending.Submitting?
  }

  /** Where the next state's submissions come from. */
  ghost predicate CallsFrom(s: State, s': State) {
    && (HasCall(s'.pending) ==>
          if HasCall(s.pending) then s'.pending.call == s.pending.call
          else
            && s'.pending.call.signature == s.signature && Truthy(s.initiatorSignedXDR)
            && s'.pending.call.signedXDRs == [s.initiatorSignedXDR.value] + s.cosignerXDRs)
    && (s'.calls == s.calls || (HasCall(s.pending) && s'.calls == s.calls + [s.pending.call]))
  }

  lemma NextSigning(s: State, a: Action)
    requires Inv(s)
    ensures SigningFrom(s, a, Next(s, a))
  {}

  lemma NextCalls(s: State, a: Action)
    requires Inv(s)
    ensures CallsFrom(s, Next(s, a))
  {}

  lemma OriginsStep(actions: seq<Action>, all: seq<Action>, s: State, a: Action, s': State)
    requires OriginsBegun(actions, s) && SigningFrom(s, a, s') && CallsFrom(s, s')
    requires forall o :: HasBegun(actions, o) ==> HasBegun(all, o)
    requires s.pending == Nothing && s'.pending.Signing? ==> HasBegun(all, s'.pending.origin)
    ensures OriginsBegun(all, s')
  {}

  lemma {:induction false} OriginsWereBegun(actions: seq<Action>)
    ensures OriginsBegun(actions, Run(INITIAL, actions))
    decreases |actions|
  {
    if actions != [] {
      var n := |actions| - 1;
      var front, a := actions[..n], actions[n];
      var s := Run(INITIAL, front);
      assert actions == front + [a];
      OriginsWereBegun(front);
      AllBegunStay(front, a);
      RunKeepsInv(INITIAL, front);
      if s.pending == Nothing && Next(s, a).pending.Signing? {
        SigningBegins(front, a);
        assert actions[n] == ClickSign && BegunAfter(actions[..n], Next(s, a).pending.origin);
      }
      NextSigning(s, a);
      NextCalls(s, a);
      OriginsStep(front, actions, s, a, Next(s, a));
    }
  }

  /**
   * Every submission's first signature goes back to a click on the sign button at which the wallet
   * was handed the last prepared form of this very transaction that was not discarded, or the
   * transaction itself when there was none.
   */
  lemma SubmissionsUseLastPrepared(actions: seq<Action>, i: nat) returns (j: nat)
    requires i < |Run(INITIAL, actions).calls|
    ensures var c := Run(INITIAL, actions).calls[i];
            && j < |actions| && actions[j] == ClickSign && c.signature.Some?
            && Run(INITIAL, actions[..j]).builds == c.build
            && (forall x, p :: c.signature.value.origin.payload == Prepared(x, p) <==> LastPrepared(actions[..j], x, p))
  {
    RunKeepsInv(INITIAL, actions);
    OriginsWereBegun(actions);
    var c := Run(INITIAL, actions).calls[i];
    assert GoodCall(c) && CallBegun(actions, c);
    var o := c.signature.value.origin;
    j :| 0 <= j < |actions| && actions[j] == ClickSign && BegunAfter(actions[..j], o);
  }

  /** Build x, let its simulation prepare p, and sign: the wallet is handed p. */
  lemma PreparedFormIsSigned(x: string, p: string)
    requires x != ""
    ensures var actions := [ClickBuild(true), BuildReturns(Some(x)), SimulationReturns(Finished(Some(p)))];
            Run(Run(INITIAL, actions), [ProceedFromPreview, ClickSign]).pending
            == Signing(Origin(1, x, Prepared(x, p)))
  {
    RunOfThree(INITIAL, ClickBuild(true), BuildReturns(Some(x)), SimulationReturns(Finished(Some(p))));
    var s := Run(INITIAL, [ClickBuild(true), BuildReturns(Some(x)), SimulationReturns(Finished(Some(p)))]);
    RunOfTwo(s, ProceedFromPreview, ClickSign);
  }

  // ----- Which signed XDRs are submitted -----

  predicate WasPasted(actions: seq<Action>, xdr: string) {
    xdr != "" && AddCosigner(xdr, true) in actions
  }

  /** The first one came back from the wallet, every other one was pasted and parsed. */
  predicate Genuine(actions: seq<Action>, xdrs: seq<string>) {
    && xdrs != [] && xdrs[0] != "" && SignReturns(Some(xdrs[0])) in actions
    && forall i :: 1 <= i < |xdrs| ==> WasPasted(actions, xdrs[i])
  }

  ghost predicate AllGenuine(actions: seq<Action>, s: State) {
    && (Truthy(s.initiatorSignedXDR) ==> SignReturns(s.initiatorSignedXDR) in actions)
    && (forall i :: 0 <= i < |s.cosignerXDRs| ==> WasPasted(actions, s.cosignerXDRs[i]))
    && (HasCall(s.pending) ==> Genuine(actions, s.pending.call.signedXDRs))
    && (forall i :: 0 <= i < |s.calls| ==> Genuine(actions, s.calls[i].signedXDRs))
  }

  /** Where the next state's signed XDRs come from. */
  ghost predicate XdrsFrom(s: State, a: Action, s': State) {
    && (Truthy(s'.initiatorSignedXDR) ==>
          s'.initiatorSignedXDR == s.initiatorSignedXDR || a == SignReturns(s'.initiatorSignedXDR))
    && (forall x :: x in s'.cosignerXDRs ==> x in s.cosignerXDRs || (a == AddCosigner(x, true) && x != ""))
  }

  lemma NextXdrs(s: State, a: Action)
    ensures XdrsFrom(s, a, Next(s, a))
  {}

  lemma GenuineStep(actions: seq<Action>, s: State, a: Action, s': State)
    requires AllGenuine(actions, s) && XdrsFrom(s, a, s') && CallsFrom(s, s')
    ensures AllGenuine(actions + [a], s')
  {
    assert forall x :: WasPasted(actions, x) ==> WasPasted(actions + [a], x);
    assert forall i :: 0 <= i < |s'.cosignerXDRs| ==> s'.cosignerXDRs[i] in s'.cosignerXDRs;
  }

  lemma {:induction false} XdrsAreGenuine(actions: seq<Action>)
    ensures AllGenuine(actions, Run(INITIAL, actions))
    decreases |actions|
  {
    if actions != [] {
      var front, a := actions[..|actions| - 1], actions[|actions| - 1];
      var s := Run(INITIAL, front);
      assert actions == front + [a];
      XdrsAreGenuine(front);
      RunKeepsInv(INITIAL, front);
      NextXdrs(s, a);
      NextCalls(s, a);
      GenuineStep(front, s, a, Next(s, a));
    }
  }

  /**
   * On every run each submission carries exactly as many XDRs as the threshold asks for: one that
   * the wallet returned, and beside it only non-empty ones that were pasted and parsed.
   */
  lemma SubmissionsAreGenuine(actions: seq<Action>, i: nat)
    requires i < |Run(INITIAL, actions).calls|
    ensures var c := Run(INITIAL, actions).calls[i];
            && |c.signedXDRs| == c.threshold >= 2
            && c.signedXDRs[0] != "" && SignReturns(Some(c.signedXDRs[0])) in actions
            && (forall k :: 1 <= k < |c.signedXDRs| ==>
                  c.signedXDRs[k] != "" && AddCosigner(c.signedXDRs[k], true) in actions)
  {
    RunKeepsInv(INITIAL, actions);
    XdrsAreGenuine(actions);
    assert GoodCall(Run(INITIAL, actions).calls[i]) && Genuine(actions, Run(INITIAL, actions).calls[i].signedXDRs);
  }

  // ----- What the buttons do -----

  /** A finished simulation is stored with its transaction, a failed one drops what was stored. */
  lemma SimulationIsStored(s: State, outcome: SimulationOutcome)
    requires s.pending.Simulating?
    ensures var s' := Next(s, SimulationReturns(outcome));
            && s'.step == Preview && s'.showPreview && !s'.loading && s'.pending == Nothing
            && (outcome.NotConnected? ==> s'.simulation == s.simulation)
            && (outcome.Failed? ==> s'.simulation == None)
            && (outcome.Finished? ==> s'.simulation == Some(Simulation(s.pending.xdr, outcome.prepared)))
  {}

  /** The threshold is the parsed number, or 2 for a smaller or unreadable one. */
  lemma ThresholdIsParsed(s: State, parsed: Option<int>)
    requires s.step == Build
    ensures Next(s, SetThreshold(parsed)).threshold
            == if parsed == None then 2 else if parsed.value < 2 then 2 else parsed.value
  {}

  /** Which click starts which await, from a state in which none is pending. */
  lemma WhatStarts(s: State, a: Action)
    requires Inv(s) && s.pending == Nothing
    ensures var p := Next(s, a).pending;
            && (p == Building <==> s.step == Build && a == ClickBuild(true))
            && (p.Signing? <==> s.step == Sign && a == ClickSign && Truthy(s.unsignedXDR))
            && (p.Collecting? <==> s.step == Submit && a == ClickSubmit && Truthy(s.unsignedXDR))
            && !p.Simulating? && !p.Submitting?
  {}

  /** A pasted XDR is appended exactly while signatures are missing; otherwise submitting opens. */
  lemma CollectUntilThreshold(s: State, trimmed: string, parses: bool)
    requires Inv(s) && s.step == Collect
    ensures var missing := 1 + |s.cosignerXDRs| < s.threshold;
            && Next(s, AddCosigner(trimmed, parses))
               == (if missing && trimmed != "" && parses then s.(cosignerXDRs := s.cosignerXDRs + [trimmed]) else s)
            && (Next(s, GoToSubmit).step == Submit <==> !missing)
  {}

  /** Removing takes out the one XDR at the index and keeps the order of the others. */
  lemma RemoveTakesOne(s: State, index: nat)
    requires s.step == Collect
    ensures var before, after := s.cosignerXDRs, Next(s, RemoveCosigner(index)).cosignerXDRs;
            && |after| == |before| - (if index < |before| then 1 else 0)
            && (forall k :: 0 <= k < |after| ==> after[k] == before[if k < index then k else k + 1])
  {}

  /**
   * Starting over, from the sign step or after a reported success, gives a new flow, except that a
   * suspended handler stays suspended and what was submitted stays submitted.
   */
  lemma RestartIsFresh(s: State)
    requires s.step == Sign || (s.step == Success && Truthy(s.txHash))
    ensures var s' := Next(s, StartOver);
            && s'.step == Build && s'.threshold == 2
            && s' == INITIAL.(
                 loading := s.loading, pending := s.pending,
                 builds := s.builds, calls := s.calls, confirmed := s.confirmed)
  {}

  /** Removing the XDR just pasted restores the state, and so does going back and forth. */
  lemma RemoveUndoesPaste(s: State, trimmed: string)
    requires Inv(s) && s.step == Collect && 1 + |s.cosignerXDRs| < s.threshold && trimmed != ""
    ensures Next(Next(s, AddCosigner(trimmed, true)), RemoveCosigner(|s.cosignerXDRs|)) == s
  {
    var pasted := s.cosignerXDRs + [trimmed];
    assert pasted[..|s.cosignerXDRs|] + pasted[|s.cosignerXDRs| + 1..] == s.cosignerXDRs;
  }

  lemma BackAndForth(s: State)
    requires Inv(s) && s.step == Submit
    ensures Next(s, BackToSignatures).step == Collect
    ensures Next(Next(s, BackToSignatures), GoToSubmit) == s
  {}

  lemma SuccessIsReported(s: State, a: Action)
    requires Inv(s) && s.step != Success && Next(s, a).step == Success
    ensures s.pending.Submitting? && a == SubmitReturns(Next(s, a).txHash)
    ensures Next(s, a).confirmed == s.confirmed + [s.pending.call.build]
  {}

  /** A hash is shown exactly after a reported success, and it is the reported one. */
  lemma HashIsReported(actions: seq<Action>, a: Action)
    ensures var s, s' := Run(INITIAL, actions), Next(Run(INITIAL, actions), a);
            && (s'.txHash.Some? <==> s'.step == Success)
            && (s.step != Success && s'.step == Success ==>
                  s.pending.Submitting? && a == SubmitReturns(s'.txHash) && s'.confirmed == s.confirmed + [s.pending.call.build])
  {
    var s := Run(INITIAL, actions);
    RunKeepsInv(INITIAL, actions);
    NextKeepsInv(s, a);
    if s.step != Success && Next(s, a).step == Success {
      SuccessIsReported(s, a);
    }
  }

  // ----- When the flow can still be completed -----

  /** Past signing, but the transaction is gone. */
  predicate DeadEnd(s: State) {
    s.step in {Share, Collect, Submit} && s.unsignedXDR == None
  }

  /** No action leaves a dead end, and nothing is submitted from it. */
  lemma {:induction false} DeadEndIsForever(s: State, actions: seq<Action>)
    requires Inv(s) && DeadEnd(s)
    ensures DeadEnd(Run(s, actions)) && Run(s, actions).calls == s.calls
    decreases |actions|
  {
    if actions != [] {
      var n := |actions| - 1;
      DeadEndIsForever(s, actions[..n]);
      RunKeepsInv(s, actions[..n]);
      DeadEndStays(Run(s, actions[..n]), actions[n]);
    }
  }

  lemma DeadEndStays(s: State, a: Action)
    requires Inv(s) && DeadEnd(s)
    ensures DeadEnd(Next(s, a)) && Next(s, a).calls == s.calls
  {
    assert s.pending == Nothing;
  }

  /**
   * A signature that comes back after "Start over" - which leaves the signing pending - leads
   * into a dead end, and no other action ever does.
   */
  lemma DeadEndIffLateSignature(s: State, a: Action)
    requires Inv(s) && !DeadEnd(s)
    ensures DeadEnd(Next(s, a)) <==>
              a.SignReturns? && Truthy(a.signed) && s.pending.Signing? && s.step == Build
  {
    if SignAction(a) {
    } else if BuildAction(a) {
    } else if CollectAction(a) {
    } else {
    }
  }

  lemma RunOfTwo(s: State, a: Action, b: Action)
    ensures Run(s, [a, b]) == Next(Next(s, a), b)
  {
    assert [a, b][..1] == [a] && [a][..0] == [];
    assert Run(s, [a]) == Next(Run(s, []), a);
  }

  lemma RunOfThree(s: State, a: Action, b: Action, c: Action)
    ensures Run(s, [a, b, c]) == Next(Next(Next(s, a), b), c)
  {
    assert [a, b, c][..2] == [a, b] && [a, b][..1] == [a] && [a][..0] == [];
    assert Run(s, [a, b]) == Next(Run(s, [a]), b);
    assert Run(s, [a]) == Next(Run(s, []), a);
  }

  lemma RunConcat(s: State, first: seq<Action>, rest: seq<Action>)
    ensures Run(s, first + rest) == Run(Run(s, first), rest)
    decreases |rest|
  {
    if rest == [] {
      assert first + rest == first;
    } else {
      assert (first + rest)[..|first + rest| - 1] == first + rest[..|rest| - 1];
      RunConcat(s, first, rest[..|rest| - 1]);
    }
  }

  /** Build a transaction whose simulation fails, and go past the preview. */
  function BuildAndReview(xdr: string): seq<Action> {
    [ClickBuild(true), BuildReturns(Some(xdr)), SimulationReturns(Failed)] + [ProceedFromPreview]
  }

  /** Sign, start over while the wallet is open, and then let the wallet answer. */
  function SignAndStartOver(signed: string): seq<Action> {
    [ClickSign, StartOver, SignReturns(Some(signed))]
  }

  function ReadyToSign(xdr: string): State {
    State(Sign, 2, Some(xdr), None, [], None, false, None, false, Nothing, 1, None, [], [])
  }

  lemma ReviewedIsReady(xdr: string)
    ensures Run(INITIAL, BuildAndReview(xdr)) == ReadyToSign(xdr)
  {
    var actions := [ClickBuild(true), BuildReturns(Some(xdr)), SimulationReturns(Failed)];
    RunConcat(INITIAL, actions, [ProceedFromPreview]);
    RunOfThree(INITIAL, actions[0], actions[1], actions[2]);
    var s := Run(INITIAL, actions);
    assert [ProceedFromPreview][..0] == [];
    assert Run(s, [ProceedFromPreview]) == Next(Run(s, []), ProceedFromPreview);
  }

  lemma LateSignatureAfterReview(xdr: string, signed: string)
    requires xdr != "" && signed != ""
    ensures DeadEnd(Run(ReadyToSign(xdr), SignAndStartOver(signed)))
  {
    RunOfThree(ReadyToSign(xdr), ClickSign, StartOver, SignReturns(Some(signed)));
  }

  /** So dead ends are reached: whatever is built and signed, starting over in between gets stuck. */
  lemma DeadEndIsReachable(xdr: string, signed: string)
    requires xdr != "" && signed != ""
    ensures var s := Run(INITIAL, BuildAndReview(xdr) + SignAndStartOver(signed)); DeadEnd(s) && !CanSucceed(s)
  {
    ReviewedIsReady(xdr);
    LateSignatureAfterReview(xdr, signed);
    RunConcat(INITIAL, BuildAndReview(xdr), SignAndStartOver(signed));
    CompletableIffNotDeadEnd(BuildAndReview(xdr) + SignAndStartOver(signed));
  }

  ghost predicate CanSucceed(s: State) {
    exists actions :: Run(s, actions).step == Success
  }

  lemma {:induction false} RunFromNext(s: State, a: Action, actions: seq<Action>)
    ensures Run(s, [a] + actions) == Run(Next(s, a), actions)
    decreases |actions|
  {
    var all := [a] + actions;
    if actions == [] {
      assert all[..|all| - 1] == [];
    } else {
      assert all[..|all| - 1] == [a] + actions[..|actions| - 1];
      RunFromNext(s, a, actions[..|actions| - 1]);
    }
  }

  lemma SucceedAfter(s: State, a: Action)
    requires CanSucceed(Next(s, a))
    ensures CanSucceed(s)
  {
    var actions :| Run(Next(s, a), actions).step == Success;
    RunFromNext(s, a, actions);
    assert Run(s, [a] + actions).step == Success;
  }

  lemma SucceedNow(s: State)
    requires s.step == Success
    ensures CanSucceed(s)
  {
    assert Run(s, []).step == Success;
  }

  lemma FromPendingSubmission(s: State)
    requires Inv(s) && s.pending.Submitting?
    ensures CanSucceed(s)
  {
    SucceedNow(Next(s, SubmitReturns(Some("hash"))));
    SucceedAfter(s, SubmitReturns(Some("hash")));
  }

  lemma FromSubmit(s: State)
    requires Inv(s) && s.step == Submit && s.unsignedXDR.Some?
    ensures CanSucceed(s)
  {
    if s.pending.Submitting? {
      FromPendingSubmission(s);
    } else {
      var clicked := if s.pending.Collecting? then s else Next(s, ClickSubmit);
      NextKeepsInv(s, ClickSubmit);
      NextKeepsInv(clicked, CollectReturns(Some("combined")));
      FromPendingSubmission(Next(clicked, CollectReturns(Some("combined"))));
      SucceedAfter(clicked, CollectReturns(Some("combined")));
      if s.pending == Nothing {
        SucceedAfter(s, ClickSubmit);
      }
    }
  }

  lemma FromCollect(s: State)
    requires Inv(s) && s.step == Collect && s.unsignedXDR.Some?
    ensures CanSucceed(s)
    decreases s.threshold - |s.AllSigned()|
  {
    if s.ThresholdMet() {
      NextKeepsInv(s, GoToSubmit);
      FromSubmit(Next(s, GoToSubmit));
      SucceedAfter(s, GoToSubmit);
    } else {
      var add := AddCosigner("signed", true);
      NextKeepsInv(s, add);
      assert |Next(s, add).AllSigned()| == |s.AllSigned()| + 1;
      FromCollect(Next(s, add));
      SucceedAfter(s, add);
    }
  }

  lemma FromShare(s: State)
    requires Inv(s) && s.step == Share && s.unsignedXDR.Some?
    ensures CanSucceed(s)
  {
    NextKeepsInv(s, GoToCollect);
    FromCollect(Next(s, GoToCollect));
    SucceedAfter(s, GoToCollect);
  }

  lemma FromSign(s: State)
    requires Inv(s) && s.step == Sign && Truthy(s.unsignedXDR)
    ensures CanSucceed(s)
  {
    var signed := SignReturns(Some("signed"));
    if s.pending.Signing? {
      NextKeepsInv(s, signed);
      FromShare(Next(s, signed));
      SucceedAfter(s, signed);
    } else {
      var clicked := Next(s, ClickSign);
      NextKeepsInv(s, ClickSign);
      NextKeepsInv(clicked, signed);
      FromShare(Next(clicked, signed));
      SucceedAfter(clicked, signed);
      SucceedAfter(s, ClickSign);
    }
  }

  lemma FromPreview(s: State)
    requires Inv(s) && s.step == Preview && Truthy(s.unsignedXDR)
    ensures CanSucceed(s)
  {
    NextKeepsInv(s, ProceedFromPreview);
    FromSign(Next(s, ProceedFromPreview));
    SucceedAfter(s, ProceedFromPreview);
  }

  lemma FromIdleBuild(s: State)
    requires Inv(s) && s.step == Build && s.pending == Nothing
    ensures CanSucceed(s)
  {
    var s1 := Next(s, ClickBuild(true));
    NextKeepsInv(s, ClickBuild(true));
    var s2 := Next(s1, BuildReturns(Some("xdr")));
    NextKeepsInv(s1, BuildReturns(Some("xdr")));
    NextKeepsInv(s2, SimulationReturns(Failed));
    FromPreview(Next(s2, SimulationReturns(Failed)));
    SucceedAfter(s2, SimulationReturns(Failed));
    SucceedAfter(s1, BuildReturns(Some("xdr")));
    SucceedAfter(s, ClickBuild(true));
  }

  /** With an empty transaction the only way on is to start over. */
  lemma FromEmptyTransaction(s: State)
    requires Inv(s) && s.step in {Preview, Sign} && !Truthy(s.unsignedXDR)
    ensures CanSucceed(s)
  {
    var atSign := if s.step == Sign then s else Next(s, ProceedFromPreview);
    NextKeepsInv(s, ProceedFromPreview);
    var restarted := Next(atSign, StartOver);
    NextKeepsInv(atSign, StartOver);
    if restarted.pending != Nothing {
      NextKeepsInv(restarted, SignReturns(None));
      FromIdleBuild(Next(restarted, SignReturns(None)));
      SucceedAfter(restarted, SignReturns(None));
    } else {
      FromIdleBuild(restarted);
    }
    SucceedAfter(atSign, StartOver);
    if s.step == Preview {
      SucceedAfter(s, ProceedFromPreview);
    }
  }

  lemma FromBuild(s: State)
    requires Inv(s) && s.step == Build
    ensures CanSucceed(s)
  {
    match s.pending
    case Nothing => FromIdleBuild(s);
    case Building =>
      NextKeepsInv(s, BuildReturns(None));
      FromIdleBuild(Next(s, BuildReturns(None)));
      SucceedAfter(s, BuildReturns(None));
    case Simulating(_) =>
      var previewed := Next(s, SimulationReturns(Failed));
      NextKeepsInv(s, SimulationReturns(Failed));
      if Truthy(s.unsignedXDR) {
        FromPreview(previewed);
      } else {
        FromEmptyTransaction(previewed);
      }
      SucceedAfter(s, SimulationReturns(Failed));
    case Signing(_) =>
      NextKeepsInv(s, SignReturns(None));
      FromIdleBuild(Next(s, SignReturns(None)));
      SucceedAfter(s, SignReturns(None));
    case _ =>
  }

  /**
   * From a reachable state the flow can still end in a reported success - for some behaviour of
   * wallet, network and user - exactly when it is not in a dead end.
   */
  lemma CompletableIffNotDeadEnd(actions: seq<Action>)
    ensures var s := Run(INITIAL, actions); CanSucceed(s) <==> !DeadEnd(s)
  {
    var s := Run(INITIAL, actions);
    RunKeepsInv(INITIAL, actions);
    if DeadEnd(s) {
      forall more
        ensures Run(s, more).step != Success
      {
        DeadEndIsForever(s, more);
      }
    } else {
      match s.step
      case Build => FromBuild(s);
      case Preview => if Truthy(s.unsignedXDR) { FromPreview(s); } else { FromEmptyTransaction(s); }
      case Sign => if Truthy(s.unsignedXDR) { FromSign(s); } else { FromEmptyTransaction(s); }
      case Share => FromShare(s);
      case Collect => FromCollect(s);
      case Submit => FromSubmit(s);
      case Success => SucceedNow(s);
    }
  }

  // ----- The component -----

  /** The state fields and the handlers; each method is one action of the state machine. */
  class MultiSigFlow {
    var step: Step
    var threshold: int
    var unsignedXDR: Option<string>
    var initiatorSignedXDR: Option<string>
    var cosignerXDRs: seq<string>
    var simulation: Option<Simulation>
    var showPreview: bool
    var txHash: Option<string>
    var loading: bool
    var pending: Pending
    // History, read by no handler except to label what it starts.
    var builds: nat
    var signature: Option<Signature>
    var calls: seq<Call>
    var confirmed: seq<nat>

    function Value(): State
      reads this
    {
      State(step, threshold, unsignedXDR, initiatorSignedXDR, cosignerXDRs, simulation, showPreview,
            txHash, loading, pending, builds, signature, calls, confirmed)
    }

    constructor ()
      ensures Value() == INITIAL
    {
      step, threshold := Build, 2;
      unsignedXDR, initiatorSignedXDR, cosignerXDRs := None, None, [];
      simulation, showPreview, txHash := None, false, None;
      loading, pending := false, Nothing;
      builds, signature, calls, confirmed := 0, None, [], [];
    }

    method FinishHandler()
      modifies this
      ensures Value() == Idle(old(Value()))
    {
      loading := false;
      pending := Nothing;
    }

    method ChangeThreshold(parsed: Option<int>)
      modifies this
      ensures Value() == Next(old(Value()), SetThreshold(parsed))
    {
      if step == Build {
        threshold := AtLeastTwo(parsed);
      }
    }

    method HandleBuild(formValid: bool)
      modifies this
      ensures Value() == Next(old(Value()), ClickBuild(formValid))
    {
      if step == Build && !loading {
        var canBuild := formValid && threshold >= 2;
        if !canBuild {
          return;
        }
        loading := true;
        pending := Building;
      }
    }

    method ResumeBuild(xdr: Option<string>)
      modifies this
      ensures Value() == Next(old(Value()), BuildReturns(xdr))
    {
      if pending == Building {
        if xdr.Some? {
          unsignedXDR := xdr;
          builds := builds + 1;
          pending := Simulating(xdr.value);
        } else {
          FinishHandler();
        }
      }
    }

    method ResumeSimulation(outcome: SimulationOutcome)
      modifies this
      ensures Value() == Next(old(Value()), SimulationReturns(outcome))
    {
      if pending.Simulating? {
        if outcome.Failed? {
          simulation := None;
        } else if outcome.Finished? {
          simulation := Some(Simulation(pending.xdr, outcome.prepared));
        }
        showPreview := true;
        step := Preview;
        FinishHandler();
      }
    }

    method HandleProceedFromPreview()
      modifies this
      ensures Value() == Next(old(Value()), ProceedFromPreview)
    {
      if step == Preview || showPreview {
        showPreview := false;
        step := Sign;
      }
    }

    method HandleClosePreview()
      modifies this
      ensures Value() == Next(old(Value()), ClosePreview)
    {
      if showPreview {
        showPreview := false;
        simulation := None;
      }
    }

    method HandleInitiatorSign()
      modifies this
      ensures Value() == Next(old(Value()), ClickSign)
      ensures old(step) == Sign && !old(loading) && old(unsignedXDR).Some? && old(unsignedXDR).value != "" ==>
                pending == Signing(Origin(
                  old(builds), old(unsignedXDR).value,
                  if old(simulation).Some? && old(simulation).value.prepared.Some? then
                    Prepared(old(simulation).value.transactionXdr, old(simulation).value.prepared.value)
                  else Unsigned))
    {
      if step == Sign && !loading {
        if !Truthy(unsignedXDR) {
          return;
        }
        loading := true;
        var txToSign := PayloadOf(Value());
        pending := Signing(Origin(builds, unsignedXDR.value, txToSign));
      }
    }

    method ResumeSign(signed: Option<string>)
      modifies this
      ensures Value() == Next(old(Value()), SignReturns(signed))
    {
      if pending.Signing? {
        if Truthy(signed) {
          initiatorSignedXDR := signed;
          signature := Some(Signature(signed.value, pending.origin));
          step := Share;
        }
        FinishHandler();
      }
    }

    method ClearFlow()
      modifies this
      ensures Value() == Cleared(old(Value()))
    {
      step := Build;
      threshold := 2;
      unsignedXDR := None;
      initiatorSignedXDR := None;
      cosignerXDRs := [];
      txHash := None;
      showPreview := false;
      simulation := None;
      signature := None;
    }

    method HandleReset()
      modifies this
      ensures Value() == Next(old(Value()), StartOver)
    {
      if step == Sign || (step == Success && Truthy(txHash)) {
        ClearFlow();
      }
    }

    method HandleGoToCollect()
      modifies this
      ensures Value() == Next(old(Value()), GoToCollect)
    {
      if step == Share {
        step := Collect;
      }
    }

    method HandleAddCosignerXDR(trimmed: string, parses: bool)
      modifies this
      ensures Value() == Next(old(Value()), AddCosigner(trimmed, parses))
    {
      if step == Collect && !Value().ThresholdMet() {
        if trimmed == "" || !parses {
          return;
        }
        cosignerXDRs := cosignerXDRs + [trimmed];
      }
    }

    method HandleRemoveCosignerXDR(index: nat)
      modifies this
      ensures Value() == Next(old(Value()), RemoveCosigner(index))
    {
      if step == Collect && index < |cosignerXDRs| {
        cosignerXDRs := cosignerXDRs[..index] + cosignerXDRs[index + 1..];
      }
    }

    method HandleProceedToSubmit()
      modifies this
      ensures Value() == Next(old(Value()), GoToSubmit)
    {
      if step == Collect && Value().ThresholdMet() {
        step := Submit;
      }
    }

    method HandleBackToSignatures()
      modifies this
      ensures Value() == Next(old(Value()), BackToSignatures)
    {
      if step == Submit {
        step := Collect;
      }
    }

    method HandleSubmit()
      modifies this
      ensures Value() == Next(old(Value()), ClickSubmit)
    {
      if step == Submit && !loading {
        if !Truthy(unsignedXDR) || !Value().ThresholdMet() {
          return;
        }
        loading := true;
        pending := Collecting(Call(builds, unsignedXDR.value, Value().AllSigned(), threshold, signature));
      }
    }

    method ResumeCollect(combined: Option<string>)
      modifies this
      ensures Value() == Next(old(Value()), CollectReturns(combined))
    {
      if pending.Collecting? {
        if combined.Some? {
          calls := calls + [pending.call];
          pending := Submitting(pending.call);
        } else {
          FinishHandler();
        }
      }
    }

    method ResumeSubmit(hash: Option<string>)
      modifies this
      ensures Value() == Next(old(Value()), SubmitReturns(hash))
    {
      if pending.Submitting? {
        if hash.Some? {
          txHash := hash;
          step := Success;
          confirmed := confirmed + [pending.call.build];
        }
        FinishHandler();
      }
    }
  }
}
