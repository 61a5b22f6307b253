/**
  The Wi-Fi connection task. Each iteration of its endless loop: if the
  station is connected, wait for the disconnect event and then back off;
  if the controller is not started, configure the client credentials and
  start it; then try to connect, backing off after a failure.

  The radio and the controller are not modelled: what they report in an
  iteration is given as that iteration's inputs, and the iteration
  produces the list of actions it takes.
 */
module Supervisor {

  /** Backoff after a disconnect and after a failed connect attempt. */
  const BackoffMs: nat := 5_000

  /** The driver's global Wi-Fi state. */
  datatype WifiState =
    | StaStarted | StaConnected | StaDisconnected | StaStopped
    | ApStarted | ApStopped | Invalid

  /** The controller's answer to "is it started?", which can be an error. */
  datatype StartedQuery = Answer(started: bool) | QueryError

  /** What the environment reports during one iteration. `configureOk` is
      whether the credentials convert and the configuration is accepted,
      `startOk` whether starting succeeds, `connectOk` whether the connect
      attempt succeeds. */
  datatype Inputs = Inputs(
    state: WifiState,
    isStarted: StartedQuery,
    configureOk: bool,
    startOk: bool,
    connectOk: bool)

  datatype Action =
    | WaitForDisconnect
    | Delay(ms: nat)
    | Configure
    | Start
    | Connect(ok: bool)
    | Panic   // an unwrapped error: the connection loop panics

  /** Configuring and starting happen unless the controller answers that
      it is already started; a query error counts as not started. */
  predicate NeedsStart(input: Inputs)
  {
    input.isStarted != Answer(true)
  }

  /** Whether an iteration aborts on a failed configure or start. */
  predicate Aborts(input: Inputs)
  {
    NeedsStart(input) && (!input.configureOk || !input.startOk)
  }

  /** The outcomes of the connect attempts among the actions, in order. */
  function ConnectOutcomes(actions: seq<Action>): seq<bool>
  {
    if |actions| == 0 then []
    else (if actions[0].Connect? then [actions[0].ok] else []) + ConnectOutcomes(actions[1..])
  }

  function CountConnects(actions: seq<Action>): nat
  {
    if |actions| == 0 then 0
    else (if actions[0].Connect? then 1 else 0) + CountConnects(actions[1..])
  }

  /** Counting the connect attempts agrees with listing their outcomes. */
  lemma {:induction false} CountIsOutcomesLength(actions: seq<Action>)
    ensures CountConnects(actions) == |ConnectOutcomes(actions)|
  {
    if |actions| > 0 {
      CountIsOutcomesLength(actions[1..]);
    }
  }

  /** Every failed connect attempt is immediately followed by the backoff. */
  predicate FailuresBackOff(actions: seq<Action>)
  {
    forall i :: 0 <= i < |actions| && actions[i] == Connect(false) ==>
      i + 1 < |actions| && actions[i + 1] == Delay(BackoffMs)
  }

  /** The actions of one loop iteration, in order. An iteration aborts
      exactly when configuring or starting fails; otherwise it makes
      exactly one connect attempt, with the outcome it was given. */
  function SupervisorStep(input: Inputs): (acts: seq<Action>)
    ensures Panic in acts <==> Aborts(input)
    ensures Aborts(input) ==> acts[|acts| - 1] == Panic && CountConnects(acts) == 0
    ensures !Aborts(input) ==> CountConnects(acts) == 1 && Connect(input.connectOk) in acts
  {
    var waited := if input.state == StaConnected then [WaitForDisconnect, Delay(BackoffMs)] else [];
    if NeedsStart(input) && !input.configureOk then
      var acts := waited + [Configure, Panic];
      NoConnects(acts);
      acts
    else if NeedsStart(input) && !input.startOk then
      var acts := waited + [Configure, Start, Panic];
      NoConnects(acts);
      acts
    else
      var started := if NeedsStart(input) then [Configure, Start] else [];
      var connect := if input.connectOk then [Connect(true)] else [Connect(false), Delay(BackoffMs)];
      NoConnects(waited + started);
      NoConnects(connect[1..]);
      CountConnectsAppend(waited + started, connect);
      waited + started + connect
  }

  /** A connected station first waits for the disconnect event and then
      backs off; otherwise the iteration does not wait for it. */
  lemma StepWaitsForDisconnect(input: Inputs)
    ensures var acts := SupervisorStep(input);
      && (input.state == StaConnected ==>
            |acts| >= 2 && acts[0] == WaitForDisconnect && acts[1] == Delay(BackoffMs))
      && (input.state != StaConnected ==> WaitForDisconnect !in acts)
  {
  }

  /** Configuring and starting are performed exactly when the controller
      does not answer that it is started (start only after a successful
      configure). */
  lemma StepStartsOnlyWhenNeeded(input: Inputs)
    ensures var acts := SupervisorStep(input);
      && (Configure in acts <==> NeedsStart(input))
      && (Start in acts <==> NeedsStart(input) && input.configureOk)
  {
  }

  /** Within an iteration, configuring and starting come before the
      connect attempt. */
  lemma StepStartsBeforeConnect(input: Inputs)
    ensures var acts := SupervisorStep(input);
      forall i, j | 0 <= i < |acts| && 0 <= j < |acts| ::
        (acts[i].Connect? && (acts[j] == Configure || acts[j] == Start)) ==> j < i
  {
  }

  /** A failed connect attempt is followed by the backoff, which ends the
      iteration; a successful one ends the iteration at once. */
  lemma StepFailureBacksOff(input: Inputs)
    ensures var acts := SupervisorStep(input);
      && FailuresBackOff(acts)
      && (!Aborts(input) && input.connectOk ==> acts[|acts| - 1] == Connect(true))
      && (!Aborts(input) && !input.connectOk ==>
            |acts| >= 2 && acts[|acts| - 2] == Connect(false) && acts[|acts| - 1] == Delay(BackoffMs))
  {
  }

  /** An iteration takes no actions beyond the ones the other step lemmas
      name: two for the disconnect wait, two for configure and start, one
      or two for the connect attempt, or the prefix of configure and start
      that ran before the panic. Configure always precedes start. */
  lemma StepShape(input: Inputs)
    ensures var acts := SupervisorStep(input);
      var waitLen := if input.state == StaConnected then 2 else 0;
      && (!Aborts(input) ==>
            |acts| == waitLen + (if NeedsStart(input) then 2 else 0) + (if input.connectOk then 1 else 2))
      && (Aborts(input) ==> |acts| == waitLen + (if input.configureOk then 3 else 2))
      && (forall i, j | 0 <= i < |acts| && 0 <= j < |acts| ::
            (acts[i] == Configure && acts[j] == Start) ==> i < j)
  {
  }

  /** An aborting iteration makes no connect attempt; any other makes one,
      with the outcome its inputs give. */
  lemma StepConnectOutcome(input: Inputs)
    ensures ConnectOutcomes(SupervisorStep(input)) == if Aborts(input) then [] else [input.connectOk]
  {
    var acts := SupervisorStep(input);
    var waited := if input.state == StaConnected then [WaitForDisconnect, Delay(BackoffMs)] else [];
    if Aborts(input) {
      NoConnects(acts);
    } else {
      var started := if NeedsStart(input) then [Configure, Start] else [];
      var connect := if input.connectOk then [Connect(true)] else [Connect(false), Delay(BackoffMs)];
      assert acts == (waited + started) + connect;
      NoConnects(waited + started);
      NoConnects(connect[1..]);
      ConnectOutcomesAppend(waited + started, connect);
    }
  }

  /** The panic of an aborting iteration is its last action and its only
      panic. */
  lemma StepPanicIsLast(input: Inputs)
    requires Aborts(input)
    ensures var acts := SupervisorStep(input);
      acts[|acts| - 1] == Panic && Panic !in acts[..|acts| - 1]
  {
    var acts := SupervisorStep(input);
    var waited := if input.state == StaConnected then [WaitForDisconnect, Delay(BackoffMs)] else [];
    if !input.configureOk {
      assert acts[..|acts| - 1] == waited + [Configure];
    } else {
      assert acts[..|acts| - 1] == waited + [Configure, Start];
    }
  }

  lemma {:induction false} NoConnects(actions: seq<Action>)
    requires forall i :: 0 <= i < |actions| ==> !actions[i].Connect?
    ensures CountConnects(actions) == 0
    ensures ConnectOutcomes(actions) == []
  {
    if |actions| > 0 {
      NoConnects(actions[1..]);
    }
  }

  /** The actions of consecutive iterations, until one aborts. A panic
      ends the run: when there is one, it is the last action and the only
      panic. */
  function SupervisorRun(inputs: seq<Inputs>): (trace: seq<Action>)
    decreases |inputs|
    ensures Panic in trace ==> trace[|trace| - 1] == Panic && Panic !in trace[..|trace| - 1]
  {
    if |inputs| == 0 then []
    else if Aborts(inputs[0]) then
      StepPanicIsLast(inputs[0]);
      SupervisorStep(inputs[0])
    else
      var a, b := SupervisorStep(inputs[0]), SupervisorRun(inputs[1..]);
      PanicLastAppend(a, b);
      a + b
  }

  /** Appending a panic-free prefix keeps a panic last and unique. */
  lemma PanicLastAppend(a: seq<Action>, b: seq<Action>)
    requires Panic !in a
    requires Panic in b ==> b[|b| - 1] == Panic && Panic !in b[..|b| - 1]
    ensures Panic in a + b ==> (a + b)[|a + b| - 1] == Panic && Panic !in (a + b)[..|a + b| - 1]
  {
    if Panic in a + b {
      assert Panic in b;
      assert (a + b)[..|a + b| - 1] == a + b[..|b| - 1];
    }
  }

  lemma {:induction false} CountConnectsAppend(a: seq<Action>, b: seq<Action>)
    ensures CountConnects(a + b) == CountConnects(a) + CountConnects(b)
  {
    if |a| == 0 {
      assert a + b == b;
    } else {
      assert (a + b)[1..] == a[1..] + b;
      CountConnectsAppend(a[1..], b);
    }
  }

  lemma {:induction false} ConnectOutcomesAppend(a: seq<Action>, b: seq<Action>)
    ensures ConnectOutcomes(a + b) == ConnectOutcomes(a) + ConnectOutcomes(b)
  {
    if |a| == 0 {
      assert a + b == b;
    } else {
      var head := if a[0].Connect? then [a[0].ok] else [];
      assert (a + b)[0] == a[0] && (a + b)[1..] == a[1..] + b;
      ConnectOutcomesAppend(a[1..], b);
      assert ConnectOutcomes(a + b) == head + (ConnectOutcomes(a[1..]) + ConnectOutcomes(b));
      assert ConnectOutcomes(a) == head + ConnectOutcomes(a[1..]);
    }
  }

  /** Iteration k of a run without a panic makes the k-th connect attempt,
      with the outcome its inputs give: the connect outcomes of the run are
      the inputs' outcomes, in order. */
  lemma {:induction false} RunConnectOutcomes(inputs: seq<Inputs>)
    requires forall k :: 0 <= k < |inputs| ==> !Aborts(inputs[k])
    ensures ConnectOutcomes(SupervisorRun(inputs)) ==
      seq(|inputs|, k requires 0 <= k < |inputs| => inputs[k].connectOk)
    decreases |inputs|
  {
    if |inputs| > 0 {
      RunConnectOutcomes(inputs[1..]);
      StepConnectOutcome(inputs[0]);
      ConnectOutcomesAppend(SupervisorStep(inputs[0]), SupervisorRun(inputs[1..]));
    }
  }

  /** Unbounded retry: as long as no iteration aborts, every iteration
      makes one connect attempt, whatever the earlier attempts returned.
      After any number n of failed attempts an (n+1)-th is made. */
  lemma {:induction false} EveryIterationConnects(inputs: seq<Inputs>)
    requires forall k :: 0 <= k < |inputs| ==> !Aborts(inputs[k])
    ensures CountConnects(SupervisorRun(inputs)) == |inputs|
  {
    RunConnectOutcomes(inputs);
    CountIsOutcomesLength(SupervisorRun(inputs));
  }

  /** Across any number of iterations, every failed connect attempt is
      followed by the 5-second backoff before anything else happens. */
  lemma {:induction false} RunFailuresBackOff(inputs: seq<Inputs>)
    ensures FailuresBackOff(SupervisorRun(inputs))
    decreases |inputs|
  {
    if |inputs| > 0 && !Aborts(inputs[0]) {
      RunFailuresBackOff(inputs[1..]);
      var a, b := SupervisorStep(inputs[0]), SupervisorRun(inputs[1..]);
      forall i | 0 <= i < |a + b| && (a + b)[i] == Connect(false)
        ensures i + 1 < |a + b| && (a + b)[i + 1] == Delay(BackoffMs)
      {
        if i >= |a| {
          assert b[i - |a|] == Connect(false);
        }
      }
    }
  }

  /** The run panics exactly when some iteration's configure or start
      fails; `SupervisorRun`'s contract makes that panic its last action. */
  lemma {:induction false} RunAbortsOnlyOnStartFailure(inputs: seq<Inputs>)
    ensures Panic in SupervisorRun(inputs) <==> exists k :: 0 <= k < |inputs| && Aborts(inputs[k])
    decreases |inputs|
  {
    if |inputs| > 0 {
      RunAbortsOnlyOnStartFailure(inputs[1..]);
      if !Aborts(inputs[0]) {
        var a, b := SupervisorStep(inputs[0]), SupervisorRun(inputs[1..]);
        assert Panic in a + b <==> Panic in b;
        if exists k :: 0 <= k < |inputs| && Aborts(inputs[k]) {
          var k :| 0 <= k < |inputs| && Aborts(inputs[k]);
          assert Aborts(inputs[1..][k - 1]);
        }
        if exists k :: 0 <= k < |inputs[1..]| && Aborts(inputs[1..][k]) {
          var k :| 0 <= k < |inputs[1..]| && Aborts(inputs[1..][k]);
          assert Aborts(inputs[k + 1]);
        }
      }
    }
  }
}
