/** services.EmrService: collects Hadoop steps, submits them as one EMR job
    flow with a fixed cluster topology, and polls the cluster until it
    reaches a terminal state. The AWS client is an oracle: it hands out a
    fixed job-flow id and answers each status request with the next of a
    finite sequence of observed cluster statuses. */
module Services {
  import opened Wrappers
  import opened JavaText

  /** The SDK's ClusterState values. */
  datatype ClusterState =
    | Starting | Bootstrapping | Running | Waiting | Terminating
    | Terminated | TerminatedWithErrors | UnknownToSdkVersion

  /** The string toString gives for each state. The SDK's catch-all
      UNKNOWN_TO_SDK_VERSION carries a null value, which toString renders
      as "null". */
  function Name(s: ClusterState): string
  {
    match s
    case Starting => "STARTING"
    case Bootstrapping => "BOOTSTRAPPING"
    case Running => "RUNNING"
    case Waiting => "WAITING"
    case Terminating => "TERMINATING"
    case Terminated => "TERMINATED"
    case TerminatedWithErrors => "TERMINATED_WITH_ERRORS"
    case UnknownToSdkVersion => "null"
  }

  /** The two names the wait loop's switch tests pick out exactly the two
      states its preceding equality tests already returned on, so that
      switch never decides anything. */
  lemma NamesIdentifyTerminalStates(s: ClusterState)
    ensures Name(s) == "TERMINATED" <==> s == Terminated
    ensures Name(s) == "TERMINATED_WITH_ERRORS" <==> s == TerminatedWithErrors
  {
  }

  predicate IsTerminal(s: ClusterState)
  {
    s == Terminated || s == TerminatedWithErrors
  }

  /** A cluster status as describeCluster reports it; the state-change
      reason is kept as its text. */
  datatype ClusterStatus = ClusterStatus(state: ClusterState, stateChangeReason: string)

  datatype HadoopJarStepConfig = HadoopJarStepConfig(jar: string, mainClass: string, args: seq<string>)

  datatype StepConfig = StepConfig(name: string, actionOnFailure: string, hadoopJarStep: HadoopJarStepConfig)

  datatype JobFlowInstancesConfig = JobFlowInstancesConfig(
    instanceCount: int,
    keepJobFlowAliveWhenNoSteps: bool,
    hadoopVersion: string,
    availabilityZone: string,
    masterInstanceType: string,
    slaveInstanceType: string)

  datatype RunJobFlowRequest = RunJobFlowRequest(
    name: string,
    logUri: string,
    steps: seq<StepConfig>,
    instances: JobFlowInstancesConfig,
    releaseLabel: string,
    jobFlowRole: string,
    serviceRole: string)

  /** The request runFlow submits. */
  function FlowRequest(instanceCount: int, name: string, logUri: string, steps: seq<StepConfig>): (r: RunJobFlowRequest)
    ensures r.name == name && r.logUri == logUri && r.steps == steps
    ensures r.instances.instanceCount == instanceCount
    ensures !r.instances.keepJobFlowAliveWhenNoSteps
    ensures r.instances.hadoopVersion == "3.2.1" && r.releaseLabel == "emr-6.2.0"
    ensures r.instances.availabilityZone == "us-east-1a"
    ensures r.instances.masterInstanceType == "m4.large" && r.instances.slaveInstanceType == "m4.large"
    ensures r.jobFlowRole == "EMR_EC2_DefaultRole" && r.serviceRole == "EMR_DefaultRole"
  {
    RunJobFlowRequest(
      name, logUri, steps,
      JobFlowInstancesConfig(instanceCount, false, "3.2.1", "us-east-1a", "m4.large", "m4.large"),
      "emr-6.2.0", "EMR_EC2_DefaultRole", "EMR_DefaultRole")
  }

  /** The "switched from ... to ..." message, which the model keeps as a
      log entry instead of printing it. */
  datatype Switched = Switched(clusterId: Option<string>, from: ClusterState, to: ClusterState, reason: string)

  /** How waitForCompletion ends: it returns a value (the job-flow id, or
      null), or the oracle ran out of statuses while it was still polling. */
  datatype Completion = Returned(value: Option<string>) | StillPolling

  // ---------------------------------------------------------------------
  // The client oracle

  /** The EMR client: every submitted request is recorded, runJobFlow
      answers with assignedId, and describeCluster answers with the next
      observed status, whatever cluster it is asked about. */
  class EmrClient {
    var submitted: seq<RunJobFlowRequest>
    var assignedId: string
    var statuses: seq<ClusterStatus>

    constructor(assignedId: string, statuses: seq<ClusterStatus>)
      ensures this.submitted == [] && this.assignedId == assignedId && this.statuses == statuses
    {
      this.submitted := [];
      this.assignedId := assignedId;
      this.statuses := statuses;
    }

    method RunJobFlow(request: RunJobFlowRequest) returns (jobFlowId: string)
      modifies this
      ensures submitted == old(submitted) + [request]
      ensures jobFlowId == assignedId && assignedId == old(assignedId) && statuses == old(statuses)
    {
      submitted := submitted + [request];
      jobFlowId := assignedId;
    }

    /** None once the observed statuses are used up. */
    method DescribeCluster(clusterId: Option<string>) returns (status: Option<ClusterStatus>)
      modifies this
      ensures old(statuses) == [] ==> status == None && statuses == []
      ensures old(statuses) != [] ==> status == Some(old(statuses)[0]) && statuses == old(statuses)[1..]
      ensures submitted == old(submitted) && assignedId == old(assignedId)
    {
      if statuses == [] {
        status := None;
      } else {
        status := Some(statuses[0]);
        statuses := statuses[1..];
      }
    }
  }

  // ---------------------------------------------------------------------
  // What the wait loop computes

  /** The message one poll prints: the state variable has just been reset
      to STARTING, so "from" is always STARTING. */
  function Switch(id: Option<string>, status: ClusterStatus): (s: Switched)
    ensures s.clusterId == id && s.from == Starting && s.to == status.state
  {
    Switched(id, Starting, status.state, status.stateChangeReason)
  }

  /** What one poll prints: nothing when the polled state is STARTING. */
  function Printed(id: Option<string>, status: ClusterStatus): (p: seq<Switched>)
    ensures |p| <= 1 && (|p| == 1 <==> status.state != Starting)
  {
    if status.state != Starting then [Switch(id, status)] else []
  }

  /** The messages a run of polls prints: one for every polled status
      whose state is not STARTING, in polling order. */
  function SwitchLog(id: Option<string>, polled: seq<ClusterStatus>): (log: seq<Switched>)
    ensures |log| <= |polled|
  {
    if |polled| == 0 then [] else Printed(id, polled[0]) + SwitchLog(id, polled[1..])
  }

  /** Every message reports a switch from STARTING to a state other than
      STARTING, and every polled state other than STARTING is reported. */
  lemma {:induction false} SwitchLogEntries(id: Option<string>, polled: seq<ClusterStatus>)
    ensures forall e :: e in SwitchLog(id, polled) ==> e.clusterId == id && e.from == Starting && e.to != Starting
    ensures forall j :: 0 <= j < |polled| && polled[j].state != Starting ==> Switch(id, polled[j]) in SwitchLog(id, polled)
  {
    if |polled| > 0 {
      SwitchLogEntries(id, polled[1..]);
      assert forall j :: 1 <= j < |polled| ==> polled[j] == polled[1..][j - 1];
    }
  }

  lemma {:induction false} SwitchLogAppend(id: Option<string>, a: seq<ClusterStatus>, b: seq<ClusterStatus>)
    ensures SwitchLog(id, a + b) == SwitchLog(id, a) + SwitchLog(id, b)
  {
    if |a| > 0 {
      assert (a + b)[1..] == a[1..] + b;
      SwitchLogAppend(id, a[1..], b);
    } else {
      assert a + b == b;
    }
  }

  /** Polling one more status adds what that poll prints. */
  lemma SwitchLogSnoc(id: Option<string>, statuses: seq<ClusterStatus>, i: nat)
    requires i < |statuses|
    ensures SwitchLog(id, statuses[..i + 1]) == SwitchLog(id, statuses[..i]) + Printed(id, statuses[i])
  {
    SwitchLogAppend(id, statuses[..i], [statuses[i]]);
    assert statuses[..i + 1] == statuses[..i] + [statuses[i]];
    assert [statuses[i]][1..] == [];
  }

  /** The messages line up with the polls: poll j adds one message
      exactly when its state is not STARTING, and that message sits right
      after those of the earlier polls, so a repeated state is reported
      once per poll. */
  lemma SwitchLogPositions(id: Option<string>, polled: seq<ClusterStatus>, j: nat)
    requires j < |polled|
    ensures |SwitchLog(id, polled[..j + 1])| ==
      |SwitchLog(id, polled[..j])| + (if polled[j].state != Starting then 1 else 0)
    ensures polled[j].state != Starting ==>
      |SwitchLog(id, polled[..j])| < |SwitchLog(id, polled)| &&
      SwitchLog(id, polled)[|SwitchLog(id, polled[..j])|] == Switch(id, polled[j])
  {
    SwitchLogSnoc(id, polled, j);
    SwitchLogAppend(id, polled[..j + 1], polled[j + 1..]);
    assert polled[..j + 1] + polled[j + 1..] == polled;
  }

  /** The outcome of polling the observed statuses: the result, the
      messages printed, and how many statuses were consumed. */
  datatype WaitTrace = WaitTrace(result: Completion, log: seq<Switched>, polled: nat)

  /** The poll loop over the statuses still to be observed. It returns the
      id at a TERMINATED state and null at a TERMINATED_WITH_ERRORS state,
      and polls again on any other. */
  function Wait(id: Option<string>, statuses: seq<ClusterStatus>): (w: WaitTrace)
    ensures w.polled <= |statuses|
  {
    if |statuses| == 0 then WaitTrace(StillPolling, [], 0)
    else
      var status := statuses[0];
      var printed := Printed(id, status);
      if status.state == Terminated then WaitTrace(Returned(id), printed, 1)
      else if status.state == TerminatedWithErrors then WaitTrace(Returned(None), printed, 1)
      else
        var rest := Wait(id, statuses[1..]);
        WaitTrace(rest.result, printed + rest.log, rest.polled + 1)
  }

  /** The loop returns only on a terminal state, never polls past one, and
      is still polling only once every observed status has been polled. */
  lemma {:induction false} WaitStopsOnlyAtTerminal(id: Option<string>, statuses: seq<ClusterStatus>)
    ensures var w := Wait(id, statuses);
      && (forall j :: 0 <= j < w.polled - 1 ==> !IsTerminal(statuses[j].state))
      && (w.result.Returned? <==> w.polled > 0 && IsTerminal(statuses[w.polled - 1].state))
      && (w.result.StillPolling? ==> w.polled == |statuses|)
      && (w.result.Returned? ==> w.result.value == if statuses[w.polled - 1].state == Terminated then id else None)
  {
    if |statuses| > 0 && !IsTerminal(statuses[0].state) {
      var tail := statuses[1..];
      WaitStopsOnlyAtTerminal(id, tail);
      assert forall j :: 1 <= j < |statuses| ==> statuses[j] == tail[j - 1];
    }
  }

  /** Polling a prefix with no terminal state prints that prefix's messages
      and then goes on as if started after it. */
  lemma {:induction false} WaitAfterPrefix(id: Option<string>, statuses: seq<ClusterStatus>, i: nat)
    requires i <= |statuses|
    requires forall j :: 0 <= j < i ==> !IsTerminal(statuses[j].state)
    ensures Wait(id, statuses) == WaitTrace(
      Wait(id, statuses[i..]).result,
      SwitchLog(id, statuses[..i]) + Wait(id, statuses[i..]).log,
      i + Wait(id, statuses[i..]).polled)
  {
    if i > 0 {
      NoTerminalInTail(statuses, i);
      WaitAfterPrefix(id, statuses[1..], i - 1);
      WaitAfterPrefixStep(id, statuses, i);
    } else {
      assert statuses[0..] == statuses;
    }
  }

  lemma NoTerminalInTail(statuses: seq<ClusterStatus>, i: nat)
    requires 0 < i <= |statuses|
    requires forall j :: 0 <= j < i ==> !IsTerminal(statuses[j].state)
    ensures forall j :: 0 <= j < i - 1 ==> !IsTerminal(statuses[1..][j].state)
  {
    assert forall j :: 0 <= j < i - 1 ==> statuses[1..][j] == statuses[j + 1];
  }

  /** The inductive step of WaitAfterPrefix: one more non-terminal poll in
      front. */
  lemma WaitAfterPrefixStep(id: Option<string>, statuses: seq<ClusterStatus>, i: nat)
    requires 0 < i <= |statuses| && !IsTerminal(statuses[0].state)
    requires Wait(id, statuses[1..]) == WaitTrace(
      Wait(id, statuses[1..][i - 1..]).result,
      SwitchLog(id, statuses[1..][..i - 1]) + Wait(id, statuses[1..][i - 1..]).log,
      i - 1 + Wait(id, statuses[1..][i - 1..]).polled)
    ensures Wait(id, statuses) == WaitTrace(
      Wait(id, statuses[i..]).result,
      SwitchLog(id, statuses[..i]) + Wait(id, statuses[i..]).log,
      i + Wait(id, statuses[i..]).polled)
  {
    var tail := statuses[1..];
    PrefixStep(statuses, i);
    var r := Wait(id, statuses[i..]);
    var p := Printed(id, statuses[0]);
    var before := SwitchLog(id, tail[..i - 1]);
    WaitStep(id, statuses);
    SwitchLogStep(id, statuses, i);
    ComposeTraces(Wait(id, statuses), Wait(id, tail), r, p, before, i);
  }

  /** Prefixing the messages of one more poll to a trace. */
  lemma ComposeTraces(whole: WaitTrace, w: WaitTrace, r: WaitTrace, p: seq<Switched>, before: seq<Switched>, i: nat)
    requires i > 0
    requires w == WaitTrace(r.result, before + r.log, i - 1 + r.polled)
    requires whole == WaitTrace(w.result, p + w.log, w.polled + 1)
    ensures whole == WaitTrace(r.result, (p + before) + r.log, i + r.polled)
  {
    assert p + (before + r.log) == (p + before) + r.log;
  }

  lemma SwitchLogStep(id: Option<string>, statuses: seq<ClusterStatus>, i: nat)
    requires 0 < i <= |statuses|
    ensures SwitchLog(id, statuses[..i]) == Printed(id, statuses[0]) + SwitchLog(id, statuses[1..][..i - 1])
  {
    assert statuses[..i][1..] == statuses[1..][..i - 1];
  }

  /** One poll of a non-terminal state, then the rest. */
  lemma WaitStep(id: Option<string>, statuses: seq<ClusterStatus>)
    requires |statuses| > 0 && !IsTerminal(statuses[0].state)
    ensures Wait(id, statuses) == WaitTrace(
      Wait(id, statuses[1..]).result,
      Printed(id, statuses[0]) + Wait(id, statuses[1..]).log,
      Wait(id, statuses[1..]).polled + 1)
  {
  }

  lemma PrefixStep(statuses: seq<ClusterStatus>, i: nat)
    requires 0 < i <= |statuses|
    ensures statuses[1..][i - 1..] == statuses[i..] && statuses[..i][1..] == statuses[1..][..i - 1]
  {
  }

  /** The wait stops at the first terminal state, after exactly that many
      polls, with the id for TERMINATED and null for TERMINATED_WITH_ERRORS. */
  lemma WaitStopsAtFirstTerminal(id: Option<string>, statuses: seq<ClusterStatus>, k: nat)
    requires k < |statuses| && IsTerminal(statuses[k].state)
    requires forall j :: 0 <= j < k ==> !IsTerminal(statuses[j].state)
    ensures Wait(id, statuses).polled == k + 1
    ensures Wait(id, statuses).result == if statuses[k].state == Terminated then Returned(id) else Returned(None)
    ensures Wait(id, statuses).log == SwitchLog(id, statuses[..k + 1])
  {
    WaitAfterPrefix(id, statuses, k);
    var rest := statuses[k..];
    assert rest[0] == statuses[k];
    assert Wait(id, rest).log == Printed(id, statuses[k]) && Wait(id, rest).polled == 1;
    SwitchLogSnoc(id, statuses, k);
  }

  /** Without a terminal state among the observed statuses, the loop polls
      them all and is still polling when they run out. */
  lemma WaitWithoutTerminal(id: Option<string>, statuses: seq<ClusterStatus>)
    requires forall j :: 0 <= j < |statuses| ==> !IsTerminal(statuses[j].state)
    ensures Wait(id, statuses) == WaitTrace(StillPolling, SwitchLog(id, statuses), |statuses|)
  {
    WaitAfterPrefix(id, statuses, |statuses|);
    assert statuses[..|statuses|] == statuses;
    assert statuses[|statuses|..] == [];
  }

  /** Because the state is reset to STARTING before every poll, a cluster
      that stays RUNNING is reported as switching from STARTING to RUNNING
      on every poll, not once. */
  lemma RunningTwiceIsReportedTwice(id: Option<string>, reason: string)
    ensures var running := ClusterStatus(Running, reason);
      Wait(id, [running, running, ClusterStatus(Terminated, reason)]) == WaitTrace(
        Returned(id),
        [Switched(id, Starting, Running, reason), Switched(id, Starting, Running, reason),
         Switched(id, Starting, Terminated, reason)],
        3)
  {
    var running := ClusterStatus(Running, reason);
    var done := ClusterStatus(Terminated, reason);
    var statuses := [running, running, done];
    assert statuses[1..] == [running, done];
    assert [running, done][1..] == [done];
    assert Wait(id, [done]) == WaitTrace(Returned(id), [Switch(id, done)], 1);
    assert Wait(id, [running, done]) == WaitTrace(Returned(id), [Switch(id, running), Switch(id, done)], 2);
  }

  /** A STARTING status prints nothing and is polled past. */
  lemma StartingIsSilent(id: Option<string>, reason: string)
    ensures Wait(id, [ClusterStatus(Starting, reason), ClusterStatus(TerminatedWithErrors, reason)]) == WaitTrace(
      Returned(None), [Switched(id, Starting, TerminatedWithErrors, reason)], 2)
  {
    var statuses := [ClusterStatus(Starting, reason), ClusterStatus(TerminatedWithErrors, reason)];
    assert statuses[1..] == [ClusterStatus(TerminatedWithErrors, reason)];
  }

  // ---------------------------------------------------------------------
  // The service object

  class EmrService {
    var emr: EmrClient
    var steps: seq<StepConfig>
    var jobFlowId: Option<string>
    var flowName: Option<string>

    /** create(): the builder's defaults, with the given client. */
    constructor Create(client: EmrClient)
      ensures emr == client && steps == [] && jobFlowId == None && flowName == None
    {
      emr := client;
      steps := [];
      jobFlowId := None;
      flowName := None;
    }

    method AddStep(stepName: string, jar: string, mainClass: string, args: seq<string>)
      modifies this
      ensures steps == old(steps) + [StepConfig(stepName, "TERMINATE_CLUSTER", HadoopJarStepConfig(jar, mainClass, args))]
      ensures emr == old(emr) && jobFlowId == old(jobFlowId) && flowName == old(flowName)
    {
      steps := steps + [StepConfig(stepName, "TERMINATE_CLUSTER", HadoopJarStepConfig(jar, mainClass, args))];
    }

    /** Submits the steps as one job flow, records its name and id, and
        waits for it. */
    method RunFlow(instanceCount: int, name: string, logUri: string) returns (result: Completion, log: seq<Switched>)
      requires INT_MIN <= instanceCount <= INT_MAX
      modifies this, emr
      ensures emr == old(emr) && steps == old(steps)
      ensures flowName == Some(name) && jobFlowId == Some(old(emr.assignedId))
      ensures emr.submitted == old(emr.submitted) + [FlowRequest(instanceCount, name, logUri, old(steps))]
      ensures emr.assignedId == old(emr.assignedId)
      ensures var w := Wait(jobFlowId, old(emr.statuses));
        result == w.result && log == w.log && emr.statuses == old(emr.statuses)[w.polled..]
    {
      flowName := Some(name);
      var id := emr.RunJobFlow(FlowRequest(instanceCount, name, logUri, steps));
      jobFlowId := Some(id);
      result, log := WaitForCompletion();
    }

    /** Polls until the cluster is TERMINATED (returns the id) or
        TERMINATED_WITH_ERRORS (returns null). */
    method WaitForCompletion() returns (result: Completion, log: seq<Switched>)
      modifies emr
      ensures var w := Wait(jobFlowId, old(emr.statuses));
        result == w.result && log == w.log && emr.statuses == old(emr.statuses)[w.polled..]
      ensures emr.submitted == old(emr.submitted) && emr.assignedId == old(emr.assignedId)
    {
      ghost var observed := emr.statuses;
      ghost var i := 0;
      log := [];
      while true
        invariant i <= |observed| && emr.statuses == observed[i..]
        invariant forall j :: 0 <= j < i ==> !IsTerminal(observed[j].state)
        invariant log == SwitchLog(jobFlowId, observed[..i])
        invariant emr.submitted == old(emr.submitted) && emr.assignedId == old(emr.assignedId)
        decreases |emr.statuses|
      {
        var state := Starting;
        var status := GetClusterStatus(jobFlowId);
        if status.None? {
          WaitWithoutTerminal(jobFlowId, observed);
          assert observed[..i] == observed;
          return StillPolling, log;
        }
        var newState := status.value.state;
        SwitchLogSnoc(jobFlowId, observed, i);
        if state != newState {
          log := log + [Switched(jobFlowId, state, newState, status.value.stateChangeReason)];
          state := newState;
        }
        if state == Terminated {
          WaitStopsAtFirstTerminal(jobFlowId, observed, i);
          return Returned(jobFlowId), log;
        }
        if state == TerminatedWithErrors {
          WaitStopsAtFirstTerminal(jobFlowId, observed, i);
          return Returned(None), log;
        }
        i := i + 1;
      }
    }

    method GetClusterStatus(id: Option<string>) returns (status: Option<ClusterStatus>)
      modifies emr
      ensures old(emr.statuses) == [] ==> status == None && emr.statuses == []
      ensures old(emr.statuses) != [] ==> status == Some(old(emr.statuses)[0]) && emr.statuses == old(emr.statuses)[1..]
      ensures emr.submitted == old(emr.submitted) && emr.assignedId == old(emr.assignedId)
    {
      status := emr.DescribeCluster(id);
    }

    method GetJobState(id: Option<string>) returns (state: Option<ClusterState>)
      modifies emr
      ensures old(emr.statuses) == [] ==> state == None && emr.statuses == []
      ensures old(emr.statuses) != [] ==> state == Some(old(emr.statuses)[0].state) && emr.statuses == old(emr.statuses)[1..]
      ensures emr.submitted == old(emr.submitted) && emr.assignedId == old(emr.assignedId)
    {
      var status := GetClusterStatus(id);
      state := if status.Some? then Some(status.value.state) else None;
    }
  }
}
