/** The create-http-lb-ref workflow as a function of the state before it, the
    domain, the command's parameters and its environment: validate, resolve the
    target, create the reference, then run the optional follow-on steps. */
module Workflow {
  import opened ConfigModel
  import opened RefEdits

  /** The command's parameters. `config` and `lbname` are mutually exclusive;
      the health-checker interval and timeout are passed on as strings. */
  datatype Command = Command(
    config: Option<string>,
    lbname: Option<string>,
    lbpolicy: Option<string>,
    lbpolicymodule: Option<string>,
    healthcheckerurl: Option<string>,
    healthcheckerinterval: string,
    healthcheckertimeout: string,
    target: string)

  /** What the command does not control: the values Boolean.getBoolean returns for
      the two enable flags, whether each transaction is rejected, and which
      sub-command runs end in a CommandException. */
  datatype Env = Env(
    allInstancesProperty: bool,
    allApplicationsProperty: bool,
    createCommitFails: bool,
    updateCommitFails: bool,
    throwing: set<SubCommand>)

  predicate PolicyGiven(c: Command) {
    c.lbpolicy.Some? || c.lbpolicymodule.Some?
  }

  /** The checks execute makes before it changes anything, in its order; the tag of
      the first that fails, or None. */
  function Validate(s: State, d: Domain, c: Command): (r: Option<Msg>)
    ensures r.None? <==>
      !(c.config.Some? && c.lbname.Some?) &&
      (c.config.Some? ==> c.config.value in s.lbConfigs) &&
      (PolicyGiven(c) ==> c.target in d.targetClusters) &&
      (c.target in d.targetClusters ==> c.target in d.clusters) &&
      (c.target !in d.targetClusters ==> c.target in d.servers)
    ensures r.Some? ==> r.value in {EitherConfigOrLBName, LbConfigDoesNotExist, NotCluster, ClusterNotDefined, ServerNotDefined}
  {
    if c.config.Some? && c.lbname.Some? then Some(EitherConfigOrLBName)
    else if c.config.Some? && c.config.value !in s.lbConfigs then Some(LbConfigDoesNotExist)
    else if PolicyGiven(c) && c.target !in d.targetClusters then Some(NotCluster)
    else if c.target in d.targetClusters && c.target !in d.clusters then Some(ClusterNotDefined)
    else if c.target !in d.targetClusters && c.target !in d.servers then Some(ServerNotDefined)
    else None
  }

  /** A load-balancer name given without a config must name a load balancer. */
  predicate LbNameResolves(d: Domain, c: Command) {
    c.config.None? && c.lbname.Some? ==> c.lbname.value in d.loadBalancers
  }

  /** The lb-config the command works on: the one named, or the one of the named
      load balancer. */
  function ResolveConfig(d: Domain, c: Command): (r: Option<string>)
    requires LbNameResolves(d, c)
    ensures r.None? <==> c.config.None? && c.lbname.None?
    ensures c.config.Some? ==> r == c.config
    ensures c.config.None? && c.lbname.Some? ==> r == Some(d.loadBalancers[c.lbname.value])
  {
    if c.config.Some? then c.config
    else if c.lbname.Some? then Some(d.loadBalancers[c.lbname.value])
    else None
  }

  /** The report once execute has set its exit code to SUCCESS. */
  function Started(s: State): (r: State)
    ensures r.report.exitCode == Success && r.report.message == s.report.message
    ensures r.lbConfigs == s.lbConfigs && r.invocations == s.invocations
  {
    s.(report := s.report.(exitCode := Success))
  }

  /** Whether the step that enables applications and updates the cluster-ref runs. */
  predicate PolicyStepRuns(c: Command, e: Env) {
    e.allApplicationsProperty || PolicyGiven(c)
  }

  /** Whether the loop that enables the target's user applications runs. */
  predicate EnablesApps(d: Domain, c: Command, e: Env) {
    |AppRefsIn(d, c.target)| > 0 && e.allApplicationsProperty
  }

  /** The state right after createLBRef. */
  function AfterCreate(s: State, d: Domain, c: Command, e: Env): State
    requires LbNameResolves(d, c)
    requires CreateLBRefPre(Started(s), d, c.target, ResolveConfig(d, c))
  {
    CreateLBRef(Started(s), d, c.target, ResolveConfig(d, c), e.createCommitFails)
  }

  lemma ConcatAssoc<T>(a: seq<T>, b: seq<T>, c: seq<T>)
    ensures a + b + c == a + (b + c)
  {
  }

  /** createLBRef runs no sub-command and keeps the set of lb-configs. */
  lemma AfterCreateKeepsTrace(s: State, d: Domain, c: Command, e: Env)
    requires LbNameResolves(d, c)
    requires CreateLBRefPre(Started(s), d, c.target, ResolveConfig(d, c))
    ensures AfterCreate(s, d, c, e).invocations == s.invocations
    ensures AfterCreate(s, d, c, e).lbConfigs.Keys == s.lbConfigs.Keys
  {
  }

  /** What execute needs so that it dereferences nothing that is missing. */
  predicate ExecutePre(s: State, d: Domain, c: Command, e: Env) {
    LbNameResolves(d, c) &&
    (Validate(s, d, c).None? ==>
       var config := ResolveConfig(d, c);
       config.Some? && config.value in s.lbConfigs &&
       (EnablesApps(d, c, e) ==> AllRegistered(d, AppRefsIn(d, c.target))) &&
       (PolicyStepRuns(c, e) ==>
          GetRefByRef(AfterCreate(s, d, c, e).lbConfigs[config.value], ClusterKind, c.target).Some?))
  }

  function HealthChecker(c: Command, config: Option<string>): SubCommand
    requires c.healthcheckerurl.Some?
  {
    CreateHealthChecker(c.healthcheckerurl.value, c.healthcheckerinterval, c.healthcheckertimeout, config, c.target)
  }

  /** The run of the health-checker sub-command, if a URL was given (lines 205-224). */
  function HealthCheckCalls(c: Command, e: Env, config: Option<string>): seq<Invocation> {
    if c.healthcheckerurl.Some? then [Invocation(HealthChecker(c, config), HealthChecker(c, config) in e.throwing)] else []
  }

  /** The run of enable-http-lb-server, if its property is set (lines 225-240). */
  function EnableServerCalls(c: Command, e: Env): seq<Invocation> {
    if e.allInstancesProperty then [Invocation(EnableServer(c.target), EnableServer(c.target) in e.throwing)] else []
  }

  /** The runs of enable-http-lb-application, one per user application (lines 246-253). */
  function EnableAppsCalls(d: Domain, c: Command, e: Env): seq<Invocation>
    requires EnablesApps(d, c, e) ==> AllRegistered(d, AppRefsIn(d, c.target))
  {
    if EnablesApps(d, c, e) then EnableAppCalls(c.target, UserApps(d, AppRefsIn(d, c.target)), e.throwing) else []
  }

  /** The sub-command runs that follow createLBRef, in order. */
  function FollowOnCalls(d: Domain, c: Command, e: Env, config: Option<string>): seq<Invocation>
    requires EnablesApps(d, c, e) ==> AllRegistered(d, AppRefsIn(d, c.target))
  {
    HealthCheckCalls(c, e, config) + EnableServerCalls(c, e) + EnableAppsCalls(d, c, e)
  }

  /** The cluster-ref update at the end of the policy step: the first cluster-ref to
      the target in the lb-config gets the given policy fields. */
  function PolicyStep(s: State, c: Command, e: Env, config: string): (r: State)
    requires config in s.lbConfigs && GetRefByRef(s.lbConfigs[config], ClusterKind, c.target).Some?
    ensures r.invocations == s.invocations && OnlyConfigChanged(s, r, config)
  {
    UpdateClusterRef(s, config, GetRefByRef(s.lbConfigs[config], ClusterKind, c.target).value,
                     c.lbpolicy, c.lbpolicymodule, e.updateCommitFails)
  }

  /** execute. */
  function Execute(s: State, d: Domain, c: Command, e: Env): (r: State)
    requires ExecutePre(s, d, c, e)
    ensures r.lbConfigs.Keys == s.lbConfigs.Keys
    ensures forall k :: k in s.lbConfigs && (Validate(s, d, c).Some? || ResolveConfig(d, c) != Some(k)) ==>
              r.lbConfigs[k] == s.lbConfigs[k]
    ensures |s.invocations| <= |r.invocations| && r.invocations[..|s.invocations|] == s.invocations
  {
    match Validate(s, d, c)
    case Some(msg) => Fail(Started(s), msg)
    case None => Proceed(s, d, c, e)
  }

  /** Lines 205-256 of execute, from the state `s1` right after createLBRef: the
      follow-on sub-commands, then the policy step if it runs. */
  function FollowUp(s1: State, d: Domain, c: Command, e: Env, config: string): (r: State)
    requires EnablesApps(d, c, e) ==> AllRegistered(d, AppRefsIn(d, c.target))
    requires PolicyStepRuns(c, e) ==> config in s1.lbConfigs && GetRefByRef(s1.lbConfigs[config], ClusterKind, c.target).Some?
    ensures r.invocations == s1.invocations + FollowOnCalls(d, c, e, Some(config))
    ensures OnlyConfigChanged(s1, r, config)
    ensures r.report == if PolicyStepRuns(c, e) && e.updateCommitFails then Report(Failure, FailedToUpdateClusterRef)
                        else s1.report
  {
    var hc, es, apps := HealthCheckCalls(c, e, Some(config)), EnableServerCalls(c, e), EnableAppsCalls(d, c, e);
    ConcatAssoc(s1.invocations, hc, es);
    ConcatAssoc(s1.invocations, hc + es, apps);
    var s2 := s1.(invocations := s1.invocations + hc + es);
    if PolicyStepRuns(c, e) then PolicyStep(s2.(invocations := s2.invocations + apps), c, e, config)
    else assert apps == []; s2
  }

  /** The run after validation passed, with `config` resolved as line 168 does. */
  function Proceed(s: State, d: Domain, c: Command, e: Env): State
    requires ExecutePre(s, d, c, e) && Validate(s, d, c).None?
  {
    FollowUp(AfterCreate(s, d, c, e), d, c.(config := ResolveConfig(d, c)), e, ResolveConfig(d, c).value)
  }

  // ---------------------------------------------------------------------------
  // Validation: every rejection happens before anything is changed

  /** Each failed validation ends the command with FAILURE and its message and
      leaves the ref lists and the sub-command trace as they were. */
  lemma EarlyRejection(s: State, d: Domain, c: Command, e: Env)
    requires ExecutePre(s, d, c, e)
    ensures var r := Execute(s, d, c, e);
      (c.config.Some? && c.lbname.Some? ==> r == Fail(s, EitherConfigOrLBName)) &&
      (c.config.Some? && c.lbname.None? && c.config.value !in s.lbConfigs ==> r == Fail(s, LbConfigDoesNotExist)) &&
      (Validate(s, d, c).Some? ==> r.lbConfigs == s.lbConfigs && r.invocations == s.invocations
                                   && r.report.exitCode == Failure)
  {
  }

  /** Once the config checks pass, a policy or policy module given for a target that
      is not a cluster is refused with NotCluster before any reference is made. */
  lemma PolicyRequiresCluster(s: State, d: Domain, c: Command, e: Env)
    requires ExecutePre(s, d, c, e)
    requires !(c.config.Some? && c.lbname.Some?)
    requires c.config.Some? ==> c.config.value in s.lbConfigs
    requires PolicyGiven(c) && c.target !in d.targetClusters
    ensures Execute(s, d, c, e) == Fail(s, NotCluster)
  {
  }

  /** An unknown target is refused without any change: a name classified as a
      cluster that the domain does not define, or a server the domain does not have. */
  lemma UnknownTargetRejected(s: State, d: Domain, c: Command, e: Env)
    requires ExecutePre(s, d, c, e)
    requires !(c.config.Some? && c.lbname.Some?)
    requires c.config.Some? ==> c.config.value in s.lbConfigs
    requires !PolicyGiven(c) || c.target in d.targetClusters
    ensures c.target in d.targetClusters && c.target !in d.clusters ==> Execute(s, d, c, e) == Fail(s, ClusterNotDefined)
    ensures c.target !in d.targetClusters && c.target !in d.servers ==> Execute(s, d, c, e) == Fail(s, ServerNotDefined)
  {
  }

  /** Given only a load-balancer name, the reference is made in that load
      balancer's lb-config and no other lb-config changes. */
  lemma LbNameSelectsConfig(s: State, d: Domain, c: Command, e: Env)
    requires ExecutePre(s, d, c, e)
    requires c.config.None? && c.lbname.Some?
    ensures ResolveConfig(d, c) == Some(d.loadBalancers[c.lbname.value])
    ensures forall k :: k in s.lbConfigs && k != d.loadBalancers[c.lbname.value] ==>
              Execute(s, d, c, e).lbConfigs[k] == s.lbConfigs[k]
  {
  }

  // ---------------------------------------------------------------------------
  // The outcome of a run that passes validation

  /** The invocation trace after validation passes: createLBRef runs no sub-command,
      and the health checker, enable-http-lb-server and one
      enable-http-lb-application per user application follow, in that order. */
  lemma FollowOnOrder(s: State, d: Domain, c: Command, e: Env)
    requires ExecutePre(s, d, c, e) && Validate(s, d, c).None?
    ensures Execute(s, d, c, e).invocations == s.invocations + FollowOnCalls(d, c, e, ResolveConfig(d, c))
  {
    var config := ResolveConfig(d, c);
    var c' := c.(config := config);
    var s1 := AfterCreate(s, d, c, e);
    AfterCreateKeepsTrace(s, d, c, e);
    var hc, es, apps := HealthCheckCalls(c', e, config), EnableServerCalls(c', e), EnableAppsCalls(d, c', e);
    assert hc == HealthCheckCalls(c, e, config) && es == EnableServerCalls(c, e) && apps == EnableAppsCalls(d, c, e);
    var s2 := s1.(invocations := s1.invocations + hc + es);
    if PolicyStepRuns(c, e) {
      assert Execute(s, d, c, e) == PolicyStep(s2.(invocations := s2.invocations + apps), c', e, config.value);
    } else {
      assert Execute(s, d, c, e) == s2 && apps == [];
    }
    ConcatAssoc(s.invocations, hc, es);
    ConcatAssoc(s.invocations, hc + es, apps);
  }

  /** The exit code: SUCCESS exactly when validation passed, the target's reference
      is present afterwards, and no cluster-ref update was rejected. In this model,
      where sub-commands do not write to the shared report, failures of the
      health checker and of the enable sub-commands play no part. */
  lemma ExitCodeCharacterization(s: State, d: Domain, c: Command, e: Env)
    requires ExecutePre(s, d, c, e)
    ensures var r := Execute(s, d, c, e);
      r.report.exitCode == Success <==>
        Validate(s, d, c).None? &&
        GetRefByRef(r.lbConfigs[ResolveConfig(d, c).value], TargetKind(d, c.target), c.target).Some? &&
        !(PolicyStepRuns(c, e) && e.updateCommitFails)
  {
    if Validate(s, d, c).None? {
      var config := ResolveConfig(d, c).value;
      CreateLBRefOutcome(Started(s), d, c.target, config, e.createCommitFails);
      if PolicyStepRuns(c, e) {
        var s1 := AfterCreate(s, d, c, e);
        UpdateKeepsLookups(s1, config, GetRefByRef(s1.lbConfigs[config], ClusterKind, c.target).value,
                           c.lbpolicy, c.lbpolicymodule, e.updateCommitFails, TargetKind(d, c.target), c.target);
      }
    }
  }

  /** The steps after createLBRef change the report and the ref lists in the same way
      whichever sub-commands throw. */
  lemma FollowUpIgnoresThrowing(s1: State, d: Domain, c: Command, e: Env, config: string, throwing: set<SubCommand>)
    requires EnablesApps(d, c, e) ==> AllRegistered(d, AppRefsIn(d, c.target))
    requires PolicyStepRuns(c, e) ==> config in s1.lbConfigs && GetRefByRef(s1.lbConfigs[config], ClusterKind, c.target).Some?
    ensures FollowUp(s1, d, c, e.(throwing := throwing), config).report == FollowUp(s1, d, c, e, config).report
    ensures FollowUp(s1, d, c, e.(throwing := throwing), config).lbConfigs == FollowUp(s1, d, c, e, config).lbConfigs
  {
    if PolicyStepRuns(c, e) {
      var e' := e.(throwing := throwing);
      var i := GetRefByRef(s1.lbConfigs[config], ClusterKind, c.target).value;
      var a := s1.(invocations := s1.invocations + HealthCheckCalls(c, e, Some(config)) + EnableServerCalls(c, e)
                                                  + EnableAppsCalls(d, c, e));
      var b := s1.(invocations := s1.invocations + HealthCheckCalls(c, e', Some(config)) + EnableServerCalls(c, e')
                                                  + EnableAppsCalls(d, c, e'));
      assert FollowUp(s1, d, c, e, config) == UpdateClusterRef(a, config, i, c.lbpolicy, c.lbpolicymodule, e.updateCommitFails);
      assert FollowUp(s1, d, c, e', config) == UpdateClusterRef(b, config, i, c.lbpolicy, c.lbpolicymodule, e.updateCommitFails);
    }
  }

  /** Whether sub-commands throw changes neither the report nor any ref list: their
      CommandExceptions are only logged. */
  lemma SubCommandFailuresOnlyLogged(s: State, d: Domain, c: Command, e: Env, throwing: set<SubCommand>)
    requires ExecutePre(s, d, c, e)
    ensures ExecutePre(s, d, c, e.(throwing := throwing))
    ensures Execute(s, d, c, e.(throwing := throwing)).report == Execute(s, d, c, e).report
    ensures Execute(s, d, c, e.(throwing := throwing)).lbConfigs == Execute(s, d, c, e).lbConfigs
  {
    var e' := e.(throwing := throwing);
    if Validate(s, d, c).None? {
      var config := ResolveConfig(d, c);
      var c' := c.(config := config);
      var s1 := AfterCreate(s, d, c, e);
      assert AfterCreate(s, d, c, e') == s1;
      assert Execute(s, d, c, e) == FollowUp(s1, d, c', e, config.value);
      assert Execute(s, d, c, e') == FollowUp(s1, d, c', e', config.value);
      FollowUpIgnoresThrowing(s1, d, c', e, config.value, throwing);
    }
  }

  /** A failure inside createLBRef sets FAILURE but does not end the command: the
      health checker and enable-http-lb-server still run. */
  lemma CreateFailureDoesNotStopWorkflow(s: State, d: Domain, c: Command, e: Env)
    requires ExecutePre(s, d, c, e) && Validate(s, d, c).None?
    requires AfterCreate(s, d, c, e).report.exitCode == Failure
    ensures var r := Execute(s, d, c, e);
      r.report.exitCode == Failure &&
      (c.healthcheckerurl.Some? ==> Invocation(HealthChecker(c, ResolveConfig(d, c)), HealthChecker(c, ResolveConfig(d, c)) in e.throwing) in r.invocations) &&
      (e.allInstancesProperty ==> Invocation(EnableServer(c.target), EnableServer(c.target) in e.throwing) in r.invocations)
  {
    FollowOnOrder(s, d, c, e);
    var calls := FollowOnCalls(d, c, e, ResolveConfig(d, c));
    if c.healthcheckerurl.Some? {
      assert calls[0] == Invocation(HealthChecker(c, ResolveConfig(d, c)), HealthChecker(c, ResolveConfig(d, c)) in e.throwing);
      assert Execute(s, d, c, e).invocations[|s.invocations|] == calls[0];
    }
    if e.allInstancesProperty {
      var k := if c.healthcheckerurl.Some? then 1 else 0;
      assert calls[k] == Invocation(EnableServer(c.target), EnableServer(c.target) in e.throwing);
      assert Execute(s, d, c, e).invocations[|s.invocations| + k] == calls[k];
    }
  }

  /** A rejected cluster-ref update is reported as the command's failure, yet the
      reference made earlier stays in the lb-config. */
  lemma FatalPolicyUpdate(s: State, d: Domain, c: Command, e: Env)
    requires ExecutePre(s, d, c, e) && Validate(s, d, c).None?
    requires PolicyGiven(c) && e.updateCommitFails
    ensures var r := Execute(s, d, c, e);
      r.report == Report(Failure, FailedToUpdateClusterRef) &&
      GetRefByRef(r.lbConfigs[ResolveConfig(d, c).value], ClusterKind, c.target).Some?
  {
    var config := ResolveConfig(d, c).value;
    var s1 := AfterCreate(s, d, c, e);
    UpdateKeepsLookups(s1, config, GetRefByRef(s1.lbConfigs[config], ClusterKind, c.target).value,
                       c.lbpolicy, c.lbpolicymodule, e.updateCommitFails, ClusterKind, c.target);
  }

  /** The policy fields of the target's cluster-ref after a run with a policy step:
      each is set to the value given, if one was given and the update committed, and
      is otherwise left as it was. */
  lemma PolicyFieldsSet(s: State, d: Domain, c: Command, e: Env)
    requires ExecutePre(s, d, c, e) && Validate(s, d, c).None? && PolicyStepRuns(c, e)
    ensures var config := ResolveConfig(d, c).value;
      var before := AfterCreate(s, d, c, e).lbConfigs[config];
      var after := Execute(s, d, c, e).lbConfigs[config];
      var i := GetRefByRef(before, ClusterKind, c.target).value;
      |after| == |before| &&
      (forall j :: 0 <= j < |before| && j != i ==> after[j] == before[j]) &&
      after[i] == ClusterRef(c.target,
                             if c.lbpolicy.Some? && !e.updateCommitFails then c.lbpolicy else before[i].lbPolicy,
                             if c.lbpolicymodule.Some? && !e.updateCommitFails then c.lbpolicymodule else before[i].lbPolicyModule)
  {
  }

  // ---------------------------------------------------------------------------
  // Invariants and idempotence

  /** The configuration invariant of an lb-config: no duplicate references, and
      server-refs only to standalone instances. */
  predicate WellFormed(refs: seq<Ref>, d: Domain) {
    UniqueRefs(refs) && ServerRefsStandalone(refs, d)
  }

  /** execute keeps every lb-config well formed. */
  lemma ExecuteKeepsWellFormed(s: State, d: Domain, c: Command, e: Env)
    requires ExecutePre(s, d, c, e)
    requires forall k :: k in s.lbConfigs ==> WellFormed(s.lbConfigs[k], d)
    ensures var r := Execute(s, d, c, e);
      forall k :: k in r.lbConfigs ==> WellFormed(r.lbConfigs[k], d)
  {
    if Validate(s, d, c).None? {
      var config := ResolveConfig(d, c).value;
      var s0 := Started(s);
      CreateLBRefKeepsInvariant(s0, d, c.target, config, e.createCommitFails);
      if PolicyStepRuns(c, e) {
        var s1 := AfterCreate(s, d, c, e);
        UpdateKeepsInvariant(s1, d, config, GetRefByRef(s1.lbConfigs[config], ClusterKind, c.target).value,
                             c.lbpolicy, c.lbpolicymodule, e.updateCommitFails);
      }
    }
  }

  /** After a run whose createLBRef could commit, a second createLBRef with the same
      parameters passes validation and changes no ref list. */
  lemma SecondCreateChangesNothing(s: State, d: Domain, c: Command, e: Env)
    requires ExecutePre(s, d, c, e) && Validate(s, d, c).None? && !e.createCommitFails
    ensures var r := Execute(s, d, c, e);
      Validate(r, d, c).None? && AfterCreate(r, d, c, e).lbConfigs == r.lbConfigs
  {
    var r := Execute(s, d, c, e);
    var config := ResolveConfig(d, c).value;
    var s1 := AfterCreate(s, d, c, e);
    CreateLBRefCommitted(Started(s), d, c.target, config);
    var kind := TargetKind(d, c.target);
    assert GetRefByRef(r.lbConfigs[config], kind, c.target) == GetRefByRef(s1.lbConfigs[config], kind, c.target) by {
      if PolicyStepRuns(c, e) {
        UpdateKeepsLookups(s1, config, GetRefByRef(s1.lbConfigs[config], ClusterKind, c.target).value,
                           c.lbpolicy, c.lbpolicymodule, e.updateCommitFails, kind, c.target);
      }
    }
    CreateLBRefStable(Started(r), d, c.target, config, e.createCommitFails);
  }

  /** Running the same command twice with no rejected transaction leaves the ref
      lists exactly as the first run left them. */
  lemma ExecuteIdempotent(s: State, d: Domain, c: Command, e: Env)
    requires ExecutePre(s, d, c, e)
    requires !e.createCommitFails && !e.updateCommitFails
    ensures ExecutePre(Execute(s, d, c, e), d, c, e)
    ensures Execute(Execute(s, d, c, e), d, c, e).lbConfigs == Execute(s, d, c, e).lbConfigs
  {
    if Validate(s, d, c).None? {
      var r := Execute(s, d, c, e);
      var config := ResolveConfig(d, c).value;
      var c' := c.(config := Some(config));
      SecondCreateChangesNothing(s, d, c, e);
      var s1, t1 := AfterCreate(s, d, c, e), AfterCreate(r, d, c, e);
      var t2 := t1.(invocations := t1.invocations + HealthCheckCalls(c', e, Some(config)) + EnableServerCalls(c', e));
      if PolicyStepRuns(c, e) {
        var s2 := s1.(invocations := s1.invocations + HealthCheckCalls(c', e, Some(config)) + EnableServerCalls(c', e));
        var s3 := s2.(invocations := s2.invocations + EnableAppsCalls(d, c', e));
        var i := GetRefByRef(s3.lbConfigs[config], ClusterKind, c.target).value;
        assert r == UpdateClusterRef(s3, config, i, c.lbpolicy, c.lbpolicymodule, false);
        UpdateKeepsLookups(s3, config, i, c.lbpolicy, c.lbpolicymodule, false, ClusterKind, c.target);
        var t3 := t2.(invocations := t2.invocations + EnableAppsCalls(d, c', e));
        assert Execute(r, d, c, e) == UpdateClusterRef(t3, config, i, c.lbpolicy, c.lbpolicymodule, false);
        UpdateClusterRefIdempotent(s3, t3, config, i, c.lbpolicy, c.lbpolicymodule);
      } else {
        assert Execute(r, d, c, e) == t2;
      }
    }
  }

  // ---------------------------------------------------------------------------
  // A worked scenario

  /** An existing cluster `cluster1`, config `lb-config-1`, no policy, the enable-all-
      instances property set and no health-checker URL: one cluster-ref is appended,
      enable-http-lb-server runs once for the cluster, and the command succeeds. */
  lemma ClusterScenario(refs: seq<Ref>, report: Report, d: Domain, throwing: set<SubCommand>)
    requires "cluster1" in d.targetClusters && "cluster1" in d.clusters
    requires GetRefByRef(refs, ClusterKind, "cluster1").None?
    ensures var s := State(map["lb-config-1" := refs], report, []);
      var c := Command(Some("lb-config-1"), None, None, None, None, "30", "10", "cluster1");
      var e := Env(true, false, false, false, throwing);
      ExecutePre(s, d, c, e) &&
      Execute(s, d, c, e) ==
        State(map["lb-config-1" := refs + [ClusterRef("cluster1", None, None)]],
              report.(exitCode := Success),
              [Invocation(EnableServer("cluster1"), EnableServer("cluster1") in throwing)])
  {
    var s := State(map["lb-config-1" := refs], report, []);
    var c := Command(Some("lb-config-1"), None, None, None, None, "30", "10", "cluster1");
    var e := Env(true, false, false, false, throwing);
    assert Validate(s, d, c).None?;
    assert ExecutePre(s, d, c, e);
    var s1 := AfterCreate(s, d, c, e);
    assert s1 == State(map["lb-config-1" := refs + [ClusterRef("cluster1", None, None)]], report.(exitCode := Success), []);
    assert FollowOnCalls(d, c, e, Some("lb-config-1")) == [Invocation(EnableServer("cluster1"), EnableServer("cluster1") in throwing)];
  }
}
