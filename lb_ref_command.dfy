/** The create-http-lb-ref admin command as an object: its parameters are fields,
    `config` among them is reassigned when only a load-balancer name is given, and
    its methods update the report, the lb-configs' ref lists and the trace of
    sub-commands step by step. Each method is proved to end in the state the
    corresponding function of RefEdits or Workflow describes. */
module LbRefCommand {
  import opened ConfigModel
  import opened ConfigSupport
  import RefEdits
  import Workflow

  class CreateHTTPLBRefCommand {
    // parameters
    var config: Option<string>
    const lbname: Option<string>
    const lbpolicy: Option<string>
    const lbpolicymodule: Option<string>
    const healthcheckerurl: Option<string>
    const healthcheckerinterval: string
    const healthcheckertimeout: string
    const target: string

    // the injected domain, the environment, and what the command changes
    const domain: Domain
    const env: Workflow.Env
    var lbConfigs: map<string, seq<Ref>>
    var report: Report
    var invocations: seq<Invocation>

    /** The command as the framework prepares it, with the action report of its context. */
    constructor (args: Workflow.Command, domain: Domain, env: Workflow.Env,
                 lbConfigs: map<string, seq<Ref>>, report: Report)
      ensures Args() == args && Snapshot() == State(lbConfigs, report, [])
      ensures this.domain == domain && this.env == env
    {
      config := args.config;
      lbname := args.lbname;
      lbpolicy := args.lbpolicy;
      lbpolicymodule := args.lbpolicymodule;
      healthcheckerurl := args.healthcheckerurl;
      healthcheckerinterval := args.healthcheckerinterval;
      healthcheckertimeout := args.healthcheckertimeout;
      target := args.target;
      this.domain := domain;
      this.env := env;
      this.lbConfigs := lbConfigs;
      this.report := report;
      invocations := [];
    }

    function Args(): Workflow.Command
      reads this
    {
      Workflow.Command(config, lbname, lbpolicy, lbpolicymodule, healthcheckerurl,
                       healthcheckerinterval, healthcheckertimeout, target)
    }

    function Snapshot(): State
      reads this
    {
      State(lbConfigs, report, invocations)
    }

    /** execute */
    method Execute()
      requires Workflow.ExecutePre(Snapshot(), domain, Args(), env)
      modifies this
      ensures Snapshot() == Workflow.Execute(old(Snapshot()), domain, old(Args()), env)
      ensures config == Workflow.ResolveConfig(domain, old(Args()))
    {
      ghost var s, args := Snapshot(), Args();
      report := report.(exitCode := Success);
      var isCluster := target in domain.targetClusters;

      if config.Some? && lbname.Some? {
        report := Report(Failure, EitherConfigOrLBName);
        return;
      }
      if config.Some? {
        if config.value !in lbConfigs {
          report := Report(Failure, LbConfigDoesNotExist);
          return;
        }
      } else if lbname.Some? {
        config := Some(domain.loadBalancers[lbname.value]);
      }

      if lbpolicy.Some? || lbpolicymodule.Some? {
        if !isCluster {
          report := Report(Failure, NotCluster);
          return;
        }
      }
      if isCluster {
        if target !in domain.clusters {
          report := Report(Failure, ClusterNotDefined);
          return;
        }
      } else {
        if target !in domain.servers {
          report := Report(Failure, ServerNotDefined);
          return;
        }
      }
      assert Workflow.Validate(s, domain, args).None?;
      assert Snapshot() == Workflow.Started(s);

      CreateLBRef(target, config);
      assert Snapshot() == Workflow.AfterCreate(s, domain, args, env);
      RunFollowOnSteps();
    }

    /** Lines 205-256 of execute, from the state right after createLBRef: the
        optional sub-commands, then the policy step. */
    method RunFollowOnSteps()
      requires config.Some?
      requires Workflow.EnablesApps(domain, Args(), env) ==> AllRegistered(domain, AppRefsIn(domain, target))
      requires Workflow.PolicyStepRuns(Args(), env) ==>
        config.value in lbConfigs && GetRefByRef(lbConfigs[config.value], ClusterKind, target).Some?
      modifies this`lbConfigs, this`report, this`invocations
      ensures Snapshot() == Workflow.FollowUp(old(Snapshot()), domain, Args(), env, config.value)
    {
      ghost var s1 := Snapshot();
      RunOptionalSubCommands();
      ghost var s2 := s1.(invocations := s1.invocations + Workflow.HealthCheckCalls(Args(), env, config)
                                                       + Workflow.EnableServerCalls(Args(), env));
      assert Snapshot() == s2;
      if env.allApplicationsProperty || lbpolicy.Some? || lbpolicymodule.Some? {
        EnableAppsAndUpdateClusterRef();
      }
    }

    /** Lines 205-240 of execute: the health checker when a URL is given, then
        enable-http-lb-server when the enable-all-instances property is set. */
    method RunOptionalSubCommands()
      modifies this`invocations
      ensures invocations == old(invocations) + Workflow.HealthCheckCalls(Args(), env, config)
                                              + Workflow.EnableServerCalls(Args(), env)
    {
      if healthcheckerurl.Some? {
        RunSubCommand(CreateHealthChecker(healthcheckerurl.value, healthcheckerinterval, healthcheckertimeout,
                                          config, target));
      }
      if env.allInstancesProperty {
        RunSubCommand(EnableServer(target));
      }
    }

    /** Lines 241-256 of execute: enable the target's user applications when the
        enable-all-applications property is set, then update the target's cluster-ref. */
    method EnableAppsAndUpdateClusterRef()
      requires config.Some? && config.value in lbConfigs
      requires Workflow.EnablesApps(domain, Args(), env) ==> AllRegistered(domain, AppRefsIn(domain, target))
      requires GetRefByRef(lbConfigs[config.value], ClusterKind, target).Some?
      modifies this`lbConfigs, this`report, this`invocations
      ensures var s := old(Snapshot());
        Snapshot() == Workflow.PolicyStep(
          s.(invocations := s.invocations + Workflow.EnableAppsCalls(domain, Args(), env)),
          Args(), env, config.value)
    {
      var appRefs := AppRefsIn(domain, target);
      if |appRefs| > 0 && env.allApplicationsProperty {
        EnableUserApps(appRefs);
      }
      var cRef := GetRefByRef(lbConfigs[config.value], ClusterKind, target);
      UpdateClusterRef(config.value, cRef.value);
    }

    /** The loop of lines 247-252: enable-http-lb-application runs for each user
        application among `appRefs`, in their order; other applications are skipped. */
    method EnableUserApps(appRefs: seq<string>)
      requires AllRegistered(domain, appRefs)
      modifies this`invocations
      ensures invocations == old(invocations) + EnableAppCalls(target, UserApps(domain, appRefs), env.throwing)
    {
      for i := 0 to |appRefs|
        invariant invocations == old(invocations) + EnableAppCalls(target, UserApps(domain, appRefs[..i]), env.throwing)
      {
        UserAppsStep(appRefs, i);
        // applications of any other object type are skipped
        if IsUserApp(domain, appRefs[i]) {
          EnableApp(appRefs[i]);
        }
      }
      assert appRefs[..|appRefs|] == appRefs;
    }

    /** One turn of the enabling loop extends the enabled applications by the
        application at `i` if it is a user application. */
    lemma UserAppsStep(appRefs: seq<string>, i: nat)
      requires i < |appRefs| && AllRegistered(domain, appRefs)
      ensures AllRegistered(domain, appRefs[..i + 1])
      ensures EnableAppCalls(target, UserApps(domain, appRefs[..i + 1]), env.throwing)
           == EnableAppCalls(target, UserApps(domain, appRefs[..i]), env.throwing) +
              (if IsUserApp(domain, appRefs[i])
               then [Invocation(EnableApplication(target, appRefs[i]), EnableApplication(target, appRefs[i]) in env.throwing)]
               else [])
    {
      assert appRefs[..i + 1] == appRefs[..i] + [appRefs[i]];
      UserAppsAppend(domain, appRefs[..i], [appRefs[i]]);
    }

    /** createLBRef */
    method CreateLBRef(targetName: string, configName: Option<string>)
      requires RefEdits.CreateLBRefPre(Snapshot(), domain, targetName, configName)
      modifies this`lbConfigs, this`report
      ensures Snapshot() == RefEdits.CreateLBRef(old(Snapshot()), domain, targetName, configName, env.createCommitFails)
    {
      if targetName in domain.targetClusters {
        AddClusterToLbConfig(configName.value, targetName);
      } else if targetName in domain.servers {
        AddServerToLBConfig(configName.value, targetName);
      } else {
        report := Report(Failure, InvalidTarget);
      }
    }

    /** addServerToLBConfig */
    method AddServerToLBConfig(configName: string, serverName: string)
      requires configName in lbConfigs && serverName in domain.servers
      modifies this`lbConfigs, this`report
      ensures Snapshot() == RefEdits.AddServerToLBConfig(old(Snapshot()), domain, configName, serverName, env.createCommitFails)
    {
      var lbConfig := lbConfigs[configName];
      var sRef := GetRefByRef(lbConfig, ServerKind, serverName);
      if sRef.Some? {
        // the server is referenced already: nothing to add
        return;
      }
      var server := domain.servers[serverName];
      var isStandAlone := server.cluster.None? && server.isInstance;
      if !isStandAlone {
        report := Report(Failure, NotStandAloneInstance);
        return;
      }
      var outcome := Apply(lbConfig, RefEdits.AppendEdit(ServerRef(serverName)), env.createCommitFails);
      if outcome.TransactionFailure? {
        report := Report(Failure, FailedToAddServerRef);
        return;
      }
      lbConfigs := lbConfigs[configName := outcome.node];
    }

    /** addClusterToLbConfig */
    method AddClusterToLbConfig(configName: string, clusterName: string)
      requires configName in lbConfigs
      modifies this`lbConfigs, this`report
      ensures Snapshot() == RefEdits.AddClusterToLbConfig(old(Snapshot()), configName, clusterName, env.createCommitFails)
    {
      var lbConfig := lbConfigs[configName];
      var cRef := GetRefByRef(lbConfig, ClusterKind, clusterName);
      if cRef.Some? {
        // the cluster is referenced already: nothing to add
        return;
      }
      var outcome := Apply(lbConfig, RefEdits.AppendEdit(ClusterRef(clusterName, None, None)), env.createCommitFails);
      if outcome.TransactionFailure? {
        report := Report(Failure, FailedToAddClusterRef);
        return;
      }
      lbConfigs := lbConfigs[configName := outcome.node];
    }

    /** enableApp */
    method EnableApp(appName: string)
      modifies this`invocations
      ensures invocations == old(invocations) + [Invocation(EnableApplication(target, appName),
                                                            EnableApplication(target, appName) in env.throwing)]
    {
      RunSubCommand(EnableApplication(target, appName));
    }

    /** Looks up and runs a sub-command against the shared report, then checks its
        status; a CommandException is caught and only logged. */
    method RunSubCommand(command: SubCommand)
      modifies this`invocations
      ensures invocations == old(invocations) + [Invocation(command, command in env.throwing)]
    {
      var threw := command in env.throwing;
      invocations := invocations + [Invocation(command, threw)];
    }

    /** updateClusterRef, on the cluster-ref at position `index` of `configName`. */
    method UpdateClusterRef(configName: string, index: nat)
      requires configName in lbConfigs && index < |lbConfigs[configName]|
      requires lbConfigs[configName][index].ClusterRef?
      modifies this`lbConfigs, this`report
      ensures Snapshot() == RefEdits.UpdateClusterRef(old(Snapshot()), configName, index, lbpolicy, lbpolicymodule,
                                                      env.updateCommitFails)
    {
      var refs := lbConfigs[configName];
      var outcome := Apply(refs[index], RefEdits.PolicyEdit(lbpolicy, lbpolicymodule), env.updateCommitFails);
      if outcome.TransactionFailure? {
        report := Report(Failure, FailedToUpdateClusterRef);
        return;
      }
      lbConfigs := lbConfigs[configName := refs[index := outcome.node]];
    }
  }
}
