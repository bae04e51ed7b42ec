# create-http-lb-ref, modelled in Dafny

This project models GlassFish's `create-http-lb-ref` admin command. The command
adds a reference to a cluster or to a standalone server instance to a
load-balancer configuration (an *lb-config*).

The command works in this order:

1. It checks that `config` and `lbname` are not both given, and that a given
   `config` names an existing lb-config.
2. If only a load-balancer name was given, `config` becomes that load
   balancer's lb-config. This resolved lb-config is not checked (see
   "## Left out").
3. It accepts a load-balancing policy only for a cluster target, and then
   checks that the target exists as a cluster or as a server.
4. It appends a `cluster-ref` or a `server-ref` to the lb-config's ordered
   ref list, inside a configuration transaction. A target that already has a
   reference is left alone. A server that is not a standalone instance is
   refused.
5. It optionally runs the `create-http-health-checker` and
   `enable-http-lb-server` sub-commands.
6. If the enable-all-applications property is set, it runs
   `enable-http-lb-application` for every user application deployed to the
   target.
7. When that property is set or a policy was given, it sets the policy fields
   of the target's cluster-ref in a second transaction.

The model has two layers:

* **Specification functions.** `RefEdits` and `Workflow` describe every
  operation as a function from the state before it to the state after it.
  The state has three parts: the ref list of each lb-config, the action
  report, and the sequence of sub-commands run so far.
* **The command object.** `LbRefCommand.CreateHTTPLBRefCommand` is a class.
  Its fields are the command's parameters, the injected domain, and the state
  it changes. Its methods update those fields step by step, as the Java
  methods do. Each method is proved to end in the state the corresponding
  specification function gives.

The lemmas state what the command promises:

* every rejection happens before anything changes;
* which lb-config is edited, and that no other lb-config is;
* the order of the sub-commands;
* when the exit code is SUCCESS;
* that sub-command exceptions are only logged;
* that the configuration invariants are kept (no duplicate references, and
  server-refs only to standalone instances);
* that running the same command twice changes nothing more.

Files:

* `config_support.dfy`: the transaction, `ConfigSupport.apply` with a
  `SingleConfigCode`.
* `config_model.dfy`: refs, the domain, the report, the sub-command trace, and
  `getRefByRef`.
* `ref_edits.dfy`: `createLBRef`, `addClusterToLbConfig`,
  `addServerToLBConfig` and `updateClusterRef`.
* `workflow.dfy`: `execute`.
* `lb_ref_command.dfy`: the command class.

The file that defines `LbConfig.getRefByRef` is not part of this model. It is
modelled from its use here as "the first entry of the given class whose `ref`
is the name, or null". The same holds for `ConfigSupport.apply`, which is
modelled as an all-or-nothing edit that is either committed or fails with
`TransactionFailure`.

In the code, `execute` goes on after `createLBRef` whatever it reported: the
health checker and enable-http-lb-server still run
(`Workflow.CreateFailureDoesNotStopWorkflow`).

## Model

| member | source | states |
|---|---|---|
| ConfigModel.GetRefByRef | v3/load-balancer/admin/src/main/java/org/glassfish/loadbalancer/admin/cli/CreateHTTPLBRefCommand.java:286-290 | the lookup gives the position of a reference of the requested kind to the name with no earlier one, and gives none exactly when the list holds no such reference |
| ConfigModel.IsUserApp | v3/load-balancer/admin/src/main/java/org/glassfish/loadbalancer/admin/cli/CreateHTTPLBRefCommand.java:396-401 | holds exactly for an application whose object type is "user"; its partner ConfigModel.UserApps keeps exactly the application refs for which it holds, in order |
| ConfigModel.UniqueRefsCountAtMostOne | v3/load-balancer/admin/src/main/java/org/glassfish/loadbalancer/admin/cli/CreateHTTPLBRefCommand.java:327-331 | in a ref list without duplicate targets, any one target is referenced at most once |
| ConfigModel.UserApps | v3/load-balancer/admin/src/main/java/org/glassfish/loadbalancer/admin/cli/CreateHTTPLBRefCommand.java:246-252 | the applications the enabling loop passes on are exactly the target's application refs whose object type is "user" |
| ConfigModel.UserAppsAppend | v3/load-balancer/admin/src/main/java/org/glassfish/loadbalancer/admin/cli/CreateHTTPLBRefCommand.java:247-252 | the loop visits the application refs in order, so the user applications keep that order across any split of the list |
| RefEdits.AddClusterToLbConfig | v3/load-balancer/admin/src/main/java/org/glassfish/loadbalancer/admin/cli/CreateHTTPLBRefCommand.java:324-351 | only the named lb-config can change, and only by one appended cluster-ref without policy fields; the report stays as it was or says FailedToAddClusterRef; no sub-command runs |
| RefEdits.AddServerToLBConfig | v3/load-balancer/admin/src/main/java/org/glassfish/loadbalancer/admin/cli/CreateHTTPLBRefCommand.java:283-322 | only the named lb-config can change, and only by one appended server-ref to a standalone instance; the report stays as it was or says NotStandAloneInstance or FailedToAddServerRef |
| RefEdits.CreateLBRef | v3/load-balancer/admin/src/main/java/org/glassfish/loadbalancer/admin/cli/CreateHTTPLBRefCommand.java:259-281 | no lb-config other than the named one changes, the set of lb-configs stays the same, no sub-command runs, and the report either stays as it was or is a failure; a target that is neither a cluster nor a server ends in FAILURE with InvalidTarget and nothing else changes |
| RefEdits.UpdateClusterRef | v3/load-balancer/admin/src/main/java/org/glassfish/loadbalancer/admin/cli/CreateHTTPLBRefCommand.java:371-394 | only the cluster-ref at the given position changes; each policy field is overwritten only when a value was given and the commit succeeded; a rejected commit reports FailedToUpdateClusterRef |
| RefEdits.SetPolicyFields | v3/load-balancer/admin/src/main/java/org/glassfish/loadbalancer/admin/cli/CreateHTTPLBRefCommand.java:376-381 | the edit keeps the entry's target and kind, leaves a server-ref alone, sets each policy field that was given and keeps each field that was not |
| RefEdits.AppendLookup | v3/load-balancer/admin/src/main/java/org/glassfish/loadbalancer/admin/cli/CreateHTTPLBRefCommand.java:334-342 | after a reference is appended, a lookup finds an earlier match if there is one, otherwise the new entry at the old end of the list if it matches, otherwise nothing |
| RefEdits.LookupFollowsTargets | v3/load-balancer/admin/src/main/java/org/glassfish/loadbalancer/admin/cli/CreateHTTPLBRefCommand.java:254 | two lists that reference the same targets with the same kinds, position by position, give the same lookups and the same counts |
| RefEdits.UpdateKeepsLookups | v3/load-balancer/admin/src/main/java/org/glassfish/loadbalancer/admin/cli/CreateHTTPLBRefCommand.java:373-385 | setting policy fields never changes what any lookup in the lb-config finds |
| RefEdits.AddClusterRefOutcome | v3/load-balancer/admin/src/main/java/org/glassfish/loadbalancer/admin/cli/CreateHTTPLBRefCommand.java:324-351 | afterwards the cluster-ref is present unless it was missing and the commit was rejected; if it is absent, no ref list changed and the report says FailedToAddClusterRef |
| RefEdits.AddClusterRefIdempotent | v3/load-balancer/admin/src/main/java/org/glassfish/loadbalancer/admin/cli/CreateHTTPLBRefCommand.java:327-331 | a second call for the same cluster after a committed one changes nothing, whatever its own transaction would do |
| RefEdits.AddClusterTwiceLeavesOneRef | v3/load-balancer/admin/src/main/java/org/glassfish/loadbalancer/admin/cli/CreateHTTPLBRefCommand.java:324-351 | two calls for the same cluster on a duplicate-free list leave exactly one cluster-ref to it when the first commits |
| RefEdits.AppendKeepsUnique | v3/load-balancer/admin/src/main/java/org/glassfish/loadbalancer/admin/cli/CreateHTTPLBRefCommand.java:334-342 | appending a reference to a target the list does not reference keeps the list free of duplicates |
| RefEdits.AddClusterKeepsUnique | v3/load-balancer/admin/src/main/java/org/glassfish/loadbalancer/admin/cli/CreateHTTPLBRefCommand.java:324-351 | addClusterToLbConfig keeps the lb-config free of duplicate references |
| RefEdits.AddServerRefGuard | v3/load-balancer/admin/src/main/java/org/glassfish/loadbalancer/admin/cli/CreateHTTPLBRefCommand.java:292-301 | the ref lists change only by a committed server-ref to a standalone instance; a server that is not a standalone instance and has no server-ref yet is refused with NotStandAloneInstance and nothing changes |
| RefEdits.AddServerRefOutcome | v3/load-balancer/admin/src/main/java/org/glassfish/loadbalancer/admin/cli/CreateHTTPLBRefCommand.java:283-322 | afterwards the server-ref is present exactly when it was there before or the server is a standalone instance whose commit succeeded; if it is absent, no ref list changed and the report is a failure; a rejected commit for a standalone instance without a server-ref reports FailedToAddServerRef |
| RefEdits.AddServerRefIdempotent | v3/load-balancer/admin/src/main/java/org/glassfish/loadbalancer/admin/cli/CreateHTTPLBRefCommand.java:286-290 | a second call for the same standalone instance after a committed one changes nothing |
| RefEdits.AddServerKeepsInvariant | v3/load-balancer/admin/src/main/java/org/glassfish/loadbalancer/admin/cli/CreateHTTPLBRefCommand.java:283-322 | addServerToLBConfig keeps the lb-config free of duplicates, with every server-ref naming a standalone instance |
| RefEdits.CreateLBRefOutcome | v3/load-balancer/admin/src/main/java/org/glassfish/loadbalancer/admin/cli/CreateHTTPLBRefCommand.java:259-281 | for a known target, createLBRef leaves SUCCESS exactly when the target's reference of its kind is present afterwards, and a failure leaves every ref list as it was |
| RefEdits.CreateLBRefStable | v3/load-balancer/admin/src/main/java/org/glassfish/loadbalancer/admin/cli/CreateHTTPLBRefCommand.java:263-271 | createLBRef changes no ref list when the target's reference is already present, or when the target is a server that is not a standalone instance |
| RefEdits.CreateLBRefCommitted | v3/load-balancer/admin/src/main/java/org/glassfish/loadbalancer/admin/cli/CreateHTTPLBRefCommand.java:259-281 | with a committing transaction, the target is referenced afterwards, unless it is a server that is not a standalone instance |
| RefEdits.CreateLBRefKeepsInvariant | v3/load-balancer/admin/src/main/java/org/glassfish/loadbalancer/admin/cli/CreateHTTPLBRefCommand.java:259-281 | createLBRef keeps the lb-config free of duplicates, with every server-ref naming a standalone instance |
| RefEdits.SetPolicyFieldsIdempotent | v3/load-balancer/admin/src/main/java/org/glassfish/loadbalancer/admin/cli/CreateHTTPLBRefCommand.java:376-381 | applying the policy edit twice gives the same cluster-ref as applying it once |
| RefEdits.UpdateClusterRefIdempotent | v3/load-balancer/admin/src/main/java/org/glassfish/loadbalancer/admin/cli/CreateHTTPLBRefCommand.java:371-394 | repeating a committed policy update on the ref lists it produced changes nothing |
| RefEdits.UpdateKeepsInvariant | v3/load-balancer/admin/src/main/java/org/glassfish/loadbalancer/admin/cli/CreateHTTPLBRefCommand.java:371-394 | updateClusterRef keeps the lb-config free of duplicates, with every server-ref naming a standalone instance |
| Workflow.PolicyStep | v3/load-balancer/admin/src/main/java/org/glassfish/loadbalancer/admin/cli/CreateHTTPLBRefCommand.java:254-255 | the policy step runs no sub-command and changes no lb-config other than the resolved one |
| Workflow.Validate | v3/load-balancer/admin/src/main/java/org/glassfish/loadbalancer/admin/cli/CreateHTTPLBRefCommand.java:150-201 | validation passes exactly when config and lbname are not both given, a named lb-config exists, a policy comes only with a cluster target, and the target is a defined cluster or a known server; a rejection carries one of the five validation messages |
| Workflow.ResolveConfig | v3/load-balancer/admin/src/main/java/org/glassfish/loadbalancer/admin/cli/CreateHTTPLBRefCommand.java:166-169 | a given config is kept; with only a load-balancer name, that load balancer's lb-config is used; there is no config exactly when neither was given |
| Workflow.Started | v3/load-balancer/admin/src/main/java/org/glassfish/loadbalancer/admin/cli/CreateHTTPLBRefCommand.java:146 | the exit code becomes SUCCESS, and the message, the ref lists and the trace stay as they were |
| Workflow.FollowUp | v3/load-balancer/admin/src/main/java/org/glassfish/loadbalancer/admin/cli/CreateHTTPLBRefCommand.java:205-256 | the steps after createLBRef append the health checker, enable-http-lb-server and the user applications to the trace in that order, change no lb-config but the resolved one, and leave the report as it was unless a policy update is rejected |
| Workflow.Execute | v3/load-balancer/admin/src/main/java/org/glassfish/loadbalancer/admin/cli/CreateHTTPLBRefCommand.java:142-257 | the set of lb-configs stays the same; after a rejection no ref list changes, and otherwise only the resolved lb-config can; sub-commands are only appended to the trace |
| Workflow.EarlyRejection | v3/load-balancer/admin/src/main/java/org/glassfish/loadbalancer/admin/cli/CreateHTTPLBRefCommand.java:150-201 | giving both config and lbname, or naming a missing lb-config, ends with FAILURE and that message; every rejection leaves the ref lists and the trace untouched |
| Workflow.PolicyRequiresCluster | v3/load-balancer/admin/src/main/java/org/glassfish/loadbalancer/admin/cli/CreateHTTPLBRefCommand.java:171-179 | a policy or policy module for a target that is not a cluster is refused with NotCluster and nothing else changes |
| Workflow.UnknownTargetRejected | v3/load-balancer/admin/src/main/java/org/glassfish/loadbalancer/admin/cli/CreateHTTPLBRefCommand.java:181-201 | an undefined cluster is refused with ClusterNotDefined, and an unknown server with ServerNotDefined, without any change |
| Workflow.LbNameSelectsConfig | v3/load-balancer/admin/src/main/java/org/glassfish/loadbalancer/admin/cli/CreateHTTPLBRefCommand.java:166-169 | given only a load-balancer name, the load balancer's lb-config is used and no other lb-config changes |
| Workflow.FollowOnOrder | v3/load-balancer/admin/src/main/java/org/glassfish/loadbalancer/admin/cli/CreateHTTPLBRefCommand.java:203-253 | after validation the sub-commands run in this order: the health checker, enable-http-lb-server, then one enable-http-lb-application per user application |
| Workflow.ExitCodeCharacterization | v3/load-balancer/admin/src/main/java/org/glassfish/loadbalancer/admin/cli/CreateHTTPLBRefCommand.java:142-257 | the exit code is SUCCESS exactly when validation passed, the target's reference is present at the end, and no policy update was rejected; in this model the sub-commands play no part in it |
| Workflow.FollowUpIgnoresThrowing | v3/load-balancer/admin/src/main/java/org/glassfish/loadbalancer/admin/cli/CreateHTTPLBRefCommand.java:205-256 | in this model, where sub-commands do not write to the shared report, which sub-commands throw changes neither the report nor the ref lists the steps after createLBRef leave |
| Workflow.SubCommandFailuresOnlyLogged | v3/load-balancer/admin/src/main/java/org/glassfish/loadbalancer/admin/cli/CreateHTTPLBRefCommand.java:205-240 | in this model, where sub-commands do not write to the shared report, which sub-commands throw changes neither the report nor any ref list |
| Workflow.CreateFailureDoesNotStopWorkflow | v3/load-balancer/admin/src/main/java/org/glassfish/loadbalancer/admin/cli/CreateHTTPLBRefCommand.java:203-240 | a failed createLBRef leaves FAILURE, yet the health checker and enable-http-lb-server still run |
| Workflow.FatalPolicyUpdate | v3/load-balancer/admin/src/main/java/org/glassfish/loadbalancer/admin/cli/CreateHTTPLBRefCommand.java:386-393 | a rejected policy update is the command's reported failure, while the cluster-ref created earlier stays |
| Workflow.PolicyFieldsSet | v3/load-balancer/admin/src/main/java/org/glassfish/loadbalancer/admin/cli/CreateHTTPLBRefCommand.java:241-256 | after the policy step, the target's cluster-ref holds each given policy field if the update committed, keeps its old value otherwise, and no other entry changes |
| Workflow.ExecuteKeepsWellFormed | v3/load-balancer/admin/src/main/java/org/glassfish/loadbalancer/admin/cli/CreateHTTPLBRefCommand.java:142-257 | execute keeps every lb-config free of duplicates, with every server-ref naming a standalone instance |
| Workflow.SecondCreateChangesNothing | v3/load-balancer/admin/src/main/java/org/glassfish/loadbalancer/admin/cli/CreateHTTPLBRefCommand.java:204 | after a run whose transactions commit, the same parameters pass validation again and the second createLBRef changes no ref list |
| Workflow.ExecuteIdempotent | v3/load-balancer/admin/src/main/java/org/glassfish/loadbalancer/admin/cli/CreateHTTPLBRefCommand.java:142-257 | with committing transactions, a second run of the same command is possible and leaves the ref lists as the first run left them |
| Workflow.ClusterScenario | v3/load-balancer/admin/src/main/java/org/glassfish/loadbalancer/admin/cli/CreateHTTPLBRefCommand.java:142-257 | with an existing cluster, a named lb-config and the enable-all-instances property set: one cluster-ref is appended, enable-http-lb-server runs once, and the command succeeds |
| LbRefCommand.CreateHTTPLBRefCommand.constructor | v3/load-balancer/admin/src/main/java/org/glassfish/loadbalancer/admin/cli/CreateHTTPLBRefCommand.java:88-136 | the command starts with the given parameters, the injected domain, the context's report and an empty trace |
| LbRefCommand.CreateHTTPLBRefCommand.Execute | v3/load-balancer/admin/src/main/java/org/glassfish/loadbalancer/admin/cli/CreateHTTPLBRefCommand.java:142-257 | the new ref lists, report and trace are those of Workflow.Execute, and `config` holds the resolved lb-config name |
| LbRefCommand.CreateHTTPLBRefCommand.RunFollowOnSteps | v3/load-balancer/admin/src/main/java/org/glassfish/loadbalancer/admin/cli/CreateHTTPLBRefCommand.java:205-256 | the steps after createLBRef end in the state Workflow.FollowUp gives |
| LbRefCommand.CreateHTTPLBRefCommand.RunOptionalSubCommands | v3/load-balancer/admin/src/main/java/org/glassfish/loadbalancer/admin/cli/CreateHTTPLBRefCommand.java:205-240 | the health checker runs if a URL is given, then enable-http-lb-server if its property is set, and nothing else changes |
| LbRefCommand.CreateHTTPLBRefCommand.EnableAppsAndUpdateClusterRef | v3/load-balancer/admin/src/main/java/org/glassfish/loadbalancer/admin/cli/CreateHTTPLBRefCommand.java:241-256 | the user applications are enabled, then the target's first cluster-ref is updated, as Workflow.PolicyStep gives |
| LbRefCommand.CreateHTTPLBRefCommand.EnableUserApps | v3/load-balancer/admin/src/main/java/org/glassfish/loadbalancer/admin/cli/CreateHTTPLBRefCommand.java:246-253 | the loop appends one enable-http-lb-application run for each user application among the refs, in their order |
| LbRefCommand.CreateHTTPLBRefCommand.CreateLBRef | v3/load-balancer/admin/src/main/java/org/glassfish/loadbalancer/admin/cli/CreateHTTPLBRefCommand.java:259-281 | ends in the state RefEdits.CreateLBRef gives |
| LbRefCommand.CreateHTTPLBRefCommand.AddServerToLBConfig | v3/load-balancer/admin/src/main/java/org/glassfish/loadbalancer/admin/cli/CreateHTTPLBRefCommand.java:283-322 | ends in the state RefEdits.AddServerToLBConfig gives |
| LbRefCommand.CreateHTTPLBRefCommand.AddClusterToLbConfig | v3/load-balancer/admin/src/main/java/org/glassfish/loadbalancer/admin/cli/CreateHTTPLBRefCommand.java:324-351 | ends in the state RefEdits.AddClusterToLbConfig gives |
| LbRefCommand.CreateHTTPLBRefCommand.EnableApp | v3/load-balancer/admin/src/main/java/org/glassfish/loadbalancer/admin/cli/CreateHTTPLBRefCommand.java:353-369 | exactly one enable-http-lb-application run for the target and the application is added to the trace; its exception is only recorded |
| LbRefCommand.CreateHTTPLBRefCommand.RunSubCommand | v3/load-balancer/admin/src/main/java/org/glassfish/loadbalancer/admin/cli/CreateHTTPLBRefCommand.java:206-223 | a sub-command run is added to the trace with whether it threw; the report and the ref lists are untouched |
| LbRefCommand.CreateHTTPLBRefCommand.UpdateClusterRef | v3/load-balancer/admin/src/main/java/org/glassfish/loadbalancer/admin/cli/CreateHTTPLBRefCommand.java:371-394 | ends in the state RefEdits.UpdateClusterRef gives |

## Left out

- Logging and localized messages: the report keeps only the tag of each message. `setFailureCause` is not modelled.
- Sub-commands: `create-http-health-checker`, `enable-http-lb-server` and `enable-http-lb-application` appear only as entries in a trace, each recorded with whether it threw a CommandException. Their own effects are not modelled, including what they write to the shared report and the configuration they change. `checkCommandStatus` is inherited from `LBCommandsBase`, which is not part of this model; it is treated as part of the sub-command run.
- `Boolean.getBoolean(lbenableallinstances)` and `Boolean.getBoolean(lbenableallapplications)` read a JVM system property named by the parameter's value. The model takes the two results as booleans of the environment.
- `tgt.isCluster` (the Target service) is not part of this model. Its answer is the set `Domain.targetClusters`, kept apart from the clusters `getClusterNamed` finds, so the ClusterNotDefined branch can be reached. `domain.isServer` is modelled as "the name is a server of the domain".
- ConfigSupport.Apply: `ConfigSupport.apply` is not part of this model. Its stand-in only chooses between the committed edit and TransactionFailure, so its contract states no more than that; the all-or-nothing promise is proved where it is called (RefEdits.AddClusterRefOutcome, RefEdits.AddServerRefOutcome, RefEdits.UpdateClusterRef).
- Whether a transaction's commit is rejected is an input, one flag per apply site. Locking, concurrent edits and persistence of the configuration tree are not modelled.
- Parameter defaults come from the framework, not from the command (a health-checker URL of `/` with interval 30 and timeout 10). The model takes the health-checker URL as optional, as the `null` check on line 205 does.
- `lbweight` is declared but never read, so it is not modelled.
- A cluster-ref is identified by its position in the lb-config's ref list, not by object identity.
- Workflow.ExecutePre: paths on which the code dereferences null are excluded by this precondition instead of being modelled as exceptions. These paths are an unknown load-balancer name (line 167); a missing lb-config once validation has passed, including neither config nor lbname given (lines 244, 284, 325); an application id with no application (line 397); and a policy step with no cluster-ref to the target, which happens when the target is a server or createLBRef failed (lines 254-255).
- `EjbTimerService` is a declarative configuration-bean interface: its defaults and bounds are enforced by the framework, so there is no logic in it to model.
