/** The edits create-http-lb-ref makes to one lb-config: appending a cluster-ref or
    a server-ref (createLBRef, addClusterToLbConfig, addServerToLBConfig) and setting
    the policy fields of a cluster-ref (updateClusterRef). Each is a function of the
    state before it and of whether its transaction is rejected. */
module RefEdits {
  import opened ConfigModel
  import opened ConfigSupport

  /** The body of the apply closures at the two ref-creating sites: create the child
      and add it at the end of the ref list. */
  function AppendEdit(r: Ref): seq<Ref> -> seq<Ref> {
    refs => refs + [r]
  }

  /** The apply closure of updateClusterRef: each policy field is overwritten only
      when a value for it was supplied. */
  function SetPolicyFields(r: Ref, lbpolicy: Option<string>, lbpolicymodule: Option<string>): (r': Ref)
    ensures r'.ref == r.ref && KindOf(r') == KindOf(r)
    ensures r.ServerRef? ==> r' == r
    ensures r.ClusterRef? ==>
      (lbpolicy.Some? ==> r'.lbPolicy == lbpolicy) && (lbpolicy.None? ==> r'.lbPolicy == r.lbPolicy) &&
      (lbpolicymodule.Some? ==> r'.lbPolicyModule == lbpolicymodule) &&
      (lbpolicymodule.None? ==> r'.lbPolicyModule == r.lbPolicyModule)
  {
    match r
    case ClusterRef(name, policy, policyModule) =>
      ClusterRef(name,
                 if lbpolicy.Some? then lbpolicy else policy,
                 if lbpolicymodule.Some? then lbpolicymodule else policyModule)
    case ServerRef(_) => r
  }

  function PolicyEdit(lbpolicy: Option<string>, lbpolicymodule: Option<string>): Ref -> Ref {
    r => SetPolicyFields(r, lbpolicy, lbpolicymodule)
  }

  /** Only the ref list of `configName` may differ between `s` and `r`. */
  predicate OnlyConfigChanged(s: State, r: State, configName: string) {
    r.lbConfigs.Keys == s.lbConfigs.Keys &&
    forall k :: k in s.lbConfigs && k != configName ==> r.lbConfigs[k] == s.lbConfigs[k]
  }

  /** addClusterToLbConfig: an existing cluster-ref to `clusterName` makes the call a
      no-op; otherwise one new cluster-ref is appended in a transaction. */
  function AddClusterToLbConfig(s: State, configName: string, clusterName: string, commitFails: bool): (r: State)
    requires configName in s.lbConfigs
    ensures r.invocations == s.invocations && OnlyConfigChanged(s, r, configName)
    ensures r.lbConfigs[configName] == s.lbConfigs[configName]
         || r.lbConfigs[configName] == s.lbConfigs[configName] + [ClusterRef(clusterName, None, None)]
    ensures r.report == s.report || r.report == Report(Failure, FailedToAddClusterRef)
  {
    var refs := s.lbConfigs[configName];
    if GetRefByRef(refs, ClusterKind, clusterName).Some? then s
    else
      match Apply(refs, AppendEdit(ClusterRef(clusterName, None, None)), commitFails)
      case TransactionFailure => Fail(s, FailedToAddClusterRef)
      case Committed(refs') => s.(lbConfigs := s.lbConfigs[configName := refs'])
  }

  /** addServerToLBConfig: an existing server-ref to `serverName` makes the call a
      no-op; otherwise only a standalone instance is appended, in a transaction. */
  function AddServerToLBConfig(s: State, d: Domain, configName: string, serverName: string, commitFails: bool): (r: State)
    requires configName in s.lbConfigs && serverName in d.servers
    ensures r.invocations == s.invocations && OnlyConfigChanged(s, r, configName)
    ensures r.lbConfigs[configName] == s.lbConfigs[configName]
         || (r.lbConfigs[configName] == s.lbConfigs[configName] + [ServerRef(serverName)]
             && IsStandalone(d.servers[serverName]))
    ensures r.report in {s.report, Report(Failure, NotStandAloneInstance), Report(Failure, FailedToAddServerRef)}
  {
    var refs := s.lbConfigs[configName];
    if GetRefByRef(refs, ServerKind, serverName).Some? then s
    else if !IsStandalone(d.servers[serverName]) then Fail(s, NotStandAloneInstance)
    else
      match Apply(refs, AppendEdit(ServerRef(serverName)), commitFails)
      case TransactionFailure => Fail(s, FailedToAddServerRef)
      case Committed(refs') => s.(lbConfigs := s.lbConfigs[configName := refs'])
  }

  /** What createLBRef needs to avoid dereferencing a missing lb-config: a target it
      will add must come with the name of an existing lb-config. */
  predicate CreateLBRefPre(s: State, d: Domain, target: string, configName: Option<string>) {
    (target in d.targetClusters || target in d.servers) ==>
      configName.Some? && configName.value in s.lbConfigs
  }

  /** The kind of reference createLBRef makes for `target`. */
  function TargetKind(d: Domain, target: string): RefKind {
    if target in d.targetClusters then ClusterKind else ServerKind
  }

  /** createLBRef: a cluster target gets a cluster-ref, a server target a server-ref,
      anything else fails with InvalidTarget. */
  function CreateLBRef(s: State, d: Domain, target: string, configName: Option<string>, commitFails: bool): (r: State)
    requires CreateLBRefPre(s, d, target, configName)
    ensures r.invocations == s.invocations && r.lbConfigs.Keys == s.lbConfigs.Keys
    ensures forall k :: k in s.lbConfigs && configName != Some(k) ==> r.lbConfigs[k] == s.lbConfigs[k]
    ensures r.report == s.report || r.report.exitCode == Failure
    ensures target !in d.targetClusters && target !in d.servers ==> r == Fail(s, InvalidTarget)
  {
    if target in d.targetClusters then AddClusterToLbConfig(s, configName.value, target, commitFails)
    else if target in d.servers then AddServerToLBConfig(s, d, configName.value, target, commitFails)
    else Fail(s, InvalidTarget)
  }

  /** updateClusterRef on the cluster-ref at position `index` of `configName`. */
  function UpdateClusterRef(s: State, configName: string, index: nat, lbpolicy: Option<string>,
                            lbpolicymodule: Option<string>, commitFails: bool): (r: State)
    requires configName in s.lbConfigs && index < |s.lbConfigs[configName]|
    requires s.lbConfigs[configName][index].ClusterRef?
    ensures r.invocations == s.invocations && OnlyConfigChanged(s, r, configName)
    ensures |r.lbConfigs[configName]| == |s.lbConfigs[configName]|
    ensures forall j :: 0 <= j < |s.lbConfigs[configName]| && j != index ==>
              r.lbConfigs[configName][j] == s.lbConfigs[configName][j]
    ensures var before, after := s.lbConfigs[configName][index], r.lbConfigs[configName][index];
            after.ClusterRef? && after.ref == before.ref &&
            after.lbPolicy == (if lbpolicy.Some? && !commitFails then lbpolicy else before.lbPolicy) &&
            after.lbPolicyModule == (if lbpolicymodule.Some? && !commitFails then lbpolicymodule else before.lbPolicyModule)
    ensures r.report == if commitFails then Report(Failure, FailedToUpdateClusterRef) else s.report
  {
    var refs := s.lbConfigs[configName];
    match Apply(refs[index], PolicyEdit(lbpolicy, lbpolicymodule), commitFails)
    case TransactionFailure => Fail(s, FailedToUpdateClusterRef)
    case Committed(ref) => s.(lbConfigs := s.lbConfigs[configName := refs[index := ref]])
  }

  // ---------------------------------------------------------------------------
  // Lookups

  /** Appending a reference to a target the list does not yet reference makes the
      lookup find it at the old end of the list, and leaves other lookups alone. */
  lemma AppendLookup(refs: seq<Ref>, r: Ref, kind: RefKind, name: string)
    ensures GetRefByRef(refs + [r], kind, name) ==
      if GetRefByRef(refs, kind, name).Some? then GetRefByRef(refs, kind, name)
      else if IsRefTo(r, kind, name) then Some(|refs|)
      else None
  {
    var refs' := refs + [r];
    assert forall j :: 0 <= j < |refs| ==> refs'[j] == refs[j];
    assert refs'[|refs|] == r;
  }

  /** Two lists that reference the same targets position by position answer every
      lookup alike. */
  lemma {:induction false} LookupFollowsTargets(a: seq<Ref>, b: seq<Ref>, kind: RefKind, name: string)
    requires |a| == |b|
    requires forall j :: 0 <= j < |a| ==> a[j].ref == b[j].ref && KindOf(a[j]) == KindOf(b[j])
    ensures GetRefByRef(a, kind, name) == GetRefByRef(b, kind, name)
    ensures CountRefs(a, kind, name) == CountRefs(b, kind, name)
  {
    if a != [] {
      assert forall j :: 0 <= j < |a[1..]| ==> a[1..][j] == a[j + 1] && b[1..][j] == b[j + 1];
      LookupFollowsTargets(a[1..], b[1..], kind, name);
    }
  }

  /** Setting policy fields keeps every entry's kind and target, so every lookup in
      the updated lb-config gives the same answer as before. */
  lemma UpdateKeepsLookups(s: State, configName: string, index: nat, lbpolicy: Option<string>,
                           lbpolicymodule: Option<string>, commitFails: bool, kind: RefKind, name: string)
    requires configName in s.lbConfigs && index < |s.lbConfigs[configName]|
    requires s.lbConfigs[configName][index].ClusterRef?
    ensures var r := UpdateClusterRef(s, configName, index, lbpolicy, lbpolicymodule, commitFails);
      GetRefByRef(r.lbConfigs[configName], kind, name) == GetRefByRef(s.lbConfigs[configName], kind, name)
  {
    var r := UpdateClusterRef(s, configName, index, lbpolicy, lbpolicymodule, commitFails);
    LookupFollowsTargets(r.lbConfigs[configName], s.lbConfigs[configName], kind, name);
  }

  // ---------------------------------------------------------------------------
  // Adding a cluster-ref

  /** After addClusterToLbConfig the cluster-ref is present exactly when the call did
      not report a failure; a failure leaves every ref list as it was. */
  lemma AddClusterRefOutcome(s: State, configName: string, clusterName: string, commitFails: bool)
    requires configName in s.lbConfigs
    ensures var r := AddClusterToLbConfig(s, configName, clusterName, commitFails);
      (GetRefByRef(r.lbConfigs[configName], ClusterKind, clusterName).Some? <==>
         !(commitFails && GetRefByRef(s.lbConfigs[configName], ClusterKind, clusterName).None?)) &&
      (GetRefByRef(r.lbConfigs[configName], ClusterKind, clusterName).None? ==>
         r.lbConfigs == s.lbConfigs && r.report == Report(Failure, FailedToAddClusterRef))
  {
    AppendLookup(s.lbConfigs[configName], ClusterRef(clusterName, None, None), ClusterKind, clusterName);
  }

  /** A second addClusterToLbConfig for the same cluster after a successful one
      changes nothing, whatever its own transaction would do. */
  lemma AddClusterRefIdempotent(s: State, configName: string, clusterName: string, fails1: bool, fails2: bool)
    requires configName in s.lbConfigs
    requires !fails1
    ensures var once := AddClusterToLbConfig(s, configName, clusterName, fails1);
      AddClusterToLbConfig(once, configName, clusterName, fails2) == once
  {
    AddClusterRefOutcome(s, configName, clusterName, fails1);
  }

  /** Calling addClusterToLbConfig twice on a list without duplicates leaves exactly
      one cluster-ref to the cluster when the first call commits. */
  lemma AddClusterTwiceLeavesOneRef(s: State, configName: string, clusterName: string, fails1: bool, fails2: bool)
    requires configName in s.lbConfigs && UniqueRefs(s.lbConfigs[configName])
    requires !fails1
    ensures var twice := AddClusterToLbConfig(AddClusterToLbConfig(s, configName, clusterName, fails1),
                                              configName, clusterName, fails2);
      CountRefs(twice.lbConfigs[configName], ClusterKind, clusterName) == 1
  {
    var once := AddClusterToLbConfig(s, configName, clusterName, fails1);
    AddClusterRefIdempotent(s, configName, clusterName, fails1, fails2);
    AddClusterRefOutcome(s, configName, clusterName, fails1);
    AddClusterKeepsUnique(s, configName, clusterName, fails1);
    UniqueRefsCountAtMostOne(once.lbConfigs[configName], ClusterKind, clusterName);
  }

  /** Appending a reference to a target the list does not reference keeps the list
      free of duplicates. */
  lemma AppendKeepsUnique(refs: seq<Ref>, r: Ref)
    requires UniqueRefs(refs) && GetRefByRef(refs, KindOf(r), r.ref).None?
    ensures UniqueRefs(refs + [r])
  {
    var refs' := refs + [r];
    forall i, j | 0 <= i < j < |refs'| ensures !SameTarget(refs'[i], refs'[j]) {
      if j < |refs| {
        assert refs'[i] == refs[i] && refs'[j] == refs[j];
      } else {
        assert refs'[i] == refs[i] && refs'[j] == r;
        assert !IsRefTo(refs[i], KindOf(r), r.ref);
      }
    }
  }

  lemma AddClusterKeepsUnique(s: State, configName: string, clusterName: string, commitFails: bool)
    requires configName in s.lbConfigs && UniqueRefs(s.lbConfigs[configName])
    ensures UniqueRefs(AddClusterToLbConfig(s, configName, clusterName, commitFails).lbConfigs[configName])
  {
    var refs := s.lbConfigs[configName];
    if GetRefByRef(refs, ClusterKind, clusterName).None? && !commitFails {
      AppendKeepsUnique(refs, ClusterRef(clusterName, None, None));
    }
  }

  // ---------------------------------------------------------------------------
  // Adding a server-ref

  /** Every server-ref of the list names a standalone instance of the domain. */
  predicate ServerRefsStandalone(refs: seq<Ref>, d: Domain) {
    forall j :: 0 <= j < |refs| && refs[j].ServerRef? ==>
      refs[j].ref in d.servers && IsStandalone(d.servers[refs[j].ref])
  }

  /** addServerToLBConfig changes the ref list only by appending a server-ref to a
      standalone instance whose transaction committed; a server that is not a
      standalone instance and has no server-ref yet is refused with
      NotStandAloneInstance. */
  lemma AddServerRefGuard(s: State, d: Domain, configName: string, serverName: string, commitFails: bool)
    requires configName in s.lbConfigs && serverName in d.servers
    ensures var r := AddServerToLBConfig(s, d, configName, serverName, commitFails);
      (r.lbConfigs != s.lbConfigs ==>
         IsStandalone(d.servers[serverName]) && !commitFails &&
         r.lbConfigs[configName] == s.lbConfigs[configName] + [ServerRef(serverName)]) &&
      (GetRefByRef(s.lbConfigs[configName], ServerKind, serverName).None? && !IsStandalone(d.servers[serverName]) ==>
         r.lbConfigs == s.lbConfigs && r.report == Report(Failure, NotStandAloneInstance))
  {
    var r := AddServerToLBConfig(s, d, configName, serverName, commitFails);
    if r.lbConfigs != s.lbConfigs {
      assert r.lbConfigs[configName] != s.lbConfigs[configName];
    }
  }

  /** After addServerToLBConfig the server-ref is present exactly when the call did
      not report a failure; a failure leaves every ref list as it was. */
  lemma AddServerRefOutcome(s: State, d: Domain, configName: string, serverName: string, commitFails: bool)
    requires configName in s.lbConfigs && serverName in d.servers
    ensures var r := AddServerToLBConfig(s, d, configName, serverName, commitFails);
      (GetRefByRef(r.lbConfigs[configName], ServerKind, serverName).Some? <==>
         (GetRefByRef(s.lbConfigs[configName], ServerKind, serverName).Some? ||
          (IsStandalone(d.servers[serverName]) && !commitFails))) &&
      (GetRefByRef(r.lbConfigs[configName], ServerKind, serverName).None? ==>
         r.lbConfigs == s.lbConfigs && r.report.exitCode == Failure) &&
      (GetRefByRef(s.lbConfigs[configName], ServerKind, serverName).None? &&
       IsStandalone(d.servers[serverName]) && commitFails ==>
         r.report == Report(Failure, FailedToAddServerRef))
  {
    AppendLookup(s.lbConfigs[configName], ServerRef(serverName), ServerKind, serverName);
  }

  /** A second addServerToLBConfig for the same server after a successful one
      changes nothing. */
  lemma AddServerRefIdempotent(s: State, d: Domain, configName: string, serverName: string, fails1: bool, fails2: bool)
    requires configName in s.lbConfigs && serverName in d.servers
    requires IsStandalone(d.servers[serverName]) && !fails1
    ensures var once := AddServerToLBConfig(s, d, configName, serverName, fails1);
      AddServerToLBConfig(once, d, configName, serverName, fails2) == once
  {
    AddServerRefOutcome(s, d, configName, serverName, fails1);
  }

  /** addServerToLBConfig keeps a list free of duplicates and keeps every server-ref
      pointing at a standalone instance. */
  lemma AddServerKeepsInvariant(s: State, d: Domain, configName: string, serverName: string, commitFails: bool)
    requires configName in s.lbConfigs && serverName in d.servers
    requires UniqueRefs(s.lbConfigs[configName]) && ServerRefsStandalone(s.lbConfigs[configName], d)
    ensures var r := AddServerToLBConfig(s, d, configName, serverName, commitFails);
      UniqueRefs(r.lbConfigs[configName]) && ServerRefsStandalone(r.lbConfigs[configName], d)
  {
    var refs := s.lbConfigs[configName];
    if GetRefByRef(refs, ServerKind, serverName).None? && IsStandalone(d.servers[serverName]) && !commitFails {
      AppendKeepsUnique(refs, ServerRef(serverName));
      var refs' := refs + [ServerRef(serverName)];
      assert forall j :: 0 <= j < |refs| ==> refs'[j] == refs[j];
    }
  }

  // ---------------------------------------------------------------------------
  // createLBRef

  /** A target createLBRef accepts gets the reference of its kind exactly when the
      call reports no failure, and a reported failure leaves every ref list as it
      was. */
  lemma CreateLBRefOutcome(s: State, d: Domain, target: string, configName: string, commitFails: bool)
    requires target in d.targetClusters || target in d.servers
    requires configName in s.lbConfigs
    requires s.report.exitCode == Success
    ensures var r := CreateLBRef(s, d, target, Some(configName), commitFails);
      (r.report.exitCode == Success <==> GetRefByRef(r.lbConfigs[configName], TargetKind(d, target), target).Some?) &&
      (r.report.exitCode == Failure ==> r.lbConfigs == s.lbConfigs)
  {
    if target in d.targetClusters {
      AddClusterRefOutcome(s, configName, target, commitFails);
    } else {
      AddServerRefOutcome(s, d, configName, target, commitFails);
    }
  }

  /** createLBRef changes no ref list when the target's reference is already there,
      nor when the target is a server that is not a standalone instance. */
  lemma CreateLBRefStable(s: State, d: Domain, target: string, configName: string, commitFails: bool)
    requires configName in s.lbConfigs
    requires target in d.targetClusters || target in d.servers
    requires GetRefByRef(s.lbConfigs[configName], TargetKind(d, target), target).Some? ||
             (target !in d.targetClusters && !IsStandalone(d.servers[target]))
    ensures CreateLBRef(s, d, target, Some(configName), commitFails).lbConfigs == s.lbConfigs
  {
    if target !in d.targetClusters {
      AddServerRefGuard(s, d, configName, target, commitFails);
    }
  }

  /** With a committing transaction, createLBRef leaves the target referenced unless
      the target is a server that is not a standalone instance. */
  lemma CreateLBRefCommitted(s: State, d: Domain, target: string, configName: string)
    requires configName in s.lbConfigs
    requires target in d.targetClusters || target in d.servers
    ensures var r := CreateLBRef(s, d, target, Some(configName), false);
      GetRefByRef(r.lbConfigs[configName], TargetKind(d, target), target).Some? ||
      (target !in d.targetClusters && !IsStandalone(d.servers[target]))
  {
    if target in d.targetClusters {
      AppendLookup(s.lbConfigs[configName], ClusterRef(target, None, None), ClusterKind, target);
    } else {
      AddServerRefOutcome(s, d, configName, target, false);
    }
  }

  /** createLBRef keeps the lb-config free of duplicate references and keeps every
      server-ref pointing at a standalone instance. */
  lemma CreateLBRefKeepsInvariant(s: State, d: Domain, target: string, configName: string, commitFails: bool)
    requires configName in s.lbConfigs
    requires UniqueRefs(s.lbConfigs[configName]) && ServerRefsStandalone(s.lbConfigs[configName], d)
    ensures var r := CreateLBRef(s, d, target, Some(configName), commitFails);
      UniqueRefs(r.lbConfigs[configName]) && ServerRefsStandalone(r.lbConfigs[configName], d)
  {
    if target in d.targetClusters {
      AddClusterKeepsUnique(s, configName, target, commitFails);
      var refs := s.lbConfigs[configName];
      var refs' := refs + [ClusterRef(target, None, None)];
      assert forall j :: 0 <= j < |refs| ==> refs'[j] == refs[j];
    } else if target in d.servers {
      AddServerKeepsInvariant(s, d, configName, target, commitFails);
    }
  }

  // ---------------------------------------------------------------------------
  // updateClusterRef

  /** Setting the same policy fields a second time changes nothing. */
  lemma SetPolicyFieldsIdempotent(r: Ref, lbpolicy: Option<string>, lbpolicymodule: Option<string>)
    ensures SetPolicyFields(SetPolicyFields(r, lbpolicy, lbpolicymodule), lbpolicy, lbpolicymodule)
         == SetPolicyFields(r, lbpolicy, lbpolicymodule)
  {
  }

  /** A committed updateClusterRef repeated with the same policy fields, on any state
      holding the ref lists the first one left, changes no ref list. */
  lemma UpdateClusterRefIdempotent(s: State, t: State, configName: string, index: nat, lbpolicy: Option<string>,
                                   lbpolicymodule: Option<string>)
    requires configName in s.lbConfigs && index < |s.lbConfigs[configName]|
    requires s.lbConfigs[configName][index].ClusterRef?
    requires t.lbConfigs == UpdateClusterRef(s, configName, index, lbpolicy, lbpolicymodule, false).lbConfigs
    ensures UpdateClusterRef(t, configName, index, lbpolicy, lbpolicymodule, false).lbConfigs == t.lbConfigs
  {
    var refs := t.lbConfigs[configName];
    SetPolicyFieldsIdempotent(s.lbConfigs[configName][index], lbpolicy, lbpolicymodule);
    assert refs[index := SetPolicyFields(refs[index], lbpolicy, lbpolicymodule)] == refs;
  }

  /** updateClusterRef keeps the lb-config free of duplicate references and keeps
      every server-ref pointing at a standalone instance. */
  lemma UpdateKeepsInvariant(s: State, d: Domain, configName: string, index: nat, lbpolicy: Option<string>,
                             lbpolicymodule: Option<string>, commitFails: bool)
    requires configName in s.lbConfigs && index < |s.lbConfigs[configName]|
    requires s.lbConfigs[configName][index].ClusterRef?
    requires UniqueRefs(s.lbConfigs[configName]) && ServerRefsStandalone(s.lbConfigs[configName], d)
    ensures var r := UpdateClusterRef(s, configName, index, lbpolicy, lbpolicymodule, commitFails);
      UniqueRefs(r.lbConfigs[configName]) && ServerRefsStandalone(r.lbConfigs[configName], d)
  {
    var r := UpdateClusterRef(s, configName, index, lbpolicy, lbpolicymodule, commitFails);
    var a, b := s.lbConfigs[configName], r.lbConfigs[configName];
    assert forall j :: 0 <= j < |a| ==> b[j].ref == a[j].ref && KindOf(b[j]) == KindOf(a[j]);
    forall i, j | 0 <= i < j < |b| ensures !SameTarget(b[i], b[j]) {
      assert !SameTarget(a[i], a[j]);
    }
  }
}
