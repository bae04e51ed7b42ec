/** The part of the domain configuration that create-http-lb-ref reads and edits:
    lb-configs with their ordered cluster-ref/server-ref lists, the clusters,
    servers, load balancers and application refs of the domain, the action report,
    and the trace of sub-commands the command runs. */
module ConfigModel {

  datatype Option<T> = None | Some(value: T)

  /** One entry of an lb-config's cluster-ref-or-server-ref list. A freshly created
      cluster-ref carries neither a policy nor a policy module. */
  datatype Ref =
    | ClusterRef(ref: string, lbPolicy: Option<string>, lbPolicyModule: Option<string>)
    | ServerRef(ref: string)

  /** The class argument given to getRefByRef. */
  datatype RefKind = ClusterKind | ServerKind

  function KindOf(r: Ref): RefKind {
    if r.ClusterRef? then ClusterKind else ServerKind
  }

  /** `r` is a reference of the given kind to the target `name`. */
  predicate IsRefTo(r: Ref, kind: RefKind, name: string) {
    r.ref == name && KindOf(r) == kind
  }

  /** Two entries reference the same target with the same kind of reference. */
  predicate SameTarget(a: Ref, b: Ref) {
    IsRefTo(b, KindOf(a), a.ref)
  }

  /** getRefByRef: the position of the first reference of `kind` to `name`,
      or None when the list holds no such reference. */
  function GetRefByRef(refs: seq<Ref>, kind: RefKind, name: string): (r: Option<nat>)
    ensures r.Some? ==> r.value < |refs| && IsRefTo(refs[r.value], kind, name)
    ensures r.Some? ==> forall j :: 0 <= j < r.value ==> !IsRefTo(refs[j], kind, name)
    ensures r.None? <==> forall j :: 0 <= j < |refs| ==> !IsRefTo(refs[j], kind, name)
  {
    if refs == [] then None
    else if IsRefTo(refs[0], kind, name) then Some(0)
    else
      match GetRefByRef(refs[1..], kind, name)
      case None =>
        assert forall j :: 1 <= j < |refs| ==> refs[j] == refs[1..][j - 1];
        None
      case Some(i) =>
        assert forall j :: 1 <= j <= i ==> refs[j] == refs[1..][j - 1];
        Some(i + 1)
  }

  /** How many references of `kind` to `name` the list holds. */
  function CountRefs(refs: seq<Ref>, kind: RefKind, name: string): (n: nat)
    ensures n <= |refs|
    ensures n == 0 <==> GetRefByRef(refs, kind, name).None?
  {
    if refs == [] then 0
    else (if IsRefTo(refs[0], kind, name) then 1 else 0) + CountRefs(refs[1..], kind, name)
  }

  /** The uniqueness the configuration schema expects of a ref list: no target is
      referenced twice with the same kind of reference. */
  predicate UniqueRefs(refs: seq<Ref>) {
    forall i, j :: 0 <= i < j < |refs| ==> !SameTarget(refs[i], refs[j])
  }

  /** A list without duplicate targets references any one target at most once. */
  lemma {:induction false} UniqueRefsCountAtMostOne(refs: seq<Ref>, kind: RefKind, name: string)
    requires UniqueRefs(refs)
    ensures CountRefs(refs, kind, name) <= 1
  {
    if refs != [] {
      assert UniqueRefs(refs[1..]) by {
        forall i, j | 0 <= i < j < |refs[1..]|
          ensures !SameTarget(refs[1..][i], refs[1..][j])
        {
          assert refs[1..][i] == refs[i + 1] && refs[1..][j] == refs[j + 1];
        }
      }
      UniqueRefsCountAtMostOne(refs[1..], kind, name);
      if IsRefTo(refs[0], kind, name) {
        forall j | 0 <= j < |refs[1..]| ensures !IsRefTo(refs[1..][j], kind, name) {
          assert refs[1..][j] == refs[j + 1];
          assert !SameTarget(refs[0], refs[j + 1]);
        }
      }
    }
  }

  /** The record of a server: the cluster it belongs to, if any, and whether it is
      an instance rather than the domain administration server. */
  datatype Server = Server(cluster: Option<string>, isInstance: bool)

  /** Only a standalone instance may be referenced by a server-ref. */
  predicate IsStandalone(s: Server) {
    s.cluster.None? && s.isInstance
  }

  /** The domain as the command sees it; this core never changes it. */
  datatype Domain = Domain(
    targetClusters: set<string>,         // the names the Target service classifies as clusters
    clusters: set<string>,               // the clusters getClusterNamed finds
    servers: map<string, Server>,        // the servers getServerNamed finds
    loadBalancers: map<string, string>,  // load-balancer name to the name of its lb-config
    appRefs: map<string, seq<string>>,   // target name to its application refs, in order
    objectTypes: map<string, string>)    // application name to its object-type

  /** getApplicationRefsInTarget: a target with no entry has no application refs. */
  function AppRefsIn(d: Domain, target: string): seq<string> {
    if target in d.appRefs then d.appRefs[target] else []
  }

  /** isUserApp: the application's object type is exactly "user". */
  predicate IsUserApp(d: Domain, id: string)
    requires id in d.objectTypes
  {
    d.objectTypes[id] == "user"
  }

  predicate AllRegistered(d: Domain, apps: seq<string>) {
    forall a :: a in apps ==> a in d.objectTypes
  }

  /** The application refs the enabling loop passes on, in their order. */
  function UserApps(d: Domain, apps: seq<string>): (r: seq<string>)
    requires AllRegistered(d, apps)
    ensures |r| <= |apps|
    ensures forall a :: a in r ==> a in apps && IsUserApp(d, a)
    ensures forall a :: a in apps && IsUserApp(d, a) ==> a in r
  {
    if apps == [] then []
    else (if IsUserApp(d, apps[0]) then [apps[0]] else []) + UserApps(d, apps[1..])
  }

  /** Filtering distributes over concatenation, so the user applications keep
      the order of the application refs. */
  lemma {:induction false} UserAppsAppend(d: Domain, a: seq<string>, b: seq<string>)
    requires AllRegistered(d, a) && AllRegistered(d, b)
    ensures AllRegistered(d, a + b)
    ensures UserApps(d, a + b) == UserApps(d, a) + UserApps(d, b)
  {
    if a == [] {
      assert a + b == b;
    } else {
      assert (a + b)[1..] == a[1..] + b;
      UserAppsAppend(d, a[1..], b);
    }
  }

  datatype ExitCode = Success | Failure

  /** The message of the action report, kept as the tag of the localized string. */
  datatype Msg =
    | NoMessage
    | EitherConfigOrLBName
    | LbConfigDoesNotExist
    | NotCluster
    | ClusterNotDefined
    | ServerNotDefined
    | InvalidTarget
    | NotStandAloneInstance
    | FailedToAddServerRef
    | FailedToAddClusterRef
    | FailedToUpdateClusterRef

  datatype Report = Report(exitCode: ExitCode, message: Msg)

  /** The sub-commands the command looks up and runs, with the fields it sets on them. */
  datatype SubCommand =
    | CreateHealthChecker(url: string, interval: string, timeout: string, config: Option<string>, target: string)
    | EnableServer(target: string)
    | EnableApplication(target: string, name: string)

  /** One sub-command run and whether it ended in a CommandException (logged only). */
  datatype Invocation = Invocation(command: SubCommand, threw: bool)

  /** What the command can change: the lb-configs' ref lists, the report, and the
      trace of sub-commands it has run. */
  datatype State = State(lbConfigs: map<string, seq<Ref>>, report: Report, invocations: seq<Invocation>)

  /** setActionExitCode(FAILURE) followed by setMessage(msg). */
  function Fail(s: State, msg: Msg): State {
    s.(report := Report(Failure, msg))
  }

  /** The runs of enable-http-lb-application for `apps`, one per application, in order. */
  function EnableAppCalls(target: string, apps: seq<string>, throwing: set<SubCommand>): (r: seq<Invocation>)
    ensures |r| == |apps|
    ensures forall i :: 0 <= i < |apps| ==> r[i].command == EnableApplication(target, apps[i])
  {
    seq(|apps|, i requires 0 <= i < |apps| =>
      Invocation(EnableApplication(target, apps[i]), EnableApplication(target, apps[i]) in throwing))
  }
}
