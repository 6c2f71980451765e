/**
 * The decision helpers of the Huawei Cloud load-balancer provider
 * (pkg/cloudprovider/huaweicloud/loadbalancer.go): the health-check port
 * lookup, the canonical and legacy listener names, the session-affinity
 * switch and the node backend-eligibility check, with the constants and
 * enumerations they rely on.
 */
module HuaweiCloud {
  import opened Wrappers
  import opened CoreV1
  import opened Strings

  /** Annotation whose value selects session affinity. */
  const ELBSessionAffinityMode: string := "kubernetes.io/session-affinity-mode"

  /** The one annotation value that turns source-IP session affinity on. */
  const ELBSessionSourceIP: string := "SOURCE_IP"

  /** Reserved name of the controller-managed health-check port. */
  const HealthzCCE: string := "cce-healthz"

  /** Balancing algorithm of the provider configuration. */
  datatype ELBAlgorithm = ELBAlgorithmRR | ELBAlgorithmLC | ELBAlgorithmSRC {
    /** The string the Go constant carries. */
    function Literal(): string {
      match this
      case ELBAlgorithmRR => "roundrobin"
      case ELBAlgorithmLC => "leastconn"
      case ELBAlgorithmSRC => "source"
    }
  }

  /** The three algorithm constants carry three different strings. */
  lemma AlgorithmLiteralsDistinct(a: ELBAlgorithm, b: ELBAlgorithm)
    ensures a.Literal() == b.Literal() <==> a == b
  {
  }

  /** The load-balancer variant a service needs; the Go type is an `int` enumeration. */
  datatype LoadBalanceVersion = VersionNotNeedLB | VersionELB | VersionALB | VersionNAT {
    /** The integer the `iota` declaration gives each variant. */
    function Ordinal(): (n: nat)
      ensures n < 4
      ensures n == 0 <==> this == VersionNotNeedLB
    {
      match this
      case VersionNotNeedLB => 0
      case VersionELB => 1
      case VersionALB => 2
      case VersionNAT => 3
    }
  }

  /** The four variants carry four different `iota` values, so together with `n < 4` they are exactly 0 to 3. */
  lemma OrdinalDistinct(a: LoadBalanceVersion, b: LoadBalanceVersion)
    ensures a.Ordinal() == b.Ordinal() <==> a == b
  {
  }

  /** Provider configuration: plain data, loaded and parsed outside this model. */
  datatype LoadBalancerOpts = LoadBalancerOpts(
    apiserver: string,
    secretName: string,
    signerType: string,
    elbAlgorithm: ELBAlgorithm,
    tenantId: string,
    region: string,
    vpcId: string,
    subnetId: string,
    ecsEndpoint: string,
    elbEndpoint: string,
    albEndpoint: string,
    natEndpoint: string,
    vpcEndpoint: string)

  // ---------------------------------------------------------------------------
  // Health-check port

  /** `ports[k]` is the first port called `name`. */
  ghost predicate IsFirstNamed(ports: seq<ServicePort>, k: int, name: string) {
    && 0 <= k < |ports|
    && ports[k].name == name
    && forall j :: 0 <= j < k ==> ports[j].name != name
  }

  /** At most one index is the first port with a given name. */
  lemma FirstNamedUnique(ports: seq<ServicePort>, k1: int, k2: int, name: string)
    requires IsFirstNamed(ports, k1, name) && IsFirstNamed(ports, k2, name)
    ensures k1 == k2
  {
  }

  /**
   * Scans the service's ports in declaration order and returns the first one
   * named `HealthzCCE`, or `None` when no port has that name.
   */
  method GetHealthCheckPort(service: Service) returns (r: Option<ServicePort>)
    ensures r.None? <==> forall i :: 0 <= i < |service.ports| ==> service.ports[i].name != HealthzCCE
    ensures r.Some? ==> exists k :: IsFirstNamed(service.ports, k, HealthzCCE) && service.ports[k] == r.value
  {
    var i := 0;
    while i < |service.ports|
      invariant 0 <= i <= |service.ports|
      invariant forall j :: 0 <= j < i ==> service.ports[j].name != HealthzCCE
    {
      var port := service.ports[i];
      if port.name == HealthzCCE {
        assert IsFirstNamed(service.ports, i, HealthzCCE);
        return Some(port);
      }
      i := i + 1;
    }
    return None;
  }

  // ---------------------------------------------------------------------------
  // Listener names

  /** The canonical listener name: the service UID, untransformed. */
  function GetListenerName(service: Service): (r: string)
    ensures r == service.uid
  {
    service.uid
  }

  /** Services with the same UID share their listener, and only they do. */
  lemma ListenerNameIsIdentity(s1: Service, s2: Service)
    ensures GetListenerName(s1) == GetListenerName(s2) <==> s1.uid == s2.uid
  {
  }

  /**
   * The legacy listener name, kept to find listeners of older controller
   * versions: name, `_`, UID, with every `.` turned into `_`.
   */
  function GetOldListenerName(service: Service): (r: string)
    ensures |r| == |service.name| + 1 + |service.uid|
    ensures '.' !in r
    ensures forall i :: 0 <= i < |r| ==>
      var raw := service.name + "_" + service.uid;
      r[i] == if raw[i] == '.' then '_' else raw[i]
  {
    ReplaceAllRemoves(service.name + "_" + service.uid, '.', '_');
    ReplaceAll(service.name + "_" + service.uid, '.', '_')
  }

  /** Sanitising the legacy name once more leaves it unchanged. */
  lemma OldListenerNameSanitised(service: Service)
    ensures ReplaceAll(GetOldListenerName(service), '.', '_') == GetOldListenerName(service)
  {
  }

  /**
   * The legacy name is the sanitised service name, `_`, and the sanitised
   * canonical name; so for a UID without `.` it ends in the canonical name.
   */
  lemma OldListenerNameSplits(service: Service)
    ensures GetOldListenerName(service)
      == ReplaceAll(service.name, '.', '_') + "_" + ReplaceAll(GetListenerName(service), '.', '_')
    ensures '.' !in service.uid ==>
      GetOldListenerName(service)[|service.name| + 1..] == GetListenerName(service)
  {
    ReplaceAllAppend(service.name + "_", service.uid, '.', '_');
    ReplaceAllAppend(service.name, "_", '.', '_');
    assert ReplaceAll("_", '.', '_') == "_";
    if '.' !in service.uid {
      ReplaceAllAbsent(service.uid, '.', '_');
    }
  }

  /** A name and a UID that both hold dots. */
  lemma OldListenerNameExample()
    ensures GetOldListenerName(Service("my.svc", "abc.123", map[], [])) == "my_svc_abc_123"
  {
  }

  // ---------------------------------------------------------------------------
  // Session affinity

  /**
   * Source-IP session affinity is on exactly when the affinity annotation is
   * present and equals `ELBSessionSourceIP`, compared case-sensitively.
   */
  function GetSessionAffinity(service: Service): (r: bool)
    ensures r <==> ELBSessionAffinityMode in service.annotations
                   && service.annotations[ELBSessionAffinityMode] == ELBSessionSourceIP
  {
    Lookup(service.annotations, ELBSessionAffinityMode) == ELBSessionSourceIP
  }

  /** A wrong-case value, an empty value and a missing key all leave affinity off. */
  lemma SessionAffinityExamples(ports: seq<ServicePort>)
    ensures GetSessionAffinity(Service("s", "u", map[ELBSessionAffinityMode := "SOURCE_IP"], ports))
    ensures !GetSessionAffinity(Service("s", "u", map[ELBSessionAffinityMode := "source_ip"], ports))
    ensures !GetSessionAffinity(Service("s", "u", map[ELBSessionAffinityMode := ""], ports))
    ensures !GetSessionAffinity(Service("s", "u", map[], ports))
  {
  }

  // ---------------------------------------------------------------------------
  // Node backend eligibility

  /** `conditions[k]` is the last condition of type `t`. */
  ghost predicate IsLastOfType(conditions: seq<NodeCondition>, k: int, t: string) {
    && 0 <= k < |conditions|
    && conditions[k].condType == t
    && forall j :: k < j < |conditions| ==> conditions[j].condType != t
  }

  /** Position of the last condition of type `t`, if any: the reference for "last write wins". */
  function LastIndexOfType(conditions: seq<NodeCondition>, t: string): (r: Option<nat>)
    ensures r.None? <==> forall i :: 0 <= i < |conditions| ==> conditions[i].condType != t
    ensures r.Some? ==> IsLastOfType(conditions, r.value, t)
  {
    if conditions == [] then None
    else match LastIndexOfType(conditions[1..], t)
      case Some(k) => Some(k + 1)
      case None => if conditions[0].condType == t then Some(0) else None
  }

  /**
   * The map the Go loop builds: conditions inserted in order, keyed by type,
   * so a later condition overwrites an earlier one of the same type.
   */
  function ConditionMap(conditions: seq<NodeCondition>): map<string, NodeCondition>
  {
    if conditions == [] then map[]
    else
      var last := conditions[|conditions| - 1];
      ConditionMap(conditions[..|conditions| - 1])[last.condType := last]
  }

  /** Appending a condition makes it the last of its type and changes no other type. */
  lemma {:induction false} LastIndexOfTypeAppend(conditions: seq<NodeCondition>, c: NodeCondition, t: string)
    ensures LastIndexOfType(conditions + [c], t)
      == if c.condType == t then Some(|conditions|) else LastIndexOfType(conditions, t)
  {
    if conditions != [] {
      assert (conditions + [c])[1..] == conditions[1..] + [c];
      LastIndexOfTypeAppend(conditions[1..], c, t);
    }
  }

  /**
   * The folded map holds, for each type, exactly the last condition of that
   * type in the list, and no key for a type that does not occur.
   */
  lemma {:induction false} ConditionMapLastWins(conditions: seq<NodeCondition>, t: string)
    ensures t in ConditionMap(conditions) <==> LastIndexOfType(conditions, t).Some?
    ensures t in ConditionMap(conditions) ==>
      ConditionMap(conditions)[t] == conditions[LastIndexOfType(conditions, t).value]
  {
    if conditions != [] {
      var n := |conditions| - 1;
      var init, last := conditions[..n], conditions[n];
      assert conditions == init + [last];
      ConditionMapLastWins(init, t);
      LastIndexOfTypeAppend(init, last, t);
    }
  }

  /** The Ready verdict the source computes before the cordon override. */
  ghost predicate ReadyIsTrue(conditions: seq<NodeCondition>) {
    match LastIndexOfType(conditions, NodeReady)
    case Some(k) => conditions[k].status == ConditionTrue
    case None => false
  }

  /**
   * A node may back the load balancer exactly when its last `Ready` condition
   * has status `True` and it is not cordoned. The error result is always nil.
   */
  method CheckNodeHealth(node: Node) returns (healthy: bool, err: Option<string>)
    ensures healthy <==> ReadyIsTrue(node.conditions) && !node.unschedulable
    ensures node.unschedulable ==> !healthy
    ensures err == None
  {
    var conditionMap: map<string, NodeCondition> := map[];
    var i := 0;
    while i < |node.conditions|
      invariant 0 <= i <= |node.conditions|
      invariant conditionMap == ConditionMap(node.conditions[..i])
    {
      var cond := node.conditions[i];
      assert node.conditions[..i + 1][..i] == node.conditions[..i];
      conditionMap := conditionMap[cond.condType := cond];
      i := i + 1;
    }
    assert node.conditions[..i] == node.conditions;
    ConditionMapLastWins(node.conditions, NodeReady);

    var status := false;
    if NodeReady in conditionMap {
      var condition := conditionMap[NodeReady];
      if condition.status == ConditionTrue {
        status := true;
      } else {
        status := false;
      }
    }

    if node.unschedulable {
      status := false;
    }

    return status, None;
  }

  /** A ready node that is not cordoned is eligible; a missing, false or unknown Ready is not. */
  lemma NodeHealthExamples()
    ensures ReadyIsTrue([NodeCondition(NodeReady, ConditionTrue)])
    ensures !ReadyIsTrue([NodeCondition(NodeReady, "False")])
    ensures !ReadyIsTrue([NodeCondition("MemoryPressure", ConditionTrue)])
    ensures !ReadyIsTrue([NodeCondition(NodeReady, ConditionTrue), NodeCondition(NodeReady, "Unknown")])
    ensures ReadyIsTrue([NodeCondition(NodeReady, "False"), NodeCondition(NodeReady, ConditionTrue)])
  {
    assert "MemoryPressure"[0] != NodeReady[0];
    assert "False"[0] != ConditionTrue[0];
    assert "Unknown"[0] != ConditionTrue[0];
    var twice := [NodeCondition(NodeReady, ConditionTrue), NodeCondition(NodeReady, "Unknown")];
    assert LastIndexOfType(twice, NodeReady) == Some(1) by {
      assert twice[1..] == [NodeCondition(NodeReady, "Unknown")];
    }
  }
}
