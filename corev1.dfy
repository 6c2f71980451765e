/**
 * The few fields of the Kubernetes core/v1 API objects that the Huawei Cloud
 * load-balancer helpers read. Everything else on these objects is dropped.
 * Kubernetes' named string types (NodeConditionType, ConditionStatus, UID)
 * stay plain strings, so any value the API server may hand over is representable.
 */
module CoreV1 {

  /** `v1.NodeReady`: the condition type of a node's readiness. */
  const NodeReady: string := "Ready"

  /** `v1.ConditionTrue`: the status of a condition that holds. */
  const ConditionTrue: string := "True"

  /** One entry of `Service.Spec.Ports`; the health-check lookup reads only `name`. */
  datatype ServicePort = ServicePort(name: string, protocol: string, port: int, nodePort: int)

  /** A Service: `ObjectMeta.Name`, `ObjectMeta.UID`, `ObjectMeta.Annotations` and `Spec.Ports`. */
  datatype Service = Service(
    name: string,
    uid: string,
    annotations: map<string, string>,
    ports: seq<ServicePort>)

  /** One entry of `Node.Status.Conditions`: its `Type` and its `Status`. */
  datatype NodeCondition = NodeCondition(condType: string, status: string)

  /** A Node: `Status.Conditions` in API order and `Spec.Unschedulable` (cordoned). */
  datatype Node = Node(conditions: seq<NodeCondition>, unschedulable: bool)

  /**
   * Reading a key of a Go `map[string]string`: a missing key yields the zero
   * value, the empty string, never an error.
   */
  function Lookup(m: map<string, string>, key: string): (v: string)
    ensures key in m ==> v == m[key]
    ensures key !in m ==> v == ""
  {
    if key in m then m[key] else ""
  }
}
