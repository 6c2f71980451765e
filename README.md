# Huawei Cloud load-balancer decision helpers, in Dafny

This project models the decision helpers of the Huawei Cloud cloud-provider for
Kubernetes, `pkg/cloudprovider/huaweicloud/loadbalancer.go`. A reconciler uses
them to map a Service or a Node onto a Huawei Cloud elastic load balancer (ELB):

- the health-check port lookup: the first Service port named `cce-healthz`;
- the canonical listener name (the Service UID) and the legacy listener name
  (`name + "_" + uid` with every `.` turned into `_`);
- the session-affinity switch: annotation `kubernetes.io/session-affinity-mode`
  equal to `SOURCE_IP`;
- node backend eligibility: the last `Ready` condition is `True` and the node is
  not cordoned. The error result is always nil.

The helpers use the constants `HealthzCCE`, `ELBSessionAffinityMode` and
`ELBSessionSourceIP` from this file, and `NodeReady` and `ConditionTrue` from the
Kubernetes API. The file also declares `ELBAlgorithm`, `LoadBalanceVersion` and
the `LoadBalancerOpts` record, which no helper reads. They are modelled as plain
data.

Files:

- `wrappers.dfy`: `Option`, which stands for a nil pointer or a nil error.
- `corev1.dfy`: the fields of the Kubernetes `v1.Service` and `v1.Node` that the
  helpers read, the constants `NodeReady` and `ConditionTrue`, and the Go
  map-read semantics, where a missing key reads as `""`.
- `strings.dfy`: `strings.Replace(s, old, new, -1)` for one-character `old`
  and `new`, with its properties.
- `loadbalancer.dfy`: the helpers themselves.

`GetHealthCheckPort` and `CheckNodeHealth` loop in the source. Here they are
methods with loop invariants. `CheckNodeHealth` builds the same
type-to-condition map as the Go loop, with the last write winning. It is proved
equal to an independent reference, `LastIndexOfType`. The function
`ConditionMap` states what the Go loop builds (lines 102-106). The loop invariant
ties the method's map to it. `ConditionMapLastWins` proves that its entry for
each type is the last condition of that type. The predicate `ReadyIsTrue` states
the verdict of lines 108-115 in terms of `LastIndexOfType`, and the method's
postcondition adds the cordon override. The other helpers are pure expressions
and are modelled as functions.

## Model

| member | source | states |
|---|---|---|
| HuaweiCloud.GetHealthCheckPort | pkg/cloudprovider/huaweicloud/loadbalancer.go:73-80 | The result is `None` exactly when no port is named `cce-healthz`. Otherwise it is the port at the lowest index with that name, and every earlier port has a different name. |
| HuaweiCloud.FirstNamedUnique | pkg/cloudprovider/huaweicloud/loadbalancer.go:73-78 | Only one index can be the first port with a given name, so the lookup's result is fully determined. |
| HuaweiCloud.GetListenerName | pkg/cloudprovider/huaweicloud/loadbalancer.go:82-84 | The canonical listener name is the Service UID, unchanged. |
| HuaweiCloud.ListenerNameIsIdentity | pkg/cloudprovider/huaweicloud/loadbalancer.go:82-84 | Two services get the same canonical listener name if and only if their UIDs are equal. |
| HuaweiCloud.GetOldListenerName | pkg/cloudprovider/huaweicloud/loadbalancer.go:86-91 | The legacy name has length `|name| + 1 + |uid|` and contains no `.`. At each position it equals `name + "_" + uid`, except that each `.` has become `_`. |
| HuaweiCloud.OldListenerNameSanitised | pkg/cloudprovider/huaweicloud/loadbalancer.go:89-91 | Replacing `.` by `_` in the legacy name again leaves it unchanged. |
| HuaweiCloud.OldListenerNameSplits | pkg/cloudprovider/huaweicloud/loadbalancer.go:82-91 | The legacy name is the sanitised service name, then `_`, then the sanitised canonical name. When the UID has no `.`, the legacy name ends with the canonical name. |
| HuaweiCloud.OldListenerNameExample | pkg/cloudprovider/huaweicloud/loadbalancer.go:89-91 | Name `my.svc` with UID `abc.123` gives `my_svc_abc_123`, so every `.` is replaced, not only the first. |
| Strings.ReplaceAll | pkg/cloudprovider/huaweicloud/loadbalancer.go:90 | The replace-all keeps the length. Each character equal to `from` becomes `to`, and every other character is kept in place. |
| Strings.ReplaceAllRemoves | pkg/cloudprovider/huaweicloud/loadbalancer.go:90 | When `from` differs from `to`, no `from` is left after the replacement. |
| Strings.ReplaceAllIdempotent | pkg/cloudprovider/huaweicloud/loadbalancer.go:90 | Applying the replacement twice gives the same result as applying it once. |
| Strings.ReplaceAllAbsent | pkg/cloudprovider/huaweicloud/loadbalancer.go:90 | A string that contains no `from` is returned unchanged. |
| Strings.ReplaceAllAppend | pkg/cloudprovider/huaweicloud/loadbalancer.go:90 | The replacement distributes over concatenation. |
| CoreV1.Lookup | pkg/cloudprovider/huaweicloud/loadbalancer.go:94 | Reading an annotation gives its value when the key is present and `""` when it is absent, as a Go map read does. |
| HuaweiCloud.GetSessionAffinity | pkg/cloudprovider/huaweicloud/loadbalancer.go:93-98 | Affinity is on if and only if the key `kubernetes.io/session-affinity-mode` is present and its value is exactly `SOURCE_IP`. |
| HuaweiCloud.SessionAffinityExamples | pkg/cloudprovider/huaweicloud/loadbalancer.go:93-98 | `SOURCE_IP` turns affinity on. `source_ip`, an empty value and a missing key all leave it off. |
| HuaweiCloud.LastIndexOfType | pkg/cloudprovider/huaweicloud/loadbalancer.go:102-109 | The reference for the last-write-wins policy. It is `None` exactly when no condition has the type. Otherwise it gives the index of a condition of that type with no later condition of the same type. |
| HuaweiCloud.LastIndexOfTypeAppend | pkg/cloudprovider/huaweicloud/loadbalancer.go:103-106 | Appending a condition makes it the last of its own type. It leaves the last condition of every other type where it was. |
| HuaweiCloud.ConditionMapLastWins | pkg/cloudprovider/huaweicloud/loadbalancer.go:102-106 | In the map built by inserting conditions in order, a type is a key exactly when some condition has that type. Its value is the last condition of that type. |
| HuaweiCloud.CheckNodeHealth | pkg/cloudprovider/huaweicloud/loadbalancer.go:101-122 | The node is eligible if and only if its last `Ready` condition has status `True` and it is not unschedulable. Unschedulable forces the result to false whatever the conditions say. The error is always nil. |
| HuaweiCloud.NodeHealthExamples | pkg/cloudprovider/huaweicloud/loadbalancer.go:108-115 | A `Ready` condition with status `True` counts as ready. `False`, no `Ready` condition, and a later `Unknown` after a `True` do not. A later `True` after a `False` does. |
| HuaweiCloud.LoadBalanceVersion.Ordinal | pkg/cloudprovider/huaweicloud/loadbalancer.go:64-71 | Every variant's `iota` value is below 4. Value 0 is exactly `VersionNotNeedLB`, the variant for a service that is not of type LoadBalancer. |
| HuaweiCloud.OrdinalDistinct | pkg/cloudprovider/huaweicloud/loadbalancer.go:66-71 | Two variants have the same `iota` value if and only if they are the same variant. With `Ordinal`'s bound, the four values are exactly 0 to 3. |
| HuaweiCloud.AlgorithmLiteralsDistinct | pkg/cloudprovider/huaweicloud/loadbalancer.go:55-62 | The three algorithm constants carry three distinct strings. |

## Left out

- Variant selection, which maps a Service type and the class annotation to a `LoadBalanceVersion`: the file declares only the enumeration and implements no selection, so only the datatype is modelled.
- The JSON tags of `LoadBalancerOpts` and the loading of the provider configuration: this is done elsewhere, and the record is kept as plain data.
- The constants `Ping`, `Pong`, `ListenerDescription` and `DefaultSessionAffinityTime`, and the annotation keys `kubernetes.io/elb.id`, `kubernetes.io/elb.class`, `kubernetes.io/elb.mark` and `kubernetes.io/elb.vpc.id`: none of the helpers reads them.
- The pointer that `GetHealthCheckPort` returns, which is the address of a loop-variable copy: the model returns the port's value in an `Option`.
- `ELBAlgorithm`: Go's string type also admits strings other than the three constants. The model keeps only the three named values.
- Strings.ReplaceAll: covers only a one-character search and replacement, the only form the file uses. It works on characters, not UTF-8 bytes. The two agree here because the byte of `.` never occurs inside a multi-byte sequence.
- `LoadBalanceVersion`: the Go type is an `int`, so values outside 0 to 3 are representable there. The model's closed four-constructor datatype cannot hold them.
- Nil arguments: every Go helper takes a `*v1.Service` or a `*v1.Node` and dereferences it, so a nil argument panics. The model passes values, so it has no nil case and no panic path.
- The Kubernetes API types: reduced to the fields read here. `NodeConditionType`, `ConditionStatus` and `UID` stay plain strings.
- The cloud API client, credentials, the Kubernetes client and the reconciliation loop: they are not part of this code and only do I/O.
