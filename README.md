# eBPFConductor: workload cache, bpffs mount check and image-pull credentials, in Dafny

This project models three pieces of the eBPFConductor agent and of the bpflet CLI, and proves properties of them.

- **Workload-resolution cache** (`agent/src/managers/cache.rs`, module `Cache` in `cache.dfy`).
  - A pod resolves to the workload that owns it. The agent finds it by walking controller owner references through the ReplicaSet, Deployment, DaemonSet, StatefulSet, Job and CronJob stores.
  - The result is memoised in `pod_descriptors`.
  - Pod, node and service watch events write IP addresses into `ip_to_workload`.
  - The six stores are one map keyed by kind, namespace and name. The two caches are map fields of the class `CacheManager`. Each watch event is one method.
- **bpffs mount check** (`bpflet/src/cli/system.rs`, module `CliSystem` in `system.dfy`). `is_bpffs_mounted` scans the lines of /proc/mounts for bpflet's own bpf mount. It fails on a line that does not have six space-separated fields.
- **Image-pull request building** (`bpflet/src/cli/image.rs`, module `CliImage` in `image.dfy`). `BytecodeImage::try_from` parses the pull policy. It decodes the registry credentials and splits them at the first ':'. With no credentials, username and password default to "".

`wrappers.dfy` holds `Option`, `Result` and `unwrap_or_default` for strings.

The owner walk in `resolve_pod_descriptor` has no cycle guard, so the source never returns on a cyclic controller chain. The model's `ResolvePodDescriptor` therefore takes a ghost `bound`. On a cache miss it requires `WalkEnds(stores, pod, bound)`: the walk stops within `bound` further lookups. `ChainEndsIffWalkStops` shows what this condition means for the walk. `ReplicaSetDeploymentCycle` shows that some stores admit no bound at all. `ResolveBoundIrrelevant` shows that the bound never changes the answer.

## Model

| member | source | states |
|---|---|---|
| `Cache.FirstController` | agent/src/managers/cache.rs:104-109 | The result is None exactly when no reference is flagged `controller == Some(true)`. Otherwise it is the first flagged reference: flagged, and every earlier reference is not. |
| `Cache.KindOfSpec` | agent/src/managers/cache.rs:98-181 | Exactly the six names "ReplicaSet", "Deployment", "DaemonSet", "StatefulSet", "Job" and "CronJob" select a store. Any other kind string selects none. |
| `Cache.ControllerOfOwnerSpec` | agent/src/managers/cache.rs:93-183 | Any other owner kind gives None. An owner missing from its store gives None. Otherwise the owner is looked up by its name within the given namespace. The result is then Some exactly when that object has owner references and one of them is a controller, and it is the first such reference. |
| `Cache.ControllerOfOwnerIsLocal` | agent/src/managers/cache.rs:101-103 | Only the store entry with the owner's kind, the given namespace and the owner's name affects the answer. Two stores that agree on that entry give the same result. |
| `Cache.LastControllerAbove` | agent/src/managers/cache.rs:211-218 | The walk from an owner yields a last controller exactly when the owner has a controller of its own. That last controller has no controller of its own, so the walk stops at the first None. |
| `Cache.ChainEndsIffWalkStops` | agent/src/managers/cache.rs:211-218 | The termination bound holds for `fuel` exactly when `owner_ref` is None after `fuel + 1` turns of the loop. |
| `Cache.MutualControllersNeverEnd` | agent/src/managers/cache.rs:211-218 | Take two owners that are each other's controller. No bound exists for either one, so the loop without a cycle guard never ends. |
| `Cache.ReplicaSetDeploymentCycle` | agent/src/managers/cache.rs:211-218 | Concrete case: a ReplicaSet and a Deployment in "default" that control each other admit no bound. |
| `Cache.Resolve` | agent/src/managers/cache.rs:200-224 | The resolved workload's namespace is the pod's namespace, or "" when the pod has none, whatever the owners are. |
| `Cache.ResolveWithoutControllerOfOwner` | agent/src/managers/cache.rs:200-218 | If the walk never obtains a controller-of-owner, the result is `{pod name, namespace, "Pod"}`. This covers a pod whose own controller, e.g. a bare DaemonSet, has no controller. The direct controller's name and kind are never used. |
| `Cache.ResolveNamesLastController` | agent/src/managers/cache.rs:211-218 | Otherwise the name and kind come from the last non-None value of the walk. That value is reached after some k >= 1 turns, and the next turn gives None. |
| `Cache.ResolveBoundIrrelevant` | agent/src/managers/cache.rs:211-218 | Any two sufficient bounds give the same resolved workload. |
| `Cache.InsertAll` | agent/src/managers/cache.rs:250-254 | After the inserts, the keys are the old keys plus the inserted ones. Each inserted key maps to the new workload, overwriting what it held. Every other key keeps its old value. |
| `Cache.PodIpKeys` | agent/src/managers/cache.rs:250-259 | A pod event inserts exactly the IPs that are `Some`. `None` IPs are skipped. |
| `Cache.NodeAddressKeys` | agent/src/managers/cache.rs:288-297 | A node event inserts every address, in order. |
| `Cache.ClusterIpKeys` | agent/src/managers/cache.rs:324-338 | A service event inserts every cluster IP except the literal "None". |
| `Cache.PodEventEntries` | agent/src/managers/cache.rs:248-261 | After a pod event, each `Some` pod IP maps to the pod's entry. Every key not among the pod's IPs is unchanged. |
| `Cache.ServiceEventSkipsNone` | agent/src/managers/cache.rs:327-329 | A service event never adds or changes an entry for "None". |
| `Cache.CacheManager.constructor` | agent/src/managers/cache.rs:66-78 | Both caches start empty. The memo invariant `Valid` holds. |
| `Cache.CacheManager.ResolvePodDescriptor` | agent/src/managers/cache.rs:185-228 | On a cache hit, the stored entry is returned and `pod_descriptors` is unchanged. On a miss, the result is `Resolve` of the pod, and `pod_descriptors` gains exactly that one entry. The invariant holds that every memoised workload lies in its pod's namespace. |
| `Cache.CacheManager.OnPodApplied` | agent/src/managers/cache.rs:245-262 | The pod is resolved (memo hit or miss, as above). Then each of its `Some` IPs is mapped to the resolved entry. |
| `Cache.CacheManager.InsertPodIps` | agent/src/managers/cache.rs:248-261 | The IP table becomes the old table with each `Some` pod IP inserted, in order. |
| `Cache.CacheManager.OnNodeApplied` | agent/src/managers/cache.rs:284-300 | Every node address maps to `{node name, "node", "Node"}`. Other keys are unchanged. |
| `Cache.CacheManager.OnServiceApplied` | agent/src/managers/cache.rs:320-347 | Every cluster IP except "None" maps to `{service name, namespace or "", "Service"}`. Other keys are unchanged. |
| `CliSystem.Split` | bpflet/src/cli/system.rs:117 | Splitting on ' ' gives one more piece than there are spaces, so consecutive spaces give empty pieces. No piece contains a space. |
| `CliSystem.JoinSplit` | bpflet/src/cli/system.rs:117 | Joining the pieces with ' ' gives back the line. |
| `CliSystem.SplitJoin` | bpflet/src/cli/system.rs:117 | Pieces without spaces, joined by ' ', split back into the same pieces. |
| `CliSystem.IsBpffsMounted` | bpflet/src/cli/system.rs:111-129 | `Ok(true)` exactly when some line has "none", a field containing "bpflet" and "bpf" as its first three of six fields, and every earlier line has six fields. Later lines, even malformed ones, do not matter. `Ok(false)` exactly when every line has six fields and none matches, so also for no lines. The error exactly when a line without six fields comes before any match. |
| `CliImage.SplitOnce` | bpflet/src/cli/image.rs:29 | None exactly when there is no ':'. Otherwise the text equals before + ":" + after, and before holds no ':'. |
| `CliImage.SplitOnceRoundTrip` | bpflet/src/cli/image.rs:29-30 | Take `u + ":" + p` where `u` has no ':'. It splits into exactly `u` and `p`, even when `p` contains ':'. |
| `CliImage.DecodeCredentials` | bpflet/src/cli/image.rs:26-31 | A base64 failure gives an error, then a UTF-8 failure, then text without ':' (the `unwrap` panic). On success, the username is the text before the first ':' and the password is all of the text after it. |
| `CliImage.BytecodeImageFrom` | bpflet/src/cli/image.rs:23-41 | An unparsable pull policy fails before the credentials are considered. With no credentials, username and password are both `Some("")`. With credentials, it fails or succeeds exactly as the decoding does. On success, `url` is `image_url`, and username and password are always `Some`. |
| `CliImage.CredentialsRoundTrip` | bpflet/src/cli/image.rs:27-30 | Let the auth string be base64 of UTF-8 of `u + ":" + p`, with no ':' in `u`. Then the request carries username `u` and password `p`. This assumes base64 and UTF-8 decoding invert their encodings. |

## Left out

- Kube client, `watcher`/`reflector` streams, `Store` synchronisation, `tokio::spawn`, `wait_for_cache_sync`, `RwLock`/`Arc`: network I/O and concurrency. The stores are a field set at construction, and each event is one sequential method call.
- The read lock in `resolve_pod_descriptor` is released before the write lock is taken. Two concurrent misses can both walk and both insert. The model is sequential, so it does not capture this.
- `predicate_filter(predicates::resource_version)`: the model handles every event it is given, including unchanged resource versions.
- The `.modify(...)` closures that strip spec, managed fields and annotations, and the ReplicaSet, Deployment, DaemonSet, StatefulSet, Job and CronJob watchers, which only drain their streams. They change nothing the model reads.
- The `Err` arm of `watching_services` (agent/src/managers/cache.rs:339-342) is unreachable, because parsing a `String` into a `String` cannot fail. Cluster IPs are plain strings.
- Owner references carry only kind, name and the controller flag. Their `apiVersion`, `uid` and `blockOwnerDeletion` are never read.
- A pod's, node's or service's `name` is what `name_any()` yields. Its fallback to `generateName` is not modelled.
- Store objects are assumed namespaced: lookups use the pod's namespace or "".
- Cache.CacheManager.ResolvePodDescriptor: on a miss it requires a ghost bound on the walk. The source loops forever on a cyclic chain. The model cannot express that divergence, so it excludes those inputs. `MutualControllersNeverEnd` shows they exist.
- Cache.CacheManager.InsertPodIps: in the source this loop is inline in the pod watch loop. The model moves it into its own method with the same behaviour.
- `is_bpffs_mounted`: opening /proc/mounts and line-read errors (I/O, invalid UTF-8) are not modelled. The input is the sequence of lines already read.
- `execute_service` (runtime, logging, capabilities, `setrlimit`, directories, permissions, `serve`), `manage_journal_log_level` and `has_cap`: OS side effects, and log-level parsing in the `log` crate.
- CliImage.BytecodeImageFrom: the pull-policy conversion to the wire integer, standard base64 decoding and `String::from_utf8` are library code not shown here. They are parameters (partial functions returning `Option`). The panic of `unwrap` on credentials without ':' is modelled as the error `MissingColon`.
- `execute_pull` (a gRPC call), `bpflet/src/cli/mod.rs` (config file and socket selection), `bpflet/src/cli/list.rs` and `bpflet-cli/src/list.rs` (request building and table printing), `xtask/src/main.rs` (build task dispatch): I/O and plumbing around the modelled code.
