/**
  The agent's workload-resolution cache (agent/src/managers/cache.rs).

  A pod is resolved to the workload that owns it by walking controller owner
  references through six per-kind stores; the result is memoised per pod. Watch
  events for pods, nodes and services write their IP addresses into an
  IP-to-workload table. The kube client, watch streams, reflectors and locks are
  not modelled: the stores are a map, the two caches are fields of a class, and
  each watch event is one method call.
*/
module Cache {
  import opened Wrappers

  // ---------------------------------------------------------------------------
  // Data model
  // ---------------------------------------------------------------------------

  /** What a pod, node or service IP resolves to. */
  datatype Workload = Workload(name: string, namespace: string, kind: string)

  /** The fields of a Kubernetes owner reference that the cache reads. */
  datatype OwnerRef = OwnerRef(kind: string, name: string, controller: Option<bool>)

  /** The six kinds that have a store the owner walk consults. */
  datatype StoreKind = ReplicaSet | Deployment | DaemonSet | StatefulSet | Job | CronJob

  /** A store entry is addressed by its kind, its namespace and its name. */
  datatype StoreKey = StoreKey(kind: StoreKind, namespace: string, name: string)

  /** The part of a stored object's metadata the walk reads. */
  datatype ObjectMeta = ObjectMeta(ownerReferences: Option<seq<OwnerRef>>)

  /** The six reflector stores, merged into one map keyed by kind. */
  type Stores = map<StoreKey, ObjectMeta>

  datatype PodIp = PodIp(ip: Option<string>)
  datatype PodStatus = PodStatus(podIps: Option<seq<PodIp>>)
  /** A pod as the watcher delivers it; `name` is what `name_any()` yields. */
  datatype Pod = Pod(name: string, namespace: Option<string>, ownerReferences: Option<seq<OwnerRef>>,
                     status: Option<PodStatus>)

  /** The key of `pod_descriptors`: a pod's name and optional namespace. */
  datatype PodRef = PodRef(name: string, namespace: Option<string>)

  datatype NodeAddress = NodeAddress(address: string, addressType: string)
  datatype NodeStatus = NodeStatus(addresses: Option<seq<NodeAddress>>)
  datatype Node = Node(name: string, status: Option<NodeStatus>)

  datatype ServiceSpec = ServiceSpec(clusterIps: Option<seq<string>>)
  datatype Service = Service(name: string, namespace: Option<string>, spec: Option<ServiceSpec>)

  function PodKey(pod: Pod): PodRef
  {
    PodRef(pod.name, pod.namespace)
  }

  // ---------------------------------------------------------------------------
  // Controller of an owner
  // ---------------------------------------------------------------------------

  /** The Rust type name each store holds. */
  function KindName(k: StoreKind): string
  {
    match k
    case ReplicaSet => "ReplicaSet"
    case Deployment => "Deployment"
    case DaemonSet => "DaemonSet"
    case StatefulSet => "StatefulSet"
    case Job => "Job"
    case CronJob => "CronJob"
  }

  /** The store an owner reference's `kind` string selects, if any. */
  function KindOf(kind: string): Option<StoreKind>
  {
    if kind == "ReplicaSet" then Some(ReplicaSet)
    else if kind == "Deployment" then Some(Deployment)
    else if kind == "DaemonSet" then Some(DaemonSet)
    else if kind == "StatefulSet" then Some(StatefulSet)
    else if kind == "Job" then Some(Job)
    else if kind == "CronJob" then Some(CronJob)
    else None
  }

  /** `KindOf` recognises exactly the six store kinds' names, and nothing else. */
  lemma KindOfSpec(kind: string)
    ensures KindOf(kind).Some? ==> KindName(KindOf(kind).value) == kind
    ensures KindOf(kind).None? ==> forall sk: StoreKind :: KindName(sk) != kind
  {
  }

  predicate IsController(r: OwnerRef)
  {
    r.controller == Some(true)
  }

  /** `c` is the first reference in `refs` flagged as controller. */
  ghost predicate IsFirstController(refs: seq<OwnerRef>, c: OwnerRef)
  {
    exists i :: 0 <= i < |refs| && refs[i] == c && IsController(c) &&
      forall j :: 0 <= j < i ==> !IsController(refs[j])
  }

  /** The first owner reference whose controller flag is `Some(true)`. */
  function FirstController(refs: seq<OwnerRef>): (r: Option<OwnerRef>)
    ensures r.None? <==> forall i :: 0 <= i < |refs| ==> !IsController(refs[i])
    ensures r.Some? ==> IsFirstController(refs, r.value)
  {
    if refs == [] then None
    else if IsController(refs[0]) then Some(refs[0])
    else
      var r := FirstController(refs[1..]);
      assert r.Some? ==> IsFirstController(refs, r.value) by {
        if r.Some? {
          var i :| 0 <= i < |refs[1..]| && refs[1..][i] == r.value && IsController(r.value) &&
            forall j :: 0 <= j < i ==> !IsController(refs[1..][j]);
          assert refs[i + 1] == r.value;
          assert forall j :: 0 <= j < i + 1 ==> !IsController(refs[j]) by {
            forall j | 0 <= j < i + 1 ensures !IsController(refs[j]) {
              if j > 0 { assert refs[j] == refs[1..][j - 1]; }
            }
          }
        }
      }
      assert r.None? ==> forall i :: 0 <= i < |refs| ==> !IsController(refs[i]) by {
        if r.None? {
          forall i | 0 <= i < |refs| ensures !IsController(refs[i]) {
            if i > 0 { assert refs[i] == refs[1..][i - 1]; }
          }
        }
      }
      r
  }

  /** The controller reference among optional owner references. */
  function ControllerIn(refs: Option<seq<OwnerRef>>): Option<OwnerRef>
  {
    match refs
    case None => None
    case Some(rs) => FirstController(rs)
  }

  /**
    `get_controller_of_owner`: look the owner up, by its name within `namespace`,
    in the store of its kind and take that object's first controller reference.
  */
  function ControllerOfOwner(stores: Stores, owner: OwnerRef, namespace: string): Option<OwnerRef>
  {
    match KindOf(owner.kind)
    case None => None
    case Some(k) =>
      var key := StoreKey(k, namespace, owner.name);
      if key in stores then ControllerIn(stores[key].ownerReferences) else None
  }

  /**
    An owner of any other kind, or one missing from its store, has no controller;
    a stored one has a controller exactly when one of its owner references is
    flagged as controller, and then it is the first such reference.
  */
  lemma ControllerOfOwnerSpec(stores: Stores, owner: OwnerRef, namespace: string)
    ensures var r := ControllerOfOwner(stores, owner, namespace);
            && (KindOf(owner.kind).None? ==> r.None?)
            && (forall k :: KindOf(owner.kind) == Some(k) && StoreKey(k, namespace, owner.name) !in stores ==> r.None?)
            && (forall k :: KindOf(owner.kind) == Some(k) && StoreKey(k, namespace, owner.name) in stores ==>
                  var refs := stores[StoreKey(k, namespace, owner.name)].ownerReferences;
                  (r.Some? <==> refs.Some? && exists i :: 0 <= i < |refs.value| && IsController(refs.value[i])) &&
                  (r.Some? ==> IsFirstController(refs.value, r.value)))
  {
  }

  /** Only the one store entry the owner names can influence the answer. */
  lemma ControllerOfOwnerIsLocal(s1: Stores, s2: Stores, owner: OwnerRef, namespace: string)
    requires forall k :: KindOf(owner.kind) == Some(k) ==>
               var key := StoreKey(k, namespace, owner.name);
               (key in s1 <==> key in s2) && (key in s1 ==> s1[key] == s2[key])
    ensures ControllerOfOwner(s1, owner, namespace) == ControllerOfOwner(s2, owner, namespace)
  {
  }

  // ---------------------------------------------------------------------------
  // The owner walk
  // ---------------------------------------------------------------------------

  /**
    The walk that starts at `owner` meets an owner without a controller within
    `fuel` further lookups. The source loop has no cycle guard: on a cyclic chain
    it never ends, so callers must supply such a bound.
  */
  predicate ChainEnds(stores: Stores, namespace: string, owner: OwnerRef, fuel: nat)
    decreases fuel
  {
    match ControllerOfOwner(stores, owner, namespace)
    case None => true
    case Some(c) => fuel > 0 && ChainEnds(stores, namespace, c, fuel - 1)
  }

  /** The last controller obtained when walking up from `owner`, if any. */
  function LastControllerAbove(stores: Stores, namespace: string, owner: OwnerRef, fuel: nat): (r: Option<OwnerRef>)
    requires ChainEnds(stores, namespace, owner, fuel)
    ensures r.None? <==> ControllerOfOwner(stores, owner, namespace).None?
    ensures r.Some? ==> ControllerOfOwner(stores, r.value, namespace).None?
    decreases fuel
  {
    match ControllerOfOwner(stores, owner, namespace)
    case None => None
    case Some(c) =>
      var above := LastControllerAbove(stores, namespace, c, fuel - 1);
      if above.None? then Some(c) else above
  }

  /** The value `owner_ref` holds after `n` turns of the walk started at `start`. */
  function Iterate(stores: Stores, namespace: string, start: OwnerRef, n: nat): Option<OwnerRef>
  {
    if n == 0 then Some(start)
    else match Iterate(stores, namespace, start, n - 1)
      case None => None
      case Some(o) => ControllerOfOwner(stores, o, namespace)
  }

  /** One turn of the walk moves the start one step up the chain. */
  lemma {:induction false} IterateShift(stores: Stores, namespace: string, start: OwnerRef, c: OwnerRef, n: nat)
    requires ControllerOfOwner(stores, start, namespace) == Some(c)
    ensures Iterate(stores, namespace, start, n + 1) == Iterate(stores, namespace, c, n)
  {
    if n == 0 {
      assert Iterate(stores, namespace, start, 0) == Some(start);
    } else {
      IterateShift(stores, namespace, start, c, n - 1);
      assert Iterate(stores, namespace, start, n) == Iterate(stores, namespace, c, n - 1);
    }
  }

  /** `ChainEnds` holds exactly when the walk has reached None after `fuel + 1` turns. */
  lemma {:induction false} ChainEndsIffWalkStops(stores: Stores, namespace: string, owner: OwnerRef, fuel: nat)
    ensures ChainEnds(stores, namespace, owner, fuel) <==> Iterate(stores, namespace, owner, fuel + 1).None?
    decreases fuel
  {
    assert Iterate(stores, namespace, owner, 1) == ControllerOfOwner(stores, owner, namespace);
    match ControllerOfOwner(stores, owner, namespace)
    case None =>
      NoneStaysNone(stores, namespace, owner, 1, fuel + 1);
    case Some(c) =>
      if fuel > 0 {
        ChainEndsIffWalkStops(stores, namespace, c, fuel - 1);
        IterateShift(stores, namespace, owner, c, fuel);
      }
  }

  /** Once the walk has stopped it stays stopped. */
  lemma {:induction false} NoneStaysNone(stores: Stores, namespace: string, start: OwnerRef, m: nat, n: nat)
    requires m <= n
    requires Iterate(stores, namespace, start, m).None?
    ensures Iterate(stores, namespace, start, n).None?
    decreases n - m
  {
    if m < n {
      NoneStaysNone(stores, namespace, start, m + 1, n);
    }
  }

  /**
    The last controller is the final non-None value of the walk: it is reached
    after some `k >= 1` turns, and the turn after it yields None.
  */
  lemma {:induction false} LastControllerEndsWalk(stores: Stores, namespace: string, owner: OwnerRef, fuel: nat)
    requires ChainEnds(stores, namespace, owner, fuel)
    ensures var r := LastControllerAbove(stores, namespace, owner, fuel);
            r.Some? ==> exists k :: 1 <= k && Iterate(stores, namespace, owner, k) == r &&
                                    Iterate(stores, namespace, owner, k + 1).None?
    decreases fuel
  {
    match ControllerOfOwner(stores, owner, namespace)
    case None =>
    case Some(c) =>
      var above := LastControllerAbove(stores, namespace, c, fuel - 1);
      if above.None? {
        IterateShift(stores, namespace, owner, c, 0);
        IterateShift(stores, namespace, owner, c, 1);
        assert Iterate(stores, namespace, owner, 1) == Some(c);
        assert Iterate(stores, namespace, owner, 2).None?;
      } else {
        LastControllerEndsWalk(stores, namespace, c, fuel - 1);
        var k :| 1 <= k && Iterate(stores, namespace, c, k) == above && Iterate(stores, namespace, c, k + 1).None?;
        IterateShift(stores, namespace, owner, c, k);
        IterateShift(stores, namespace, owner, c, k + 1);
        assert Iterate(stores, namespace, owner, k + 1) == above;
      }
  }

  /** Any sufficient bound gives the same last controller. */
  lemma {:induction false} LastControllerBoundIrrelevant(stores: Stores, namespace: string, owner: OwnerRef, f1: nat, f2: nat)
    requires ChainEnds(stores, namespace, owner, f1)
    requires ChainEnds(stores, namespace, owner, f2)
    ensures LastControllerAbove(stores, namespace, owner, f1) == LastControllerAbove(stores, namespace, owner, f2)
    decreases f1
  {
    match ControllerOfOwner(stores, owner, namespace)
    case None =>
    case Some(c) =>
      LastControllerBoundIrrelevant(stores, namespace, c, f1 - 1, f2 - 1);
  }

  /** Two owners that are each other's controller make the walk run forever. */
  lemma {:induction false} MutualControllersNeverEnd(stores: Stores, namespace: string, a: OwnerRef, b: OwnerRef, fuel: nat)
    requires ControllerOfOwner(stores, a, namespace) == Some(b)
    requires ControllerOfOwner(stores, b, namespace) == Some(a)
    ensures !ChainEnds(stores, namespace, a, fuel) && !ChainEnds(stores, namespace, b, fuel)
    decreases fuel
  {
    if fuel > 0 {
      MutualControllersNeverEnd(stores, namespace, a, b, fuel - 1);
    }
  }

  /** A ReplicaSet and a Deployment in "default" that control each other: no bound exists. */
  lemma ReplicaSetDeploymentCycle(fuel: nat)
    ensures var rs := OwnerRef("ReplicaSet", "web", Some(true));
            var deploy := OwnerRef("Deployment", "web", Some(true));
            var stores := map[StoreKey(ReplicaSet, "default", "web") := ObjectMeta(Some([deploy])),
                              StoreKey(Deployment, "default", "web") := ObjectMeta(Some([rs]))];
            !ChainEnds(stores, "default", rs, fuel)
  {
    var rs := OwnerRef("ReplicaSet", "web", Some(true));
    var deploy := OwnerRef("Deployment", "web", Some(true));
    var stores := map[StoreKey(ReplicaSet, "default", "web") := ObjectMeta(Some([deploy])),
                      StoreKey(Deployment, "default", "web") := ObjectMeta(Some([rs]))];
    assert KindOf("ReplicaSet") == Some(ReplicaSet);
    assert KindOf("Deployment") == Some(Deployment);
    assert FirstController([deploy]) == Some(deploy);
    assert FirstController([rs]) == Some(rs);
    MutualControllersNeverEnd(stores, "default", rs, deploy, fuel);
  }

  // ---------------------------------------------------------------------------
  // Resolving a pod
  // ---------------------------------------------------------------------------

  /** The pod's own controller reference, where the walk starts. */
  function DirectController(pod: Pod): Option<OwnerRef>
  {
    ControllerIn(pod.ownerReferences)
  }

  /** The walk for `pod` ends within `bound` lookups after its first. */
  predicate WalkEnds(stores: Stores, pod: Pod, bound: nat)
  {
    match DirectController(pod)
    case None => true
    case Some(o) => ChainEnds(stores, UnwrapOrEmpty(pod.namespace), o, bound)
  }

  /**
    The workload the walk yields from a state where it holds `name` and `kind`
    and is about to look up `ownerRef` (None: the loop is done).
  */
  function WalkOutcome(stores: Stores, namespace: string, name: string, kind: string,
                       ownerRef: Option<OwnerRef>, fuel: nat): (w: Workload)
    requires ownerRef.Some? ==> ChainEnds(stores, namespace, ownerRef.value, fuel)
    ensures w.namespace == namespace
  {
    var last := if ownerRef.None? then None else LastControllerAbove(stores, namespace, ownerRef.value, fuel);
    match last
    case None => Workload(name, namespace, kind)
    case Some(c) => Workload(c.name, namespace, c.kind)
  }

  /** The workload a cache miss computes for `pod`. */
  function Resolve(stores: Stores, pod: Pod, bound: nat): (w: Workload)
    requires WalkEnds(stores, pod, bound)
    ensures pod.namespace.Some? ==> w.namespace == pod.namespace.value
    ensures pod.namespace.None? ==> w.namespace == ""
  {
    WalkOutcome(stores, UnwrapOrEmpty(pod.namespace), pod.name, "Pod", DirectController(pod), bound)
  }

  /**
    If no controller-of-owner is ever obtained (the pod has no controller, or its
    controller has none of its own, e.g. a bare DaemonSet), the pod stands for
    itself; its direct controller's name and kind are never used.
  */
  lemma ResolveWithoutControllerOfOwner(stores: Stores, pod: Pod, bound: nat)
    requires WalkEnds(stores, pod, bound)
    requires DirectController(pod).None? ||
             ControllerOfOwner(stores, DirectController(pod).value, UnwrapOrEmpty(pod.namespace)).None?
    ensures Resolve(stores, pod, bound) == Workload(pod.name, UnwrapOrEmpty(pod.namespace), "Pod")
  {
  }

  /**
    Otherwise the name and kind are those of the last non-None value the walk
    produces: the value after some `k >= 1` turns, whose successor is None.
  */
  lemma ResolveNamesLastController(stores: Stores, pod: Pod, bound: nat)
    requires WalkEnds(stores, pod, bound)
    requires DirectController(pod).Some?
    requires ControllerOfOwner(stores, DirectController(pod).value, UnwrapOrEmpty(pod.namespace)).Some?
    ensures var ns := UnwrapOrEmpty(pod.namespace);
            var o := DirectController(pod).value;
            var w := Resolve(stores, pod, bound);
            exists k :: 1 <= k && Iterate(stores, ns, o, k).Some? && Iterate(stores, ns, o, k + 1).None? &&
                        w == Workload(Iterate(stores, ns, o, k).value.name, ns, Iterate(stores, ns, o, k).value.kind)
  {
    LastControllerEndsWalk(stores, UnwrapOrEmpty(pod.namespace), DirectController(pod).value, bound);
  }

  /** The ghost bound only guarantees termination; it does not change the answer. */
  lemma ResolveBoundIrrelevant(stores: Stores, pod: Pod, b1: nat, b2: nat)
    requires WalkEnds(stores, pod, b1) && WalkEnds(stores, pod, b2)
    ensures Resolve(stores, pod, b1) == Resolve(stores, pod, b2)
  {
    if DirectController(pod).Some? {
      LastControllerBoundIrrelevant(stores, UnwrapOrEmpty(pod.namespace), DirectController(pod).value, b1, b2);
    }
  }

  // ---------------------------------------------------------------------------
  // IP table updates
  // ---------------------------------------------------------------------------

  /** Insert every key of `keys`, in order, mapping it to `w`. */
  function InsertAll(m: map<string, Workload>, keys: seq<string>, w: Workload): (r: map<string, Workload>)
    ensures forall k :: k in r <==> k in m || k in keys
    ensures forall k :: k in keys ==> r[k] == w
    ensures forall k :: k in m && k !in keys ==> r[k] == m[k]
    decreases |keys|
  {
    if keys == [] then m
    else
      var init := keys[..|keys| - 1];
      assert keys == init + [keys[|keys| - 1]];
      InsertAll(m, init, w)[keys[|keys| - 1] := w]
  }

  /** Inserting one more key is one more map update. */
  lemma InsertAllSnoc(m: map<string, Workload>, keys: seq<string>, k: string, w: Workload)
    ensures InsertAll(m, keys + [k], w) == InsertAll(m, keys, w)[k := w]
  {
    assert (keys + [k])[..|keys|] == keys;
  }

  /** The IPs a pod event inserts: its `Some` pod IPs, in order. */
  function PodIpKeys(ips: seq<PodIp>): (keys: seq<string>)
    ensures forall k :: k in keys <==> PodIp(Some(k)) in ips
    decreases |ips|
  {
    if ips == [] then []
    else
      var init := ips[..|ips| - 1];
      assert ips == init + [ips[|ips| - 1]];
      PodIpKeys(init) + (match ips[|ips| - 1].ip case Some(k) => [k] case None => [])
  }

  /** The addresses a node event inserts: all of them, in order. */
  /** Extending the examined prefix by one pod IP adds at most that IP. */
  lemma PodIpKeysStep(ips: seq<PodIp>, i: nat)
    requires i < |ips|
    ensures PodIpKeys(ips[..i + 1]) == PodIpKeys(ips[..i]) + (if ips[i].ip.Some? then [ips[i].ip.value] else [])
  {
    assert ips[..i + 1][..i] == ips[..i];
  }

  function NodeAddressKeys(addrs: seq<NodeAddress>): (keys: seq<string>)
    ensures |keys| == |addrs|
    ensures forall i :: 0 <= i < |addrs| ==> keys[i] == addrs[i].address
    decreases |addrs|
  {
    if addrs == [] then [] else NodeAddressKeys(addrs[..|addrs| - 1]) + [addrs[|addrs| - 1].address]
  }

  /** The cluster IPs a service event inserts: all but the literal "None", in order. */
  function ClusterIpKeys(ips: seq<string>): (keys: seq<string>)
    ensures forall k :: k in keys <==> k in ips && k != "None"
    decreases |ips|
  {
    if ips == [] then []
    else
      var init := ips[..|ips| - 1];
      assert ips == init + [ips[|ips| - 1]];
      ClusterIpKeys(init) + (if ips[|ips| - 1] == "None" then [] else [ips[|ips| - 1]])
  }

  /** Extending the examined prefix by one address adds that address. */
  lemma NodeAddressKeysStep(addrs: seq<NodeAddress>, i: nat)
    requires i < |addrs|
    ensures NodeAddressKeys(addrs[..i + 1]) == NodeAddressKeys(addrs[..i]) + [addrs[i].address]
  {
    assert addrs[..i + 1][..i] == addrs[..i];
  }

  /** Extending the examined prefix by one cluster IP adds it unless it is "None". */
  lemma ClusterIpKeysStep(ips: seq<string>, i: nat)
    requires i < |ips|
    ensures ClusterIpKeys(ips[..i + 1]) == ClusterIpKeys(ips[..i]) + (if ips[i] == "None" then [] else [ips[i]])
  {
    assert ips[..i + 1][..i] == ips[..i];
  }

  function PodIpsOf(pod: Pod): seq<PodIp>
  {
    if pod.status.Some? && pod.status.value.podIps.Some? then pod.status.value.podIps.value else []
  }

  function NodeAddressesOf(node: Node): seq<NodeAddress>
  {
    if node.status.Some? && node.status.value.addresses.Some? then node.status.value.addresses.value else []
  }

  function ClusterIpsOf(service: Service): seq<string>
  {
    if service.spec.Some? && service.spec.value.clusterIps.Some? then service.spec.value.clusterIps.value else []
  }

  /** What every address of a node maps to. */
  function NodeWorkload(node: Node): Workload
  {
    Workload(node.name, "node", "Node")
  }

  /** What every cluster IP of a service maps to. */
  function ServiceWorkload(service: Service): Workload
  {
    Workload(service.name, UnwrapOrEmpty(service.namespace), "Service")
  }

  /** A pod event's effect on the IP table, stated on the event itself. */
  lemma PodEventEntries(m: map<string, Workload>, pod: Pod, entry: Workload)
    ensures var r := InsertAll(m, PodIpKeys(PodIpsOf(pod)), entry);
            && (forall k :: PodIp(Some(k)) in PodIpsOf(pod) ==> k in r && r[k] == entry)
            && (forall k :: k in r && PodIp(Some(k)) !in PodIpsOf(pod) ==> k in m && r[k] == m[k])
  {
  }

  /** A service event never maps the literal "None", whatever the table held. */
  lemma ServiceEventSkipsNone(m: map<string, Workload>, service: Service)
    ensures var r := InsertAll(m, ClusterIpKeys(ClusterIpsOf(service)), ServiceWorkload(service));
            ("None" in r <==> "None" in m) && ("None" in m ==> r["None"] == m["None"])
  {
  }

  // ---------------------------------------------------------------------------
  // The cache manager
  // ---------------------------------------------------------------------------

  class CacheManager {
    /** The six per-kind stores, kept up to date by reflectors outside this model. */
    var stores: Stores
    var podDescriptors: map<PodRef, Workload>
    var ipToWorkload: map<string, Workload>

    /** Every memoised workload lies in the namespace of the pod it was resolved for. */
    ghost predicate Valid()
      reads this
    {
      forall p :: p in podDescriptors ==> podDescriptors[p].namespace == UnwrapOrEmpty(p.namespace)
    }

    constructor(stores: Stores)
      ensures Valid()
      ensures this.stores == stores && podDescriptors == map[] && ipToWorkload == map[]
    {
      this.stores := stores;
      podDescriptors := map[];
      ipToWorkload := map[];
    }

    /**
      `resolve_pod_descriptor`: return the memoised workload on a hit; on a miss,
      walk the controller chain and memoise the result. `bound` is a ghost
      witness that the walk ends.
    */
    method ResolvePodDescriptor(pod: Pod, ghost bound: nat) returns (entry: Workload)
      requires Valid()
      requires PodKey(pod) in podDescriptors || WalkEnds(stores, pod, bound)
      modifies this`podDescriptors
      ensures Valid()
      ensures PodKey(pod) in old(podDescriptors) ==>
                entry == old(podDescriptors)[PodKey(pod)] && podDescriptors == old(podDescriptors)
      ensures PodKey(pod) !in old(podDescriptors) ==>
                entry == Resolve(stores, pod, bound) && podDescriptors == old(podDescriptors)[PodKey(pod) := entry]
    {
      var key := PodKey(pod);
      if key in podDescriptors {
        return podDescriptors[key];
      }

      var name := pod.name;
      var namespace := UnwrapOrEmpty(pod.namespace);
      var kind := "Pod";
      var ownerRef := DirectController(pod);
      ghost var fuel := bound;

      while ownerRef.Some?
        invariant ownerRef.Some? ==> ChainEnds(stores, namespace, ownerRef.value, fuel)
        invariant WalkOutcome(stores, namespace, name, kind, ownerRef, fuel) == Resolve(stores, pod, bound)
        decreases fuel, if ownerRef.Some? then 1 else 0
      {
        var controller := ControllerOfOwner(stores, ownerRef.value, namespace);
        if controller.Some? {
          name := controller.value.name;
          kind := controller.value.kind;
          fuel := fuel - 1;
        }
        ownerRef := controller;
      }

      entry := Workload(name, namespace, kind);
      podDescriptors := podDescriptors[key := entry];
    }

    /** The body of the pod watch loop, for one applied pod. */
    method OnPodApplied(pod: Pod, ghost bound: nat)
      requires Valid()
      requires PodKey(pod) in podDescriptors || WalkEnds(stores, pod, bound)
      modifies this`podDescriptors, this`ipToWorkload
      ensures Valid()
      ensures PodKey(pod) in old(podDescriptors) ==>
                && podDescriptors == old(podDescriptors)
                && ipToWorkload == InsertAll(old(ipToWorkload), PodIpKeys(PodIpsOf(pod)), old(podDescriptors)[PodKey(pod)])
      ensures PodKey(pod) !in old(podDescriptors) ==>
                && podDescriptors == old(podDescriptors)[PodKey(pod) := Resolve(stores, pod, bound)]
                && ipToWorkload == InsertAll(old(ipToWorkload), PodIpKeys(PodIpsOf(pod)), Resolve(stores, pod, bound))
    {
      var entry := ResolvePodDescriptor(pod, bound);
      InsertPodIps(PodIpsOf(pod), entry);
    }

    /** The inner loop of the pod watch: map each `Some` pod IP to `entry`, skip `None`. */
    method InsertPodIps(ips: seq<PodIp>, entry: Workload)
      modifies this`ipToWorkload
      ensures ipToWorkload == InsertAll(old(ipToWorkload), PodIpKeys(ips), entry)
    {
      for i := 0 to |ips|
        invariant ipToWorkload == InsertAll(old(ipToWorkload), PodIpKeys(ips[..i]), entry)
      {
        PodIpKeysStep(ips, i);
        if ips[i].ip.Some? {
          InsertAllSnoc(old(ipToWorkload), PodIpKeys(ips[..i]), ips[i].ip.value, entry);
          ipToWorkload := ipToWorkload[ips[i].ip.value := entry];
        }
      }
      assert ips[..|ips|] == ips;
    }

    /** The body of the node watch loop, for one applied node. */
    method OnNodeApplied(node: Node)
      modifies this`ipToWorkload
      ensures ipToWorkload == InsertAll(old(ipToWorkload), NodeAddressKeys(NodeAddressesOf(node)), NodeWorkload(node))
    {
      var addrs := NodeAddressesOf(node);
      for i := 0 to |addrs|
        invariant ipToWorkload == InsertAll(old(ipToWorkload), NodeAddressKeys(addrs[..i]), NodeWorkload(node))
      {
        NodeAddressKeysStep(addrs, i);
        InsertAllSnoc(old(ipToWorkload), NodeAddressKeys(addrs[..i]), addrs[i].address, NodeWorkload(node));
        ipToWorkload := ipToWorkload[addrs[i].address := Workload(node.name, "node", "Node")];
      }
      assert addrs[..|addrs|] == addrs;
    }

    /** The body of the service watch loop, for one applied service. */
    method OnServiceApplied(service: Service)
      modifies this`ipToWorkload
      ensures ipToWorkload == InsertAll(old(ipToWorkload), ClusterIpKeys(ClusterIpsOf(service)), ServiceWorkload(service))
    {
      var ips := ClusterIpsOf(service);
      for i := 0 to |ips|
        invariant ipToWorkload == InsertAll(old(ipToWorkload), ClusterIpKeys(ips[..i]), ServiceWorkload(service))
      {
        ClusterIpKeysStep(ips, i);
        var ip := ips[i];
        if ip == "None" {
          assert ClusterIpKeys(ips[..i + 1]) == ClusterIpKeys(ips[..i]);
          continue;
        }
        InsertAllSnoc(old(ipToWorkload), ClusterIpKeys(ips[..i]), ip, ServiceWorkload(service));
        ipToWorkload := ipToWorkload[ip := Workload(service.name, UnwrapOrEmpty(service.namespace), "Service")];
      }
      assert ips[..|ips|] == ips;
    }
  }
}
