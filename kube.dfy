/** The part of the Kubernetes API the operator talks to: node objects with
    their label maps, the label-patch request, the Deployment descriptor, and
    an API server whose remote calls are recorded in call logs and whose
    failures are chosen up front (fault injection). */
module Kube {

  datatype Option<T> = None | Some(value: T)

  /** Every failure a reconciliation pass can end with. */
  datatype Error =
    | ListFailed              // `list_node` raised
    | PatchFailed(node: string) // `patch_node` raised for this node
    | LabelsMissing(node: string) // `in` applied to a node whose label map is None
    | CreateFailed            // `create_namespaced_deployment` raised

  datatype Result<T> = Success(value: T) | Failure(error: Error)

  /** How a handler invocation ends: it returns, or an exception escapes. */
  datatype Outcome = Pass | Fail(error: Error)

  type Labels = map<string, string>

  const GPU_KEY := "nvidia.com/gpu.present"
  const BINPACK_KEY := "binpack"
  const TRUE := "true"

  const NAMESPACE := "default"
  const EXTENDER_NAME := "binpack-scheduler-extender"
  const APP_LABELS: Labels := map["app" := "binpack-scheduler"]
  const CONTAINER_NAME := "scheduler-extender"
  const CONTAINER_PORT := 8080

  /** The `nodeSelector` entry of the custom resource's spec and its default. */
  const NODE_SELECTOR_KEY := "nodeSelector"
  const DEFAULT_NODE_SELECTOR := "binpack=true"

  /** A node as returned by `list_node`: its name and its label map, which the
      client reports as absent (None) when the node has no labels. */
  datatype Node = Node(name: string, labels: Option<Labels>)

  /** A `patch_node(name, {"metadata": {"labels": labels}})` call. */
  datatype Patch = Patch(node: string, labels: Labels)

  datatype Container = Container(name: string, image: string, containerPorts: seq<int>)
  datatype PodTemplate = PodTemplate(labels: Labels, containers: seq<Container>)
  datatype DeploymentSpec = DeploymentSpec(replicas: int, matchLabels: Labels, template: PodTemplate)
  datatype Deployment = Deployment(name: string, spec: DeploymentSpec)

  /** A `create_namespaced_deployment(namespace, body)` call. */
  datatype CreateRequest = CreateRequest(namespace: string, body: Deployment)

  /** Python's `dict.get(k)`. */
  function Get(m: Labels, k: string): Option<string>
  {
    if k in m then Some(m[k]) else None
  }

  /** The label map of a node, an absent one read as empty. */
  function LabelsOrEmpty(n: Node): Labels
  {
    match n.labels
    case None => map[]
    case Some(l) => l
  }

  function Names(nodes: seq<Node>): (r: seq<string>)
    ensures |r| == |nodes|
    ensures forall i :: 0 <= i < |nodes| ==> r[i] == nodes[i].name
  {
    if nodes == [] then [] else [nodes[0].name] + Names(nodes[1..])
  }

  /** The name of the node at position `i`; the distinctness quantifier
      below is triggered by this function only, so that it is instantiated
      where a proof asks about two positions and not on every index term. */
  function NameOf(nodes: seq<Node>, i: nat): string
    requires i < |nodes|
  {
    nodes[i].name
  }

  /** Node names are unique within a cluster. */
  ghost predicate DistinctNames(nodes: seq<Node>)
  {
    forall i, j :: 0 <= i < j < |nodes| ==> NameOf(nodes, i) != NameOf(nodes, j)
  }

  /** Distinctness depends on the names alone. */
  lemma DistinctNamesTransfer(a: seq<Node>, b: seq<Node>)
    requires DistinctNames(a) && Names(a) == Names(b)
    ensures DistinctNames(b)
  {
    forall i, j | 0 <= i < j < |b|
      ensures NameOf(b, i) != NameOf(b, j)
    {
      assert Names(a)[i] == Names(b)[i] && Names(a)[j] == Names(b)[j];
      assert NameOf(a, i) != NameOf(a, j);
    }
  }

  /** Concatenation is associative (stated for the call logs, which grow
      by appending). */
  lemma AppendAssoc<T>(a: seq<T>, b: seq<T>, c: seq<T>)
    ensures (a + b) + c == a + (b + c)
  {
  }

  /** `xs` is `ys` with some elements left out, the rest in their order. */
  predicate IsSubsequence<T(==)>(xs: seq<T>, ys: seq<T>)
    decreases |ys|
  {
    xs == [] ||
    (ys != [] &&
     ((xs[0] == ys[0] && IsSubsequence(xs[1..], ys[1..])) || IsSubsequence(xs, ys[1..])))
  }

  /** A label selector matches a label map when every selector entry is
      present in the map with the same value. */
  predicate Selects(selector: Labels, labels: Labels)
  {
    forall k :: k in selector ==> k in labels && labels[k] == selector[k]
  }

  /** The server side of a successful merge patch of node labels: every node
      called `name` gets its labels merged with `body`, entries of `body`
      winning. */
  function MergeLabels(nodes: seq<Node>, name: string, body: Labels): (r: seq<Node>)
    ensures Names(r) == Names(nodes)
  {
    seq(|nodes|, i requires 0 <= i < |nodes| =>
      if nodes[i].name == name then Node(name, Some(LabelsOrEmpty(nodes[i]) + body)) else nodes[i])
  }

  /** Merging a map that already extends the stored one leaves exactly that map. */
  lemma MergeExtension(m: Labels, k: string, v: string)
    ensures m + m[k := v] == m[k := v]
  {
  }

  /** The scheduler-extender Deployment both operator variants submit; they
      differ only in the container image. */
  function ExtenderDeployment(image: string): Deployment
  {
    Deployment(EXTENDER_NAME,
      DeploymentSpec(1, APP_LABELS,
        PodTemplate(APP_LABELS, [Container(CONTAINER_NAME, image, [CONTAINER_PORT])])))
  }

  /** The descriptor's fixed shape: one replica, a selector that selects the
      pods of its own template, one container with the given image exposing
      port 8080, and no node selection at all. */
  lemma ExtenderDeploymentShape(image: string)
    ensures var d := ExtenderDeployment(image);
      && d.name == "binpack-scheduler-extender"
      && d.spec.replicas == 1
      && d.spec.matchLabels == map["app" := "binpack-scheduler"]
      && d.spec.template.labels == map["app" := "binpack-scheduler"]
      && Selects(d.spec.matchLabels, d.spec.template.labels)
      && |d.spec.template.containers| == 1
      && d.spec.template.containers[0].name == "scheduler-extender"
      && d.spec.template.containers[0].image == image
      && d.spec.template.containers[0].containerPorts == [8080]
  {
  }

  /** The cluster's API server as the operator sees it through its two
      client handles: the node inventory, the Deployments that exist, a log
      of every patch and create call issued, and which calls fail. */
  class ApiServer {
    var nodes: seq<Node>
    var deployments: set<(string, string)>   // (namespace, name) of existing Deployments
    var patchLog: seq<Patch>
    var createLog: seq<CreateRequest>
    const listFails: bool
    const failingPatches: set<string>        // nodes whose patch call raises
    const createFails: bool

    ghost predicate Valid()
      reads this
    {
      DistinctNames(nodes)
    }

    constructor (inventory: seq<Node>, existing: set<(string, string)>,
                 listFails: bool, failingPatches: set<string>, createFails: bool)
      requires DistinctNames(inventory)
      ensures Valid()
      ensures nodes == inventory && deployments == existing && patchLog == [] && createLog == []
      ensures this.listFails == listFails && this.failingPatches == failingPatches
      ensures this.createFails == createFails
    {
      nodes, deployments, patchLog, createLog := inventory, existing, [], [];
      this.listFails, this.failingPatches, this.createFails := listFails, failingPatches, createFails;
    }

    /** `list_node().items`: the whole inventory, in the server's order. */
    method ListNode() returns (r: Result<seq<Node>>)
      ensures listFails <==> r.Failure?
      ensures r.Failure? ==> r.error == ListFailed
      ensures r.Success? ==> r.value == nodes
    {
      if listFails {
        r := Failure(ListFailed);
      } else {
        r := Success(nodes);
      }
    }

    /** `patch_node(name, {"metadata": {"labels": labels}})`: logged whether
        or not it succeeds; on success the labels are merged in. */
    method PatchNode(name: string, labels: Labels) returns (ok: bool)
      requires Valid()
      modifies this
      ensures Valid()
      ensures ok == (name !in failingPatches)
      ensures patchLog == old(patchLog) + [Patch(name, labels)]
      ensures nodes == if ok then MergeLabels(old(nodes), name, labels) else old(nodes)
      ensures deployments == old(deployments) && createLog == old(createLog)
    {
      patchLog := patchLog + [Patch(name, labels)];
      ok := name !in failingPatches;
      if ok {
        var merged := MergeLabels(nodes, name, labels);
        DistinctNamesTransfer(nodes, merged);
        nodes := merged;
      }
    }

    /** `create_namespaced_deployment(namespace, body)`: logged whether or
        not it succeeds; it fails when the server rejects it or a Deployment
        of that name already exists in the namespace. */
    method CreateNamespacedDeployment(namespace: string, body: Deployment) returns (ok: bool)
      modifies this
      ensures ok == (!createFails && (namespace, body.name) !in old(deployments))
      ensures createLog == old(createLog) + [CreateRequest(namespace, body)]
      ensures deployments == if ok then old(deployments) + {(namespace, body.name)} else old(deployments)
      ensures nodes == old(nodes) && patchLog == old(patchLog)
    {
      createLog := createLog + [CreateRequest(namespace, body)];
      ok := !createFails && (namespace, body.name) !in deployments;
      if ok {
        deployments := deployments + {(namespace, body.name)};
      }
    }
  }
}
