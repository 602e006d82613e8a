/** The `binpack_operator.py` variant: a missing label map is read as empty,
    a failed label patch is logged and swallowed, and a failure to list the
    nodes or to create the Deployment ends the pass. */
module BinpackOperator {
  import opened Kube

  const IMAGE := "cr.makina.rocks/external-hub/binpack-operator:v0.1.0"

  /** `labels.get("nvidia.com/gpu.present") == "true"` on `labels or {}`. */
  predicate IsGpuNode(n: Node)
  {
    Get(LabelsOrEmpty(n), GPU_KEY) == Some(TRUE)
  }

  /** An eligible node that does not carry a `binpack` key yet. */
  predicate NeedsPatch(n: Node)
  {
    IsGpuNode(n) && BINPACK_KEY !in LabelsOrEmpty(n)
  }

  /** The patch issued for a node: its own labels plus `binpack=true`. */
  function PatchFor(n: Node): Patch
    requires NeedsPatch(n)
  {
    Patch(n.name, LabelsOrEmpty(n)[BINPACK_KEY := TRUE])
  }

  /** The names the classifier returns, for an inventory. */
  function Eligible(nodes: seq<Node>): seq<string>
  {
    if nodes == [] then []
    else (if IsGpuNode(nodes[0]) then [nodes[0].name] else []) + Eligible(nodes[1..])
  }

  /** The patch calls the classifier issues, in order, for an inventory. */
  function PatchRequests(nodes: seq<Node>): seq<Patch>
  {
    if nodes == [] then []
    else (if NeedsPatch(nodes[0]) then [PatchFor(nodes[0])] else []) + PatchRequests(nodes[1..])
  }

  /** A node as the server stores it after the pass, given which patches fail. */
  function Stamped(n: Node, failing: set<string>): Node
  {
    if NeedsPatch(n) && n.name !in failing then Node(n.name, Some(PatchFor(n).labels)) else n
  }

  function StampAll(nodes: seq<Node>, failing: set<string>): seq<Node>
  {
    seq(|nodes|, i requires 0 <= i < |nodes| => Stamped(nodes[i], failing))
  }

  /** The patches of `ps` aimed at nodes in `failing`, in order. */
  function FailedPatches(ps: seq<Patch>, failing: set<string>): seq<Patch>
  {
    if ps == [] then []
    else (if ps[0].node in failing then [ps[0]] else []) + FailedPatches(ps[1..], failing)
  }

  // ---------------------------------------------------------------------
  // The classifier and the handler
  // ---------------------------------------------------------------------

  /** `filter_nvidia_nodes`: lists the nodes, collects the eligible names in
      inventory order and patches every eligible node lacking `binpack`. */
  method FilterNvidiaNodes(api: ApiServer) returns (r: Result<seq<string>>)
    requires api.Valid()
    modifies api
    ensures api.Valid()
    ensures api.deployments == old(api.deployments) && api.createLog == old(api.createLog)
    ensures api.listFails ==>
      r == Failure(ListFailed) && api.nodes == old(api.nodes) && api.patchLog == old(api.patchLog)
    ensures !api.listFails ==> r == Success(Eligible(old(api.nodes)))
    ensures !api.listFails ==> api.patchLog == old(api.patchLog) + PatchRequests(old(api.nodes))
    ensures !api.listFails ==> api.nodes == StampAll(old(api.nodes), api.failingPatches)
  {
    var listed := api.ListNode();
    if listed.Failure? {
      return Failure(listed.error);
    }
    var nodes := listed.value;
    var filtered: seq<string> := [];
    var i := 0;
    while i < |nodes|
      invariant 0 <= i <= |nodes|
      invariant nodes == old(api.nodes) && DistinctNames(nodes)
      invariant api.Valid()
      invariant filtered == Eligible(nodes[..i])
      invariant api.patchLog == old(api.patchLog) + PatchRequests(nodes[..i])
      invariant api.nodes == Midway(nodes, i, api.failingPatches)
      invariant api.deployments == old(api.deployments) && api.createLog == old(api.createLog)
    {
      var node := nodes[i];
      var labels := LabelsOrEmpty(node);
      Advance(nodes, i, api.failingPatches);
      if Get(labels, GPU_KEY) == Some(TRUE) {
        filtered := filtered + [node.name];
        if BINPACK_KEY !in labels {
          labels := labels[BINPACK_KEY := TRUE];
          var ok := api.PatchNode(node.name, labels);
          AppendAssoc(old(api.patchLog), PatchRequests(nodes[..i]), [Patch(node.name, labels)]);
          // a failed patch is logged and the loop goes on
        }
      }
      i := i + 1;
    }
    MidwayComplete(nodes, api.failingPatches);
    assert nodes[..i] == nodes;
    return Success(filtered);
  }

  /** `create_scheduler`: runs the classifier, does nothing more when no
      node is eligible, and otherwise creates the extender Deployment once
      in namespace `default`. The `nodeSelector` value is read and unused. */
  method CreateScheduler(api: ApiServer, spec: map<string, string>) returns (r: Outcome)
    requires api.Valid()
    modifies api
    ensures api.Valid()
    ensures api.listFails ==>
      && r == Fail(ListFailed) && api.nodes == old(api.nodes) && api.patchLog == old(api.patchLog)
      && api.createLog == old(api.createLog) && api.deployments == old(api.deployments)
    ensures !api.listFails ==>
      && api.nodes == StampAll(old(api.nodes), api.failingPatches)
      && api.patchLog == old(api.patchLog) + PatchRequests(old(api.nodes))
    ensures !api.listFails && Eligible(old(api.nodes)) == [] ==>
      r == Pass && api.createLog == old(api.createLog) && api.deployments == old(api.deployments)
    ensures !api.listFails && Eligible(old(api.nodes)) != [] ==>
      var created := !api.createFails && (NAMESPACE, EXTENDER_NAME) !in old(api.deployments);
      && api.createLog == old(api.createLog) + [CreateRequest(NAMESPACE, ExtenderDeployment(IMAGE))]
      && r == (if created then Pass else Fail(CreateFailed))
      && api.deployments == (if created then old(api.deployments) + {(NAMESPACE, EXTENDER_NAME)}
                             else old(api.deployments))
  {
    var nodeSelector := if NODE_SELECTOR_KEY in spec then spec[NODE_SELECTOR_KEY] else DEFAULT_NODE_SELECTOR;
    var nvidiaNodes := FilterNvidiaNodes(api);
    if nvidiaNodes.Failure? {
      return Fail(nvidiaNodes.error);
    }
    if nvidiaNodes.value == [] {
      return Pass;
    }
    var ok := api.CreateNamespacedDeployment(NAMESPACE, ExtenderDeployment(IMAGE));
    if !ok {
      return Fail(CreateFailed);
    }
    return Pass;
  }

  /** The server's inventory once the loop has handled the first `i` nodes. */
  ghost function Midway(nodes: seq<Node>, i: nat, failing: set<string>): (r: seq<Node>)
    requires i <= |nodes|
    ensures |r| == |nodes|
  {
    if i == 0 then nodes else Midway(nodes, i - 1, failing)[i - 1 := Stamped(nodes[i - 1], failing)]
  }

  /** The first `i` nodes are stamped and the rest are as listed. */
  lemma {:induction false} MidwayClosedForm(nodes: seq<Node>, i: nat, failing: set<string>)
    requires i <= |nodes|
    ensures Midway(nodes, i, failing) == StampAll(nodes[..i], failing) + nodes[i..]
  {
    if i > 0 {
      MidwayClosedForm(nodes, i - 1, failing);
      var r, expected := Midway(nodes, i, failing), StampAll(nodes[..i], failing) + nodes[i..];
      forall j | 0 <= j < |nodes|
        ensures r[j] == expected[j]
      {
      }
    }
  }

  /** Once the loop has handled every node, every node is stamped. */
  lemma MidwayComplete(nodes: seq<Node>, failing: set<string>)
    ensures Midway(nodes, |nodes|, failing) == StampAll(nodes, failing)
  {
    MidwayClosedForm(nodes, |nodes|, failing);
    assert nodes[..|nodes|] == nodes && nodes[|nodes|..] == [];
  }

  /** What handling node `i` adds to the result, to the patch log and to the
      server's inventory. */
  lemma Advance(nodes: seq<Node>, i: nat, failing: set<string>)
    requires i < |nodes| && DistinctNames(nodes)
    ensures IsGpuNode(nodes[i]) ==> Eligible(nodes[..i + 1]) == Eligible(nodes[..i]) + [nodes[i].name]
    ensures !IsGpuNode(nodes[i]) ==> Eligible(nodes[..i + 1]) == Eligible(nodes[..i])
    ensures NeedsPatch(nodes[i]) ==> PatchRequests(nodes[..i + 1]) == PatchRequests(nodes[..i]) + [PatchFor(nodes[i])]
    ensures !NeedsPatch(nodes[i]) ==> PatchRequests(nodes[..i + 1]) == PatchRequests(nodes[..i])
    ensures NeedsPatch(nodes[i]) && nodes[i].name !in failing ==>
      MergeLabels(Midway(nodes, i, failing), nodes[i].name, PatchFor(nodes[i]).labels) == Midway(nodes, i + 1, failing)
    ensures !(NeedsPatch(nodes[i]) && nodes[i].name !in failing) ==>
      Midway(nodes, i, failing) == Midway(nodes, i + 1, failing)
  {
    assert nodes[..i + 1] == nodes[..i] + [nodes[i]];
    EligibleConcat(nodes[..i], [nodes[i]]);
    PatchRequestsConcat(nodes[..i], [nodes[i]]);
    MidwayClosedForm(nodes, i, failing);
    MidwayClosedForm(nodes, i + 1, failing);
    var state, next := Midway(nodes, i, failing), Midway(nodes, i + 1, failing);
    assert |state| == |next| == |nodes|;
    if NeedsPatch(nodes[i]) && nodes[i].name !in failing {
      MergeExtension(LabelsOrEmpty(nodes[i]), BINPACK_KEY, TRUE);
      var merged := MergeLabels(state, nodes[i].name, PatchFor(nodes[i]).labels);
      forall j | 0 <= j < |nodes|
        ensures merged[j] == next[j]
      {
        if j < i {
          assert state[j] == Stamped(nodes[j], failing) == next[j];
        } else if j > i {
          assert state[j] == nodes[j] == next[j];
        }
        if j != i {
          assert NameOf(nodes, j) != NameOf(nodes, i);
        }
      }
    } else {
      forall j | 0 <= j < |nodes|
        ensures state[j] == next[j]
      {
      }
    }
  }

  // ---------------------------------------------------------------------
  // Properties of the classifier
  // ---------------------------------------------------------------------

  /** Classification distributes over a split of the inventory. */
  lemma {:induction false} EligibleConcat(a: seq<Node>, b: seq<Node>)
    ensures Eligible(a + b) == Eligible(a) + Eligible(b)
  {
    if a == [] {
      assert a + b == b;
    } else {
      assert (a + b)[1..] == a[1..] + b;
      EligibleConcat(a[1..], b);
      AppendAssoc(if IsGpuNode(a[0]) then [a[0].name] else [], Eligible(a[1..]), Eligible(b));
    }
  }

  lemma {:induction false} PatchRequestsConcat(a: seq<Node>, b: seq<Node>)
    ensures PatchRequests(a + b) == PatchRequests(a) + PatchRequests(b)
  {
    if a == [] {
      assert a + b == b;
    } else {
      assert (a + b)[1..] == a[1..] + b;
      PatchRequestsConcat(a[1..], b);
      AppendAssoc(if NeedsPatch(a[0]) then [PatchFor(a[0])] else [], PatchRequests(a[1..]), PatchRequests(b));
    }
  }

  /** A name is returned exactly when some node of that name has its GPU
      label equal to the string "true". */
  lemma {:induction false} EligibleMembership(nodes: seq<Node>, name: string)
    ensures name in Eligible(nodes) <==>
      exists i :: 0 <= i < |nodes| && nodes[i].name == name && Get(LabelsOrEmpty(nodes[i]), GPU_KEY) == Some("true")
  {
    if nodes != [] {
      EligibleMembership(nodes[1..], name);
      if name in Eligible(nodes[1..]) {
        var i :| 0 <= i < |nodes[1..]| && nodes[1..][i].name == name && IsGpuNode(nodes[1..][i]);
        assert nodes[i + 1] == nodes[1..][i];
      }
      if exists i :: 0 <= i < |nodes| && nodes[i].name == name && IsGpuNode(nodes[i]) {
        var i :| 0 <= i < |nodes| && nodes[i].name == name && IsGpuNode(nodes[i]);
        if i > 0 {
          assert nodes[1..][i - 1] == nodes[i];
        }
      }
    }
  }

  /** Only the exact string "true" marks a GPU node. */
  lemma ExactMatch(name: string, v: string)
    ensures IsGpuNode(Node(name, Some(map[GPU_KEY := v]))) <==> v == "true"
    ensures !IsGpuNode(Node(name, Some(map[GPU_KEY := "TRUE"])))
    ensures !IsGpuNode(Node(name, Some(map[GPU_KEY := "1"])))
    ensures !IsGpuNode(Node(name, Some(map["binpack" := "true"])))
  {
  }

  /** The result lists eligible names in inventory order. */
  lemma {:induction false} EligibleSubsequence(nodes: seq<Node>)
    ensures IsSubsequence(Eligible(nodes), Names(nodes))
  {
    if nodes != [] {
      EligibleSubsequence(nodes[1..]);
      var ys := Names(nodes);
      assert ys[1..] == Names(nodes[1..]);
      if IsGpuNode(nodes[0]) {
        assert Eligible(nodes)[0] == ys[0];
        assert Eligible(nodes)[1..] == Eligible(nodes[1..]);
      } else {
        assert Eligible(nodes) == Eligible(nodes[1..]);
      }
    }
  }

  /** A node that is not eligible can be dropped from the inventory without
      changing the result. */
  lemma DropIneligible(pre: seq<Node>, x: Node, post: seq<Node>)
    requires !IsGpuNode(x)
    ensures Eligible(pre + [x] + post) == Eligible(pre + post)
  {
    assert pre + [x] + post == pre + ([x] + post);
    assert ([x] + post)[1..] == post;
    EligibleConcat(pre, [x] + post);
    EligibleConcat(pre, post);
  }

  /** A node that needs no patch can be dropped from the inventory without
      changing the patch calls. */
  lemma DropUnpatched(pre: seq<Node>, x: Node, post: seq<Node>)
    requires !NeedsPatch(x)
    ensures PatchRequests(pre + [x] + post) == PatchRequests(pre + post)
  {
    assert pre + [x] + post == pre + ([x] + post);
    assert ([x] + post)[1..] == post;
    PatchRequestsConcat(pre, [x] + post);
    PatchRequestsConcat(pre, post);
  }

  /** A node whose label map is absent or empty is never in the result:
      dropping it from the inventory changes nothing. */
  lemma BareNodeNotEligible(nodes: seq<Node>, i: nat)
    requires i < |nodes|
    requires nodes[i].labels == None || nodes[i].labels == Some(map[])
    ensures Eligible(nodes) == Eligible(nodes[..i] + nodes[i + 1..])
  {
    assert LabelsOrEmpty(nodes[i]) == map[] && !IsGpuNode(nodes[i]);
    assert nodes[..i] + nodes[i..] == nodes;
    assert nodes[i..][1..] == nodes[i + 1..];
    EligibleConcat(nodes[..i], nodes[i..]);
    EligibleConcat(nodes[..i], nodes[i + 1..]);
  }

  /** A node whose label map is absent or empty is never patched: dropping
      it from the inventory leaves the patch calls as they are. */
  lemma BareNodeNotPatched(nodes: seq<Node>, i: nat)
    requires i < |nodes|
    requires nodes[i].labels == None || nodes[i].labels == Some(map[])
    ensures PatchRequests(nodes) == PatchRequests(nodes[..i] + nodes[i + 1..])
  {
    assert LabelsOrEmpty(nodes[i]) == map[] && !NeedsPatch(nodes[i]);
    assert nodes[..i] + nodes[i..] == nodes;
    assert nodes[i..][1..] == nodes[i + 1..];
    PatchRequestsConcat(nodes[..i], nodes[i..]);
    PatchRequestsConcat(nodes[..i], nodes[i + 1..]);
  }

  /** A patch call is issued exactly for each eligible node without a
      `binpack` key, and its body is that node's labels plus binpack=true. */
  lemma {:induction false} PatchMembership(nodes: seq<Node>, p: Patch)
    ensures p in PatchRequests(nodes) <==>
      exists i :: 0 <= i < |nodes| && IsGpuNode(nodes[i]) && BINPACK_KEY !in LabelsOrEmpty(nodes[i])
        && p == Patch(nodes[i].name, LabelsOrEmpty(nodes[i])[BINPACK_KEY := TRUE])
  {
    if nodes != [] {
      PatchMembership(nodes[1..], p);
      if p in PatchRequests(nodes[1..]) {
        var i :| 0 <= i < |nodes[1..]| && IsGpuNode(nodes[1..][i]) && BINPACK_KEY !in LabelsOrEmpty(nodes[1..][i])
          && p == Patch(nodes[1..][i].name, LabelsOrEmpty(nodes[1..][i])[BINPACK_KEY := TRUE]);
        assert nodes[i + 1] == nodes[1..][i];
      }
      if exists i :: 0 <= i < |nodes| && IsGpuNode(nodes[i]) && BINPACK_KEY !in LabelsOrEmpty(nodes[i])
          && p == Patch(nodes[i].name, LabelsOrEmpty(nodes[i])[BINPACK_KEY := TRUE]) {
        var i :| 0 <= i < |nodes| && IsGpuNode(nodes[i]) && BINPACK_KEY !in LabelsOrEmpty(nodes[i])
          && p == Patch(nodes[i].name, LabelsOrEmpty(nodes[i])[BINPACK_KEY := TRUE]);
        if i > 0 {
          assert nodes[1..][i - 1] == nodes[i];
        }
      }
    }
  }

  /** A patch body keeps every label of the node and adds only binpack=true. */
  lemma PatchBodyExtendsLabels(n: Node)
    requires NeedsPatch(n)
    ensures PatchFor(n).node == n.name
    ensures PatchFor(n).labels.Keys == LabelsOrEmpty(n).Keys + {BINPACK_KEY}
    ensures PatchFor(n).labels[BINPACK_KEY] == TRUE
    ensures forall k :: k in LabelsOrEmpty(n) ==> PatchFor(n).labels[k] == LabelsOrEmpty(n)[k]
  {
  }

  /** The pass never removes or overwrites a label: every key the node had
      keeps its value, and the only key it may gain is `binpack`. */
  lemma StampKeepsLabels(nodes: seq<Node>, failing: set<string>, i: nat)
    requires i < |nodes|
    ensures StampAll(nodes, failing)[i].name == nodes[i].name
    ensures LabelsOrEmpty(nodes[i]).Keys <= LabelsOrEmpty(StampAll(nodes, failing)[i]).Keys
    ensures forall k :: k in LabelsOrEmpty(nodes[i]) ==>
      LabelsOrEmpty(StampAll(nodes, failing)[i])[k] == LabelsOrEmpty(nodes[i])[k]
    ensures LabelsOrEmpty(StampAll(nodes, failing)[i]).Keys - LabelsOrEmpty(nodes[i]).Keys <= {BINPACK_KEY}
    ensures NeedsPatch(nodes[i]) && nodes[i].name !in failing ==>
      LabelsOrEmpty(StampAll(nodes, failing)[i])[BINPACK_KEY] == TRUE
    ensures !(NeedsPatch(nodes[i]) && nodes[i].name !in failing) ==> StampAll(nodes, failing)[i] == nodes[i]
  {
  }

  /** Patching does not change which nodes are eligible. */
  lemma {:induction false} StampPreservesEligible(nodes: seq<Node>, failing: set<string>)
    ensures Eligible(StampAll(nodes, failing)) == Eligible(nodes)
  {
    if nodes != [] {
      assert StampAll(nodes, failing)[1..] == StampAll(nodes[1..], failing);
      StampPreservesEligible(nodes[1..], failing);
    }
  }

  /** Re-running the pass on the patched inventory issues again exactly the
      patches that failed the first time, in the same order. */
  lemma {:induction false} RerunRetriesFailedPatches(nodes: seq<Node>, failing: set<string>)
    ensures PatchRequests(StampAll(nodes, failing)) == FailedPatches(PatchRequests(nodes), failing)
  {
    if nodes != [] {
      assert StampAll(nodes, failing)[1..] == StampAll(nodes[1..], failing);
      RerunRetriesFailedPatches(nodes[1..], failing);
      var head := if NeedsPatch(nodes[0]) then [PatchFor(nodes[0])] else [];
      FailedPatchesConcat(head, PatchRequests(nodes[1..]), failing);
    }
  }

  lemma {:induction false} FailedPatchesConcat(a: seq<Patch>, b: seq<Patch>, failing: set<string>)
    ensures FailedPatches(a + b, failing) == FailedPatches(a, failing) + FailedPatches(b, failing)
  {
    if a == [] {
      assert a + b == b;
    } else {
      assert (a + b)[1..] == a[1..] + b;
      FailedPatchesConcat(a[1..], b, failing);
      AppendAssoc(if a[0].node in failing then [a[0]] else [], FailedPatches(a[1..], failing), FailedPatches(b, failing));
    }
  }

  /** Idempotence: once every patch has succeeded, a second pass returns the
      same names, issues no patch calls and leaves the nodes as they are. */
  lemma SecondPassIsQuiet(nodes: seq<Node>, failing: set<string>)
    ensures Eligible(StampAll(nodes, {})) == Eligible(nodes)
    ensures PatchRequests(StampAll(nodes, {})) == []
    ensures StampAll(StampAll(nodes, {}), failing) == StampAll(nodes, {})
  {
    StampPreservesEligible(nodes, {});
    RerunRetriesFailedPatches(nodes, {});
    FailedPatchesNone(PatchRequests(nodes));
  }

  lemma {:induction false} FailedPatchesNone(ps: seq<Patch>)
    ensures FailedPatches(ps, {}) == []
  {
    if ps != [] {
      FailedPatchesNone(ps[1..]);
    }
  }

  /** Three small inventories: a GPU node beside a node with an empty label
      map; a node whose GPU label is "false"; a GPU node already carrying
      binpack. */
  lemma Scenarios()
    ensures var a := [Node("n1", Some(map[GPU_KEY := "true"])), Node("n2", Some(map[]))];
      Eligible(a) == ["n1"]
      && PatchRequests(a) == [Patch("n1", map[GPU_KEY := "true", BINPACK_KEY := "true"])]
    ensures var b := [Node("n1", Some(map[GPU_KEY := "false"]))];
      Eligible(b) == [] && PatchRequests(b) == []
    ensures var c := [Node("n1", Some(map[GPU_KEY := "true", BINPACK_KEY := "true"]))];
      Eligible(c) == ["n1"] && PatchRequests(c) == []
  {
    var a := [Node("n1", Some(map[GPU_KEY := "true"])), Node("n2", Some(map[]))];
    assert !IsGpuNode(a[1]);
    assert a[1..][1..] == [];
    assert Eligible(a[1..]) == [] && PatchRequests(a[1..]) == [];
    assert IsGpuNode(a[0]) && NeedsPatch(a[0]);
    assert PatchFor(a[0]).labels == map[GPU_KEY := "true", BINPACK_KEY := "true"];
    var b := [Node("n1", Some(map[GPU_KEY := "false"]))];
    assert b[1..] == [] && !IsGpuNode(b[0]);
    var c := [Node("n1", Some(map[GPU_KEY := "true", BINPACK_KEY := "true"]))];
    assert c[1..] == [] && IsGpuNode(c[0]) && !NeedsPatch(c[0]);
  }
}
