/** The `operator.py` variant: the label map is used as the client returns
    it, so a node without labels makes the membership test raise, and no
    exception is caught: the first failure ends the pass where it happens. */
module Operator {
  import opened Kube

  const IMAGE := "myrepo/binpack-scheduler:latest"

  /** `"nvidia.com/gpu.present" in labels and labels[...] == "true"`. */
  predicate HasGpuLabel(labels: Labels)
  {
    GPU_KEY in labels && labels[GPU_KEY] == TRUE
  }

  predicate IsGpuNode(n: Node)
  {
    n.labels.Some? && HasGpuLabel(n.labels.value)
  }

  predicate NeedsPatch(n: Node)
  {
    IsGpuNode(n) && BINPACK_KEY !in n.labels.value
  }

  function PatchFor(n: Node): Patch
    requires NeedsPatch(n)
  {
    Patch(n.name, n.labels.value[BINPACK_KEY := TRUE])
  }

  /** The names collected from an inventory that the pass gets through. */
  function Eligible(nodes: seq<Node>): seq<string>
  {
    if nodes == [] then []
    else (if IsGpuNode(nodes[0]) then [nodes[0].name] else []) + Eligible(nodes[1..])
  }

  /** The patch calls issued for an inventory that the pass gets through. */
  function PatchRequests(nodes: seq<Node>): seq<Patch>
  {
    if nodes == [] then []
    else (if NeedsPatch(nodes[0]) then [PatchFor(nodes[0])] else []) + PatchRequests(nodes[1..])
  }

  /** A node as the server stores it once its patch has succeeded. */
  function Stamped(n: Node): Node
  {
    if NeedsPatch(n) then Node(n.name, Some(PatchFor(n).labels)) else n
  }

  function StampAll(nodes: seq<Node>): seq<Node>
  {
    seq(|nodes|, i requires 0 <= i < |nodes| => Stamped(nodes[i]))
  }

  /** The exception handling node `n` raises, if any: the membership test on
      an absent label map, or the patch call of a node in `failing`. */
  function Abort(n: Node, failing: set<string>): Option<Error>
  {
    if n.labels.None? then Some(LabelsMissing(n.name))
    else if NeedsPatch(n) && n.name in failing then Some(PatchFailed(n.name))
    else None
  }

  /** The index of the node at which the pass stops, `|nodes|` when it gets
      through the whole inventory. */
  function Halt(nodes: seq<Node>, failing: set<string>): (h: nat)
    ensures h <= |nodes|
    ensures h < |nodes| ==> Abort(nodes[h], failing).Some?
  {
    if nodes == [] then 0
    else if Abort(nodes[0], failing).Some? then 0
    else 1 + Halt(nodes[1..], failing)
  }

  /** What `filter_nvidia_nodes` returns or raises once the listing succeeded. */
  function ClassifyResult(nodes: seq<Node>, failing: set<string>): Result<seq<string>>
  {
    var h := Halt(nodes, failing);
    if h == |nodes| then Success(Eligible(nodes)) else Failure(Abort(nodes[h], failing).value)
  }

  /** The patch calls issued up to the stop, the failing one included. */
  function IssuedPatches(nodes: seq<Node>, failing: set<string>): seq<Patch>
  {
    var h := Halt(nodes, failing);
    PatchRequests(nodes[..if h < |nodes| then h + 1 else h])
  }

  /** The server's inventory once the loop has handled its first `i` nodes
      and every patch it issued succeeded, built one node at a time. */
  ghost function Midway(nodes: seq<Node>, i: nat): (r: seq<Node>)
    requires i <= |nodes|
    ensures |r| == |nodes|
  {
    if i == 0 then nodes else Midway(nodes, i - 1)[i - 1 := Stamped(nodes[i - 1])]
  }

  /** The first `i` nodes are stamped and the rest are as listed. */
  lemma {:induction false} MidwayClosedForm(nodes: seq<Node>, i: nat)
    requires i <= |nodes|
    ensures Midway(nodes, i) == StampAll(nodes[..i]) + nodes[i..]
  {
    if i > 0 {
      MidwayClosedForm(nodes, i - 1);
      var r, expected := Midway(nodes, i), StampAll(nodes[..i]) + nodes[i..];
      forall j | 0 <= j < |nodes|
        ensures r[j] == expected[j]
      {
      }
    }
  }

  // ---------------------------------------------------------------------
  // The classifier and the handler
  // ---------------------------------------------------------------------

  /** `filter_nvidia_nodes`: lists the nodes, collects eligible names and
      patches eligible nodes lacking `binpack`; any exception escapes. */
  method FilterNvidiaNodes(api: ApiServer) returns (r: Result<seq<string>>)
    requires api.Valid()
    modifies api
    ensures api.Valid()
    ensures api.deployments == old(api.deployments) && api.createLog == old(api.createLog)
    ensures api.listFails ==>
      r == Failure(ListFailed) && api.nodes == old(api.nodes) && api.patchLog == old(api.patchLog)
    ensures !api.listFails ==> r == ClassifyResult(old(api.nodes), api.failingPatches)
    ensures !api.listFails ==>
      api.patchLog == old(api.patchLog) + IssuedPatches(old(api.nodes), api.failingPatches)
    ensures !api.listFails ==>
      api.nodes == Midway(old(api.nodes), Halt(old(api.nodes), api.failingPatches))
  {
    var listed := api.ListNode();
    if listed.Failure? {
      return Failure(listed.error);
    }
    var nodes := listed.value;
    var filtered: seq<string> := [];
    var i := 0;
    while i < |nodes|
      invariant 0 <= i <= Halt(nodes, api.failingPatches)
      invariant nodes == old(api.nodes) && DistinctNames(nodes)
      invariant api.Valid()
      invariant filtered == Eligible(nodes[..i])
      invariant api.patchLog == old(api.patchLog) + PatchRequests(nodes[..i])
      invariant api.nodes == Midway(nodes, i)
      invariant api.deployments == old(api.deployments) && api.createLog == old(api.createLog)
    {
      var node := nodes[i];
      Advance(nodes, i);
      StepHalt(nodes, api.failingPatches, i);
      if node.labels.None? {
        // `"nvidia.com/gpu.present" in None` raises TypeError
        return Failure(LabelsMissing(node.name));
      }
      var labels := node.labels.value;
      if GPU_KEY in labels && labels[GPU_KEY] == TRUE {
        filtered := filtered + [node.name];
        if BINPACK_KEY !in labels {
          labels := labels[BINPACK_KEY := TRUE];
          var ok := api.PatchNode(node.name, labels);
          AppendAssoc(old(api.patchLog), PatchRequests(nodes[..i]), [Patch(node.name, labels)]);
          if !ok {
            return Failure(PatchFailed(node.name));
          }
        }
      }
      i := i + 1;
    }
    assert nodes[..i] == nodes;
    return Success(filtered);
  }

  /** `create_scheduler`: runs the classifier and lets its exceptions
      escape, returns when no node is eligible, and otherwise creates the
      extender Deployment once in namespace `default`. */
  method CreateScheduler(api: ApiServer, spec: map<string, string>) returns (r: Outcome)
    requires api.Valid()
    modifies api
    ensures api.Valid()
    ensures api.listFails ==>
      && r == Fail(ListFailed) && api.nodes == old(api.nodes) && api.patchLog == old(api.patchLog)
      && api.createLog == old(api.createLog) && api.deployments == old(api.deployments)
    ensures !api.listFails ==>
      && api.nodes == Midway(old(api.nodes), Halt(old(api.nodes), api.failingPatches))
      && api.patchLog == old(api.patchLog) + IssuedPatches(old(api.nodes), api.failingPatches)
    ensures !api.listFails && ClassifyResult(old(api.nodes), api.failingPatches).Failure? ==>
      && r == Fail(ClassifyResult(old(api.nodes), api.failingPatches).error)
      && api.createLog == old(api.createLog) && api.deployments == old(api.deployments)
    ensures !api.listFails && ClassifyResult(old(api.nodes), api.failingPatches) == Success([]) ==>
      r == Pass && api.createLog == old(api.createLog) && api.deployments == old(api.deployments)
    ensures (!api.listFails && ClassifyResult(old(api.nodes), api.failingPatches).Success?
             && ClassifyResult(old(api.nodes), api.failingPatches).value != []) ==>
      var created := !api.createFails && (NAMESPACE, EXTENDER_NAME) !in old(api.deployments);
      && api.createLog == old(api.createLog) + [CreateRequest(NAMESPACE, ExtenderDeployment(IMAGE))]
      && r == (if created then Pass else Fail(CreateFailed))
      && api.deployments == (if created then old(api.deployments) + {(NAMESPACE, EXTENDER_NAME)}
                             else old(api.deployments))
  {
    var nodeSelector := if NODE_SELECTOR_KEY in spec then spec[NODE_SELECTOR_KEY] else DEFAULT_NODE_SELECTOR;
    var nvidiaNodes := FilterNvidiaNodes(api);
    if nvidiaNodes.Failure? {
      return Fail(nvidiaNodes.error);
    }
    if nvidiaNodes.value == [] {
      return Pass;
    }
    var ok := api.CreateNamespacedDeployment(NAMESPACE, ExtenderDeployment(IMAGE));
    if !ok {
      return Fail(CreateFailed);
    }
    return Pass;
  }

  /** What handling node `i` adds to the result, to the patch log and to the
      server's inventory, when its patch (if any) succeeds. */
  lemma Advance(nodes: seq<Node>, i: nat)
    requires i < |nodes| && DistinctNames(nodes)
    ensures IsGpuNode(nodes[i]) ==> Eligible(nodes[..i + 1]) == Eligible(nodes[..i]) + [nodes[i].name]
    ensures !IsGpuNode(nodes[i]) ==> Eligible(nodes[..i + 1]) == Eligible(nodes[..i])
    ensures NeedsPatch(nodes[i]) ==> PatchRequests(nodes[..i + 1]) == PatchRequests(nodes[..i]) + [PatchFor(nodes[i])]
    ensures !NeedsPatch(nodes[i]) ==> PatchRequests(nodes[..i + 1]) == PatchRequests(nodes[..i])
    ensures NeedsPatch(nodes[i]) ==>
      MergeLabels(Midway(nodes, i), nodes[i].name, PatchFor(nodes[i]).labels) == Midway(nodes, i + 1)
    ensures !NeedsPatch(nodes[i]) ==> Midway(nodes, i) == Midway(nodes, i + 1)
  {
    assert nodes[..i + 1] == nodes[..i] + [nodes[i]];
    EligibleConcat(nodes[..i], [nodes[i]]);
    PatchRequestsConcat(nodes[..i], [nodes[i]]);
    MidwayClosedForm(nodes, i);
    MidwayClosedForm(nodes, i + 1);
    var state, next := Midway(nodes, i), Midway(nodes, i + 1);
    assert |state| == |next| == |nodes|;
    if NeedsPatch(nodes[i]) {
      MergeExtension(LabelsOrEmpty(nodes[i]), BINPACK_KEY, TRUE);
      var merged := MergeLabels(state, nodes[i].name, PatchFor(nodes[i]).labels);
      forall j | 0 <= j < |nodes|
        ensures merged[j] == next[j]
      {
        if j < i {
          assert state[j] == Stamped(nodes[j]) == next[j];
        } else if j > i {
          assert state[j] == nodes[j] == next[j];
        }
        if j != i {
          assert NameOf(nodes, j) != NameOf(nodes, i);
        }
      }
    } else {
      forall j | 0 <= j < |nodes|
        ensures state[j] == next[j]
      {
      }
    }
  }

  /** Where the loop stands relative to the stop: a node that raises is the
      stop, with the result and patch log that go with it; a node that does
      not raise lies before it. */
  lemma StepHalt(nodes: seq<Node>, failing: set<string>, i: nat)
    requires i < |nodes| && i <= Halt(nodes, failing)
    ensures Abort(nodes[i], failing).Some? ==>
      && Halt(nodes, failing) == i
      && ClassifyResult(nodes, failing) == Failure(Abort(nodes[i], failing).value)
      && IssuedPatches(nodes, failing) == PatchRequests(nodes[..i + 1])
    ensures Abort(nodes[i], failing).None? ==> i < Halt(nodes, failing)
  {
    HaltSpec(nodes, failing);
  }

  // ---------------------------------------------------------------------
  // Properties of the classifier
  // ---------------------------------------------------------------------

  lemma {:induction false} EligibleConcat(a: seq<Node>, b: seq<Node>)
    ensures Eligible(a + b) == Eligible(a) + Eligible(b)
  {
    if a == [] {
      assert a + b == b;
    } else {
      assert (a + b)[1..] == a[1..] + b;
      EligibleConcat(a[1..], b);
      AppendAssoc(if IsGpuNode(a[0]) then [a[0].name] else [], Eligible(a[1..]), Eligible(b));
    }
  }

  lemma {:induction false} PatchRequestsConcat(a: seq<Node>, b: seq<Node>)
    ensures PatchRequests(a + b) == PatchRequests(a) + PatchRequests(b)
  {
    if a == [] {
      assert a + b == b;
    } else {
      assert (a + b)[1..] == a[1..] + b;
      PatchRequestsConcat(a[1..], b);
      AppendAssoc(if NeedsPatch(a[0]) then [PatchFor(a[0])] else [], PatchRequests(a[1..]), PatchRequests(b));
    }
  }

  /** The pass stops at the first node whose handling raises: every node
      before the stop is handled without raising. */
  lemma {:induction false} HaltSpec(nodes: seq<Node>, failing: set<string>)
    ensures forall j :: 0 <= j < Halt(nodes, failing) ==> Abort(nodes[j], failing).None?
  {
    if nodes != [] && Abort(nodes[0], failing).None? {
      HaltSpec(nodes[1..], failing);
      forall j | 1 <= j < Halt(nodes, failing)
        ensures Abort(nodes[j], failing).None?
      {
        assert nodes[j] == nodes[1..][j - 1];
      }
    }
  }

  /** The pass returns normally exactly when every node has a label map and
      no eligible unlabelled (no `binpack`) node's patch fails; it then
      returns the eligible names in inventory order. */
  lemma PassCompletes(nodes: seq<Node>, failing: set<string>)
    ensures ClassifyResult(nodes, failing).Success? <==>
      forall i :: 0 <= i < |nodes| ==>
        nodes[i].labels.Some? && !(NeedsPatch(nodes[i]) && nodes[i].name in failing)
    ensures ClassifyResult(nodes, failing).Success? ==> ClassifyResult(nodes, failing).value == Eligible(nodes)
  {
    HaltSpec(nodes, failing);
  }

  /** A node whose handling raises ends the pass there: the result is an
      error, no patch is issued for a later node and later nodes keep their
      labels. */
  lemma AbortStopsPass(nodes: seq<Node>, failing: set<string>, i: nat)
    requires i < |nodes|
    requires Abort(nodes[i], failing).Some?
    ensures ClassifyResult(nodes, failing).Failure?
    ensures IssuedPatches(nodes, failing) <= PatchRequests(nodes[..i + 1])
    ensures forall j :: i < j < |nodes| ==> Midway(nodes, Halt(nodes, failing))[j] == nodes[j]
  {
    var h := Halt(nodes, failing);
    assert h <= i by {
      HaltSpec(nodes, failing);
    }
    var k := h + 1;
    assert IssuedPatches(nodes, failing) == PatchRequests(nodes[..k]);
    assert nodes[..i + 1] == nodes[..k] + nodes[k..i + 1];
    PatchRequestsConcat(nodes[..k], nodes[k..i + 1]);
    MidwayClosedForm(nodes, h);
    forall j | i < j < |nodes|
      ensures Midway(nodes, h)[j] == nodes[j]
    {
      assert (StampAll(nodes[..h]) + nodes[h..])[j] == nodes[h..][j - h];
    }
  }

  /** A name is returned exactly when some node of that name has a label map
      holding "nvidia.com/gpu.present" with the value "true". */
  lemma {:induction false} EligibleMembership(nodes: seq<Node>, name: string)
    ensures name in Eligible(nodes) <==>
      exists i :: 0 <= i < |nodes| && nodes[i].name == name && nodes[i].labels.Some?
        && GPU_KEY in nodes[i].labels.value && nodes[i].labels.value[GPU_KEY] == "true"
  {
    if nodes != [] {
      EligibleMembership(nodes[1..], name);
      if name in Eligible(nodes[1..]) {
        var i :| 0 <= i < |nodes[1..]| && nodes[1..][i].name == name && IsGpuNode(nodes[1..][i]);
        assert nodes[i + 1] == nodes[1..][i];
      }
      if exists i :: 0 <= i < |nodes| && nodes[i].name == name && IsGpuNode(nodes[i]) {
        var i :| 0 <= i < |nodes| && nodes[i].name == name && IsGpuNode(nodes[i]);
        if i > 0 {
          assert nodes[1..][i - 1] == nodes[i];
        }
      }
    }
  }

  /** The result lists eligible names in inventory order. */
  lemma {:induction false} EligibleSubsequence(nodes: seq<Node>)
    ensures IsSubsequence(Eligible(nodes), Names(nodes))
  {
    if nodes != [] {
      EligibleSubsequence(nodes[1..]);
      var ys := Names(nodes);
      assert ys[1..] == Names(nodes[1..]);
      if IsGpuNode(nodes[0]) {
        assert Eligible(nodes)[0] == ys[0];
        assert Eligible(nodes)[1..] == Eligible(nodes[1..]);
      } else {
        assert Eligible(nodes) == Eligible(nodes[1..]);
      }
    }
  }

  /** A patch is issued for a completed inventory exactly when it is aimed
      at a node whose label map has "nvidia.com/gpu.present" equal to
      "true" and no `binpack` key, with that map plus binpack=true as body. */
  lemma {:induction false} PatchMembership(nodes: seq<Node>, p: Patch)
    ensures p in PatchRequests(nodes) <==>
      exists i :: 0 <= i < |nodes| && IsGpuNode(nodes[i]) && BINPACK_KEY !in nodes[i].labels.value
        && p == Patch(nodes[i].name, nodes[i].labels.value[BINPACK_KEY := TRUE])
  {
    if nodes != [] {
      PatchMembership(nodes[1..], p);
      if p in PatchRequests(nodes[1..]) {
        var i :| 0 <= i < |nodes[1..]| && IsGpuNode(nodes[1..][i]) && BINPACK_KEY !in nodes[1..][i].labels.value
          && p == Patch(nodes[1..][i].name, nodes[1..][i].labels.value[BINPACK_KEY := TRUE]);
        assert nodes[i + 1] == nodes[1..][i];
      }
      if exists i :: 0 <= i < |nodes| && IsGpuNode(nodes[i]) && BINPACK_KEY !in nodes[i].labels.value
          && p == Patch(nodes[i].name, nodes[i].labels.value[BINPACK_KEY := TRUE]) {
        var i :| 0 <= i < |nodes| && IsGpuNode(nodes[i]) && BINPACK_KEY !in nodes[i].labels.value
          && p == Patch(nodes[i].name, nodes[i].labels.value[BINPACK_KEY := TRUE]);
        if i > 0 {
          assert nodes[1..][i - 1] == nodes[i];
        }
      }
    }
  }

  /** The patch calls a pass issues, up to the one that raises, are exactly
      the patches of the nodes up to the stop that need one. */
  lemma IssuedPatchMembership(nodes: seq<Node>, failing: set<string>, p: Patch)
    ensures p in IssuedPatches(nodes, failing) <==>
      exists i :: 0 <= i < |nodes| && i <= Halt(nodes, failing) && NeedsPatch(nodes[i]) && p == PatchFor(nodes[i])
  {
    var h := Halt(nodes, failing);
    var k := if h < |nodes| then h + 1 else h;
    var pre := nodes[..k];
    PatchMembership(pre, p);
    if p in IssuedPatches(nodes, failing) {
      var i :| 0 <= i < |pre| && IsGpuNode(pre[i]) && BINPACK_KEY !in pre[i].labels.value
        && p == Patch(pre[i].name, pre[i].labels.value[BINPACK_KEY := TRUE]);
      assert pre[i] == nodes[i];
    }
    if exists i :: 0 <= i < |nodes| && i <= h && NeedsPatch(nodes[i]) && p == PatchFor(nodes[i]) {
      var i :| 0 <= i < |nodes| && i <= h && NeedsPatch(nodes[i]) && p == PatchFor(nodes[i]);
      assert pre[i] == nodes[i];
    }
  }

  /** A patch body is the node's labels plus binpack=true. */
  lemma PatchBodyExtendsLabels(n: Node)
    requires NeedsPatch(n)
    ensures PatchFor(n).node == n.name
    ensures PatchFor(n).labels.Keys == n.labels.value.Keys + {BINPACK_KEY}
    ensures PatchFor(n).labels[BINPACK_KEY] == TRUE
    ensures forall k :: k in n.labels.value ==> PatchFor(n).labels[k] == n.labels.value[k]
  {
  }

  /** Idempotence: after a pass that got through the inventory, a second
      pass gets through it too, whatever patches would fail, returns the same
      names, issues no patch call and changes no node. */
  lemma {:induction false} RerunAfterCompletion(nodes: seq<Node>, failing: set<string>, failing2: set<string>)
    requires Halt(nodes, failing) == |nodes|
    ensures Halt(StampAll(nodes), failing2) == |nodes|
    ensures Eligible(StampAll(nodes)) == Eligible(nodes)
    ensures PatchRequests(StampAll(nodes)) == []
    ensures StampAll(StampAll(nodes)) == StampAll(nodes)
  {
    if nodes != [] {
      assert StampAll(nodes)[1..] == StampAll(nodes[1..]);
      RerunAfterCompletion(nodes[1..], failing, failing2);
    }
  }
}
