# Binpack operator: node classifier and reconciliation handler

This project models the reconciliation logic of a Kubernetes operator. The
operator prepares GPU nodes for a bin-packing scheduler extender. The
repository has two near-duplicate variants, and each gets its own module.

- `filter_nvidia_nodes` walks the node inventory in order. It collects the
  names of nodes whose label `nvidia.com/gpu.present` is exactly `"true"`.
  Such a node that has no `binpack` label gets a patch call, and the patch
  body is the node's labels plus `binpack="true"`.
- `create_scheduler` runs the classifier. When no node is eligible it
  returns. Otherwise it submits one fixed `binpack-scheduler-extender`
  Deployment in namespace `default`.

The files:

- `kube.dfy` (module `Kube`) holds the part of the Kubernetes API both
  variants use:
  - the `Node`, `Patch` and Deployment datatypes;
  - the fixed extender descriptor;
  - a class `ApiServer` whose fields are the node inventory, the existing
    Deployments, and a log of every patch and create call.

  A remote failure is an input fixed when the server is built: the listing
  fails, the patch of a named node fails, or the create fails. A create also
  fails when a Deployment of that name already exists. A successful patch
  merges the body into the node's labels.
- `binpack_operator.dfy` (module `BinpackOperator`) reads a missing label
  map as empty. It logs and swallows a failed patch and goes on with the
  next node.
- `operator.dfy` (module `Operator`) uses the label map as it comes. A node
  with no label map makes the membership test raise. No exception is caught,
  so the first failure ends the pass and the handler.
- `variants.dfy` (module `Variants`) relates the two. They agree whenever
  every node is labelled and no needed patch fails. They part at a failing
  patch or an absent label map.

Each classifier is a `method` with a `while` loop over the listed nodes. It
is proved against functions of the inventory:

- `Eligible` gives the names returned.
- `PatchRequests` gives the patch calls issued.
- `StampAll` gives the labels the server ends with.
- `Halt` and `ClassifyResult` give, in `operator.py`, where the pass stops and
  what it raises.

The lemmas state the properties of those functions.

## Model

| member | source | states |
|---|---|---|
| BinpackOperator.FilterNvidiaNodes | binpack_operator.py:19-48 | A failed listing raises with nothing patched. Otherwise it returns the eligible names of the whole inventory in order, whichever patches fail; it logs exactly the patches for eligible nodes lacking `binpack`; and the nodes end stamped except those whose patch failed |
| BinpackOperator.CreateScheduler | binpack_operator.py:50-91 | A listing failure raises with no patch and no create. An empty result returns with no create call. A non-empty result makes exactly one create of the fixed descriptor in `default`, and a failing create raises. `nodeSelector` plays no part |
| BinpackOperator.EligibleMembership | binpack_operator.py:29-35 | A name is returned iff some node of that name has `nvidia.com/gpu.present` mapped to `"true"` |
| BinpackOperator.ExactMatch | binpack_operator.py:34 | The match is exact: `"TRUE"`, `"1"` and a missing key are not eligible |
| BinpackOperator.EligibleSubsequence | binpack_operator.py:29-35 | The result is a subsequence of the inventory's names (inventory order is kept) |
| BinpackOperator.DropIneligible | binpack_operator.py:34-35 | An ineligible node can be removed from the inventory without changing the result |
| BinpackOperator.DropUnpatched | binpack_operator.py:37-41 | A node that needs no patch can be removed without changing the patch calls |
| BinpackOperator.BareNodeNotEligible | binpack_operator.py:30 | A node with absent or empty labels is never in the result |
| BinpackOperator.BareNodeNotPatched | binpack_operator.py:30-41 | A node with absent or empty labels is never patched |
| BinpackOperator.PatchMembership | binpack_operator.py:37-41 | A patch is issued iff it is for an eligible node with no `binpack` key, and its body is that node's labels with `binpack="true"` |
| BinpackOperator.PatchBodyExtendsLabels | binpack_operator.py:38-41 | The patch body has the node's keys plus `binpack`, every old value unchanged and `binpack` = `"true"` |
| BinpackOperator.StampKeepsLabels | binpack_operator.py:37-41 | After the pass no label is lost or changed, the only new key is `binpack="true"` on a node whose patch succeeded, and every other node is untouched |
| BinpackOperator.StampPreservesEligible | binpack_operator.py:34-41 | Patching does not change which nodes are eligible |
| BinpackOperator.RerunRetriesFailedPatches | binpack_operator.py:37-43 | A second pass on the resulting inventory issues exactly the patches that failed the first time, in order |
| BinpackOperator.SecondPassIsQuiet | binpack_operator.py:37 | After a pass whose patches all succeeded, a second pass returns the same names, issues no patch and changes no node |
| BinpackOperator.Scenarios | binpack_operator.py:29-41 | Concrete inventories: a GPU node beside an unlabelled one, a GPU label `"false"`, and a GPU node already carrying `binpack` |
| Operator.FilterNvidiaNodes | operator.py:12-26 | A failed listing raises with nothing patched. Otherwise it returns or raises exactly `ClassifyResult`; the patch log gains the calls up to and including the one that raised; and the nodes before the stop end stamped while the rest are untouched |
| Operator.CreateScheduler | operator.py:29-63 | A listing, label or patch failure raises with no create call. An empty result returns with no create call. A non-empty result makes exactly one create of the fixed descriptor with image `myrepo/binpack-scheduler:latest` |
| Operator.Halt | operator.py:16-24 | The stop lies within the inventory, and a stop before its end is a node whose handling raises |
| Operator.HaltSpec | operator.py:16-24 | No node before the stop raises |
| Operator.PassCompletes | operator.py:17-24 | The pass returns normally iff every node has a label map and no eligible node lacking `binpack` has a failing patch; it then returns the eligible names |
| Operator.AbortStopsPass | operator.py:17-24 | A raising node makes the pass raise; no later node is patched or changed |
| Operator.EligibleMembership | operator.py:20-21 | A name is returned iff some node of that name has a label map with `nvidia.com/gpu.present` equal to `"true"` |
| Operator.EligibleSubsequence | operator.py:16-21 | The result keeps inventory order (a subsequence of the names) |
| Operator.PatchMembership | operator.py:20-24 | Over an inventory the pass gets through, a patch is issued iff it is for a node whose label map has `nvidia.com/gpu.present` = `"true"` and no `binpack` key, with that map plus `binpack="true"` as body |
| Operator.IssuedPatchMembership | operator.py:16-24 | The patch calls of a pass, up to the one that raises, are exactly the patches of the nodes at or before the stop that need one |
| Operator.PatchBodyExtendsLabels | operator.py:22-24 | The patch body is the node's labels plus `binpack="true"`, other values unchanged |
| Operator.RerunAfterCompletion | operator.py:22 | After a pass that got through, a second pass gets through whatever patches would fail, returns the same names, issues no patch and changes no node |
| Kube.ExtenderDeploymentShape | binpack_operator.py:67-85 | The descriptor (the same in operator.py:42-60 apart from the image): name `binpack-scheduler-extender`, 1 replica, selector and pod labels `app=binpack-scheduler` with the selector selecting the pods, one container `scheduler-extender` with the given image on port 8080 |
| Kube.ApiServer.ListNode | binpack_operator.py:21 | The call fails iff the server is set to fail the listing; otherwise it returns the inventory |
| Kube.ApiServer.PatchNode | binpack_operator.py:41 | The call is logged; it succeeds iff the node's patch is not set to fail, and then merges the body into that node's labels; names stay distinct |
| Kube.ApiServer.CreateNamespacedDeployment | binpack_operator.py:87 | The call is logged; it succeeds iff creates are not set to fail and no Deployment of that name exists in the namespace, and then records it |
| Kube.MergeLabels | binpack_operator.py:41 | A merge patch keeps every node's name |
| Variants.SameNodeDecision | operator.py:20-24 | On a labelled node both variants' GPU tests, patch decisions and patch bodies coincide |
| Variants.AgreeOnLabelledInventory | operator.py:16-24 | On a fully labelled inventory both variants return the same names and issue the same patches |
| Variants.SameOutcomeWithoutFaults | operator.py:16-26 | With every node labelled and no needed patch failing, `operator.py` gets through the inventory with the same result, patch log and final labels as `binpack_operator.py` |
| Variants.PatchFailureDivergence | binpack_operator.py:40-43 | On any inventory, a failing patch leaves that node in `binpack_operator.py`'s result, while `operator.py` raises at that node or before it |
| Variants.UnlabelledDivergence | binpack_operator.py:30 | A node with no label map is ignored by `binpack_operator.py` but makes `operator.py` raise at that node or before it |

Proof steps with no row of their own, used by the members above: the
concatenation lemmas `EligibleConcat`, `PatchRequestsConcat` and
`FailedPatchesConcat`; `FailedPatchesNone`; the loop-step lemmas `Advance`
and `Operator.StepHalt`; `MidwayClosedForm` and `MidwayComplete`, which
give the inventory part-way through the loop in closed form; and the
`Kube` helpers `AppendAssoc`, `MergeExtension` and `DistinctNamesTransfer`.

## Left out

- Client and config initialisation at module load, and the `kopf.on.create`
  registration with its redelivery and backoff: framework plumbing, outside
  the logic. The two handles `api` and `apps_api` are one `ApiServer`.
- Logging and `print` output, and the unused `yaml` import: observability
  only.
- Concurrent reconciliation events and lost-update races on node labels:
  concurrency is not modelled. Each call runs alone against the server
  state.
- The real `V1Deployment` classes: the descriptor is a plain datatype
  holding the literal field values.
- The server's handling of a label patch is modelled as a merge of the body
  into the stored labels. The client library and server code that decide
  this are not part of this model.
- A failing remote call is assumed to change nothing on the server. An
  error raised after the server already applied a patch or a create is not
  modelled. The final-state contracts of both classifiers rely on this, and
  so do `StampKeepsLabels` and `RerunRetriesFailedPatches`.
- Node names are assumed unique in the inventory (`ApiServer.Valid`), as
  the cluster guarantees.
- The classifier writes `binpack` into the listed label dict before
  patching. That local dict is dropped afterwards and is not observable;
  the model builds the patch body as a new map.
- `nodeSelector` is read and never used in either variant. The model reads
  it and drops it, and the handlers' contracts do not mention it.
- In `operator.py` a node whose label map is absent makes the membership
  test raise a `TypeError`. The model does not exclude such inventories by
  a precondition: the classifier returns the error `LabelsMissing` for
  that node, and the handler raises with it.
- The extender's own scheduling algorithm is not part of this model.
