# Unit operator: a Dafny model

This project models the reconcile logic of a Kubernetes operator for database units, and proves properties of it that
hold over whole runs. A UnitSet owns numbered Units; each Unit owns one Pod and its volume claims. The controllers re-read
the cluster, take one bounded step, and are called again, so most guarantees are about every interleaving of such steps.

Each module is one component. `Common` and `Cluster` hold the shared value types.

- `Naming`: unit names printed, parsed back and sorted.
- `Passes`, `RollingSafety`, `RollingConvergence`: the resource pass and the resize-policy pass of a rolling update, their
  safety under interleaved changes, and their convergence.
- `ImageRollout`, `Composition`: the image pass, and all three passes of one reconcile sharing one cursor.
- `ComposedRuns`, `ComposedSafety`, `ComposedConvergence`: whole runs of that reconcile with its status steps, which put the
  units with a task into the cursor: when an image rollout ends, how many units are down at a time, and that the resource
  and the resize-policy pass together bring all units in line once the image is.
- `Assembly`: environment lists and volume mounts merged into a Unit's pod template.
- `EnvCompare`, `PodDrift`, `PodConvergence`: the two environment comparisons, drift detection, and resizing, recreating
  and patching a Pod until it matches its Unit.
- `Scaling`: creating missing Units and deleting surplus ones.
- `Finalizers`, `Deletion`: concurrent finalizer workers on one object, and the cascade from UnitSet to Unit to Pod and claim.
- `AesKey`: a project's key kept in two places.
- `Pki`: the certificates of the operator's webhooks.
- `GrpcCall`: a remote call that is to be issued once.
- `Paths`, `ConfigFlatten`: configuration trees flattened to slash-separated keys.
- `SqlLiteral`: string literals in backup and restore statements.

A state that code changes step by step is a class whose methods are proved equal to a function of the old state; the
theorems are about that function. API calls are atomic reads and writes of explicit state. A failing call is an input
(`Fault`, or a boolean), and so are clocks, random keys, phases that units show, and what other writers do.

## Where the code does less than it promises

- The three rolling passes share one cursor. Each converges while it alone moves the cursor, but together they need not.
  From an empty cursor, with no failing call and no tasks but those of Units just upgraded, an image rollout ends exactly
  when as many reconciles as there are Units found no task, and no Unit other than the first and the last one reads as
  Ready when the image pass leaves it, which the resource pass takes for its own work done (`ComposedRuns.EndsExactly`).
  While such a Unit stays up to date and Ready, the rollout does not get past it unless a task names a later Unit
  (`ComposedRuns.RolloutNeverEnds`, `ComposedRuns.TaskOnLastUnitEnds`). The status step after the passes can put a Unit in
  the way by storing its name once more (`ComposedRuns.LateWritePutsUnitInTheWay`). Once the image is up to
  date, the other two passes do converge together (`ComposedConvergence.WholeReconcileConverges`).
- The three passes together have at most one Unit down at a time because Units that are down have a task, which the status
  step puts into the cursor (`ComposedSafety.AtMostOneInFlight`); where a reconcile misses the task, the image pass goes on
  to the next Unit (`ComposedSafety.MissedTaskBreaksSafety`).
- One reconcile stays within one Unit exactly when the in-memory cursor does not name a live Unit that is no longer desired
  while the first desired Unit is live (`Composition.AtMostOneExactly`).
- The resize-policy pass returns before looking at the cursor once no Unit differs. A run of it ends with an empty cursor
  exactly if it started with one and had nothing to do (`RollingConvergence.ResizeLeavesCursor`,
  `RollingConvergence.ResizeCursorStays`).
- A rolling pass keeps at most one rewritten Unit in flight exactly when a rewritten Unit does not go on showing Ready
  (`RollingSafety.SafeExactlyWhenReadyDrops`).
- A valid key in the secret beside a different, non-empty annotation is never repaired (`AesKey.AgreesExactly`). Without a
  secret to begin with, the copies agree after every success of every run exactly if the annotation is absent, empty or a
  key (`AesKey.AlwaysAgreesExactly`); otherwise a failed write of the project can make them differ for good
  (`AesKey.FailedWriteCanDivergeForGood`).
- If the authority's secret is lost, the server certificate keeps its old signer until it expires or its names change
  (`Pki.ChainRestoredExactly`). Certificates hold whole seconds, so renewals are more than 83 days less five minutes apart up
  to one second (`Pki.LeafRenewalsFarApart`).
- A GrpcCall whose status write fails issues its call again (`GrpcCall.FailedWritesRepeatCall`).
- The removals of one reconcile under deletion stick in every schedule exactly if at most one of the operator's finalizers
  that it read has its resources gone (`Finalizers.RemovalsStickExactly`). Otherwise two workers can finish without an
  error and leave a finalizer behind (`Finalizers.RemovalCanBeLost`); no resource is lost by that
  (`Finalizers.EventKeepsSound`).
- A drift comparison is reflexive only on lists with distinct names (`EnvCompare.ReflexiveExactlyWhenDistinct`); the
  deduplication done when a Unit is assembled is what keeps Pods from being recreated for ever
  (`PodConvergence.FreshPodStableExactly`, `PodConvergence.NoRecreateLoop`).

## Model

| member | source | states |
|---|---|---|
| Naming.AtoiItoa | pkg/controller/unitset/unitset_unit_update.go:70-73 | A printed number parses back to itself, exactly up to the largest machine integer; beyond it, parsing fails. |
| Naming.AtoiSigned | pkg/controller/unitset/unitset_unit_update.go:70-73 | With one sign in front the number or its negative is parsed, exactly inside the machine range. |
| Naming.OtherCharactersRejected | pkg/controller/unitset/unitset_unit_update.go:70-73 | Anything but a digit is rejected, except for one sign in front. |
| Naming.OrdinalAfterLastDash | pkg/controller/unitset/unitset_unit_update.go:64-76 | The ordinal of any name is what follows its last dash, parsed; a name without a dash has none. |
| Naming.OrdinalOfUnitName | pkg/controller/unitset/unitset_unit_update.go:64-76 | Whatever dashes and digits the base name has, the ordinal parsed from unit name i is i. |
| Naming.UnitNameInjective | api/v1alpha2/unitset_funs.go:13-17 | Units of one base with the same name have the same ordinal. |
| Naming.UnitNames | api/v1alpha2/unitset_funs.go:8-20 | The loop lists name-0 to name-(n-1) in this order and maps each name, and nothing else, to its printed index. |
| Naming.NamesDistinct | api/v1alpha2/unitset_funs.go:8-20 | The names of one unit set are pairwise distinct and never empty. |
| Naming.LexLessIsStrictTotalOrder | pkg/controller/unitset/unitset_unit_update.go:52-58 | The string comparison that breaks ties is a strict total order. |
| Naming.LexLessExactly | pkg/controller/unitset/unitset_unit_update.go:52-58 | One string is less than another if and only if it is at their first difference, or ends there. |
| Naming.BeforeExactly | pkg/controller/unitset/unitset_unit_update.go:43-60 | Higher ordinals come first, names without one last, and ties are in descending string order. |
| Naming.BeforeIsStrictTotalOrder | pkg/controller/unitset/unitset_unit_update.go:43-60 | The comparator is irreflexive, transitive and total on distinct names, with and without ordinals. |
| Naming.SortedUnique | pkg/controller/unitset/unitset_unit_update.go:40-62 | Two sorted arrangements of the same names are equal, so any sorting algorithm gives the same list. |
| Naming.SortUnitNamesByOrdinal | pkg/controller/unitset/unitset_unit_update.go:40-62 | The result is sorted, is a permutation of the input, and equals an input that is already sorted. |
| Naming.DescendingIsSorted | pkg/controller/unitset/unitset_unit_update.go:43-60 | The list from name-(n-1) down to name-0 is sorted. |
| Naming.SortedUnitNames | pkg/controller/unitset/unitset_unit_update.go:590-590 | Sorting a unit set's names gives exactly name-(n-1) down to name-0. |
| Passes.MergeResources | pkg/controller/unitset/unitset_unit_update.go:773-784 | The loop replaces the resources of every container of the main type and nothing else. |
| Passes.MergeResizePolicy | pkg/controller/unitset/unitset_unit_update.go:1248-1261 | The loop replaces the resize policy of the first container of the main type and nothing else. |
| Passes.MergeChangesOneField | pkg/controller/unitset/unitset_unit_update.go:773-784 | Either write leaves every other field, container, label, annotation and the phase as they were. |
| Passes.MergeSettles | pkg/controller/unitset/unitset_unit_update.go:979-1001 | After a pass's write the unit no longer differs for this pass, and differs for the other pass as much as before. |
| Passes.NeedsExactly | pkg/controller/unitset/unitset_unit_update.go:979-1001 | A unit differs for the resource pass exactly if some container of the main type asks for other amounts of cpu or memory, in limits or requests, and for the resize pass exactly if the first such container has other policy elements. |
| Passes.MergeWritesTarget | pkg/controller/unitset/unitset_unit_update.go:773-784 | A rewritten container gets all of the resources, or the policy, of the unit set. |
| Passes.FirstNeedingExactly | pkg/controller/unitset/unitset_unit_update.go:597-608 | What is found is the first outdated unit in order, or none if there is none. |
| Passes.NextNeedingExactly | pkg/controller/unitset/unitset_unit_update.go:1171-1191 | With distinct names, it is the first outdated one after the current one, or none. |
| Passes.NoneAfterUndesired | pkg/controller/unitset/unitset_unit_update.go:1171-1191 | After a unit that is not desired any more, none is found. |
| Passes.DecidesExactly | pkg/controller/unitset/unitset_unit_update.go:592-674 | When a pass rewrites, waits, clears a cursor whose unit is gone, moves on, starts or is done, by what it read of the units and by how they compare with the target. |
| Passes.FailsExactly | pkg/controller/unitset/unitset_unit_update.go:1100-1117 | With accepted writes a pass fails exactly if it waits for a unit to resize, or the unit to rewrite is gone; a failing pass changes nothing. |
| Passes.FindFirstNeeding | pkg/controller/unitset/unitset_unit_update.go:597-608 | The loop computes the search whose result `Passes.FirstNeedingExactly` states. |
| Passes.FindNextNeeding | pkg/controller/unitset/unitset_unit_update.go:1171-1191 | The loop with its found flag computes the search whose result `Passes.NextNeedingExactly` states. |
| Passes.Reconciler.UpdateInUpdateStatus | pkg/controller/unitset/unitset_unit_update.go:247-276 | The persisted cursor becomes the given name; a refused write is an error, unless the name is there already. |
| Passes.Reconciler.RewriteUnit | pkg/controller/unitset/unitset_unit_update.go:745-771 | The unit is fetched again and its merged copy stored; only the resource pass skips a unit that no longer differs; a unit that is gone or a refused write is an error that changes nothing. |
| Passes.Reconciler.ReconcilePass | pkg/controller/unitset/unitset_unit_update.go:592-674 | One reconcile of either pass: the phases of the code refine one decision on what was read, which `Passes.DecidesExactly` characterises, applied to what is stored, and report exactly the code's errors. |
| RollingSafety.InvStep | pkg/controller/unitset/unitset_unit_update.go:592-674 | A unit in flight exists, is not Ready, is where the cursor stands, and was seen not Ready by a reconcile under way; each step keeps this. |
| RollingSafety.AtMostOneInFlight | pkg/controller/unitset/unitset_unit_update.go:592-674 | In every run interleaved with any changes to units, names and target, at most one unit, the cursor's, is rewritten and not yet Ready again. |
| RollingSafety.CursorLeavesOnlySettledUnits | pkg/controller/unitset/unitset_unit_update.go:626-660 | The cursor leaves an existing unit only when the reconcile read it as Ready and equal to the target in cpu and memory, or in its resize policy. |
| RollingSafety.StaleReadyBreaksSafety | pkg/controller/unitset/unitset_unit_update.go:626-668 | If a rewritten unit still reads as Ready, four reconciles put two units in flight. |
| RollingSafety.SafeExactlyWhenReadyDrops | pkg/controller/unitset/unitset_unit_update.go:592-674 | For either pass, all runs are safe if and only if the phase a rewritten unit shows is not Ready. |
| RollingConvergence.ActiveReconcileDecreases | pkg/controller/unitset/unitset_unit_update.go:592-674 | Every reconcile of either pass that neither waits nor is done decreases (units still differing, cursor stage). |
| RollingConvergence.BoundedWork | pkg/controller/unitset/unitset_unit_update.go:592-674 | However phases behave, a run has fewer than six active reconciles per desired unit and six more. |
| RollingConvergence.AllMatchExactly | pkg/controller/unitset/unitset_unit_update.go:979-1001 | No desired unit is counted as differing if and only if every existing one equals the target in cpu and memory, or in its resize policy. |
| RollingConvergence.IdleExactlyWhenConverged | pkg/controller/unitset/unitset_unit_update.go:1037-1048 | With all units Ready, a reconcile has nothing to do exactly when every existing desired unit equals the target in cpu and memory (resize pass: in its policy) and, for the resource pass, the cursor is empty. |
| RollingConvergence.Converges | pkg/controller/unitset/unitset_unit_update.go:1041-1118 | If units come back to Ready, that many reconciles end with every existing desired unit equal to the target in cpu and memory, or in its policy; the resource pass ends with an empty cursor, the resize pass with one exactly if it started so and had nothing to do. |
| RollingConvergence.ResizeLeavesCursor | pkg/controller/unitset/unitset_unit_update.go:1037-1039 | However phases behave, a run of the resize pass that leaves no unit differing has an empty cursor exactly if it started so and had nothing to do. |
| RollingConvergence.ResizeCursorStays | pkg/controller/unitset/unitset_unit_update.go:1109-1117 | Two reconciles bring an only unit in line and leave its name in the cursor. |
| RollingConvergence.StaysConverged | pkg/controller/unitset/unitset_unit_update.go:592-674 | A converged rollout stays converged. |
| ImageRollout.ImageReconciler.PerformRollingUpdate | pkg/controller/unitset/unitset_unit_update.go:162-244 | One call: start or restart, upgrade the current unit if its version differs, advance or clear the cursor, for each call that may fail; `ImageRollout.PerformUpgradesOne` says what a unit becomes. |
| ImageRollout.ImageReconciler.ReconcileImageVersion | pkg/controller/unitset/unitset_unit_update.go:97-159 | Nothing happens if the namespace's template is up to date; the template is replaced only after the walk reports done. |
| ImageRollout.PerformMovesOn | pkg/controller/unitset/unitset_unit_update.go:162-244 | A failing call leaves the rollout at unit k with all units before it up to date; a successful one moves on by exactly one unit. |
| ImageRollout.PerformUpgradesOne | pkg/controller/unitset/unitset_unit_update.go:353-410 | Any call, failing or not, touches only the current unit and leaves it as it is or gives it the assembled template, keeping labels and all annotations but the version; it is left alone if it has the version, and has it after a success. |
| ImageRollout.PerformFailsExactly | pkg/controller/unitset/unitset_unit_update.go:162-244 | A call fails exactly if the unit is missing or a call fails that it has to make, and may then have started the walk at most. |
| ImageRollout.TemplateReplacedExactly | pkg/controller/unitset/unitset_unit_update.go:97-159 | The pass is skipped exactly if the template is up to date or no unit is desired; the template is replaced exactly by a call that finishes the walk, unless that write fails. |
| ImageRollout.InvRun | pkg/controller/unitset/unitset_unit_update.go:97-244 | This standing holds throughout every run with outside changes that keep recorded versions. |
| ImageRollout.PrefixCarriesVersion | pkg/controller/unitset/unitset_unit_update.go:162-307 | From an empty cursor, at every point of every run all units before the cursor carry the target version, and the template was replaced only if all units do. |
| ImageRollout.ExactlyNSuccesses | pkg/controller/unitset/unitset_unit_update.go:226-243 | The pass reports done at exactly the N-th successful call, whatever calls fail in between; after n of them the first n units carry the version. |
| ImageRollout.AssembledNeedsExactly | pkg/controller/unitset/unitset_unit.go:541-553 | A freshly assembled unit never needs the resource pass, and needs the resize pass exactly when the unit set has no policy but the template's main container does. |
| Composition.WrittenIsComplete | pkg/controller/unitset/unitset_controller.go:229-244 | No reconcile adds or removes units, or touches the template of a unit outside the recorded set; what it must do is in `ComposedConvergence`. |
| Composition.EachPassHasOneTarget | pkg/controller/unitset/unitset_unit_update.go:592-674 | The image pass writes at most the current unit, the other two at most the live unit of the in-memory cursor. |
| Composition.AtMostOneUnit | pkg/controller/unitset/unitset_controller.go:229-244 | The three passes of one reconcile together write at most one unit, and which, unless cursor and names offer two targets. |
| Composition.TwoUnitsWritten | pkg/controller/unitset/unitset_unit_update.go:196-204 | Otherwise one reconcile writes two: the first desired unit for its image, the cursor's for its resources. |
| Composition.AtMostOneExactly | pkg/controller/unitset/unitset_controller.go:229-244 | So it is at most one for all targets, templates and phases if and only if there are no two targets. |
| Composition.ImageProgressSurvives | pkg/controller/unitset/unitset_unit_update.go:627-648 | The image pass's advance survives the same reconcile exactly when the unit just passed is not Ready; else the cursor is cleared. |
| Composition.OthersOnlyClear | pkg/controller/unitset/unitset_unit_update.go:627-648 | With nothing else needed, all that the resource and resize passes can do is to clear a cursor whose unit is Ready. |
| ComposedRuns.ReconcileAt | pkg/controller/unitset/unitset_controller.go:204-244 | A reconcile that finds no task, at unit k, gives that unit its turn and no other, and ends at the next unit, at the empty cursor, or with the template replaced, exactly as the unit reads afterwards. |
| ComposedRuns.TaskRoundWaits | pkg/controller/unitset/unitset_status.go:228-230 | A reconcile whose one task is that of the upgraded, not yet Ready unit just left changes nothing, whether or not the status step stores that name before the passes. |
| ComposedRuns.EndsExactly | pkg/controller/unitset/unitset_controller.go:204-244 | In every run from an empty cursor, whatever happens to units that had their turn: the template is replaced if and only if as many reconciles as units found no task and no unit between the first and the last reads as Ready after its turn. |
| ComposedRuns.RolloutNeverEnds | pkg/controller/unitset/unitset_unit_update.go:627-648 | While a unit between the first and the last stays up to date and Ready and no task names a later unit, no run with failing image calls, stored overlays and changes to other units replaces the template. |
| ComposedRuns.TaskOnLastUnitEnds | pkg/controller/unitset/unitset_status.go:228-230 | From every such state, one reconcile that finds a task on the last unit alone replaces the template. |
| ComposedRuns.LateWritePutsUnitInTheWay | pkg/controller/unitset/unitset_status.go:265-274 | If the status step stores its cursor only after the passes, the rollout is back at the unit it had left, which is in the way once it is Ready. |
| ComposedRuns.ImageErrorEndsReconcile | pkg/controller/unitset/unitset_controller.go:229-234 | After a failing image call, neither the other passes nor the second status step take place. |
| ComposedRuns.ResizeErrorSkipsStatus | pkg/controller/unitset/unitset_controller.go:241-260 | While the resize pass waits for a unit, the second status step stores no cursor. |
| ComposedRuns.TasksNotAfter | pkg/controller/unitset/unitset_status.go:228-230 | Joined task names name no later unit if none of them does, since unit names have no comma. |
| ComposedSafety.PassesKeepInv | pkg/controller/unitset/unitset_controller.go:229-244 | With an in-memory cursor that is empty, desired or joined, one reconcile writes at most one unit, a desired one, and leaves such a cursor. |
| ComposedSafety.AtMostOneInFlight | pkg/controller/unitset/unitset_controller.go:204-244 | In every run with fixed names, interleaved with units going down and coming back and with changing targets, the three passes together have at most one unit written and not Ready again. |
| ComposedSafety.MissedTaskBreaksSafety | pkg/controller/unitset/unitset_unit_update.go:226-235 | However many units passed are in flight, a reconcile that reads no task puts the next outdated one in flight beside them. |
| ComposedConvergence.EmptyCursorNamesFirst | pkg/controller/unitset/unitset_unit_update.go:1053-1068 | From an empty cursor, a reconcile names the first unit with another resize policy, or else the first with other resources, or none, and writes no unit. |
| ComposedConvergence.CursorUnitBroughtInLine | pkg/controller/unitset/unitset_unit_update.go:651-668 | A Ready unit that the cursor names equals the target in cpu and memory after the reconcile; in its resize policy exactly if it did before, or some desired unit did not and it reads as Ready once more. |
| ComposedConvergence.TurnProgresses | pkg/controller/unitset/unitset_controller.go:229-244 | Each reconcile that finds all units Ready and no task decreases a measure over both passes, or has reached its end. |
| ComposedConvergence.WholeReconcileConverges | pkg/controller/unitset/unitset_controller.go:204-260 | With the image pass idle, units coming back to Ready and no tasks, twelve reconciles per desired unit and five more end with every existing desired unit equal to the target in cpu, memory and resize policy, and an empty cursor. |
| ComposedConvergence.IdleExactlyInLine | pkg/controller/unitset/unitset_controller.go:229-244 | With all units Ready, both passes change nothing if and only if there is no unit, or every existing desired unit is in line and the cursor is empty. |
| Assembly.MergeEnvs | pkg/controller/unitset/unitset_unit.go:592-602 | The loops compute the merge of the unit set's, the mounts' and the template's lists. |
| Assembly.MergedEnvIsFirstOccurrences | pkg/controller/unitset/unitset_unit.go:577-675 | The merge is exactly the first occurrences by name of the three lists joined, in their order, so its names are distinct. |
| Assembly.LastListedWins | pkg/controller/unitset/unitset_unit.go:697-701 | Of several mounts of one name, the last listed one is kept. |
| Assembly.KeptExactly | pkg/controller/unitset/unitset_unit.go:697-701 | A mount is kept if and only if it is the last listed one of its name. |
| Assembly.RangeMounts | pkg/controller/unitset/unitset_unit.go:697-705 | Ranging over the map yields each name once, in some order, with its last listed mount. |
| Assembly.OwnMountsArePrefix | pkg/controller/unitset/unitset_unit.go:726-737 | For every iteration order, a container keeps its own mounts as a prefix and gains exactly the new ones. |
| Assembly.OneMountPerNewName | pkg/controller/unitset/unitset_unit.go:686-737 | Each name it did not have contributes exactly one mount. |
| Assembly.MountsIndependentOfOrder | pkg/controller/unitset/unitset_unit.go:686-737 | The multiset of mounts is the same for all iteration orders. |
| Assembly.AssembleTemplate | pkg/controller/unitset/unitset_unit.go:541-737 | The loops over both container lists compute the assembled template that `Assembly.AssembledExactly` describes, each container on its own. |
| Assembly.AssembledTemplate | pkg/controller/unitset/unitset_unit.go:577-646 | An assembled template keeps its container names, and no container has two variables of one name; whose variable wins is in `Assembly.AssembledExactly`. |
| Assembly.AssembledExactly | pkg/controller/unitset/unitset_unit.go:541-737 | For every container: the first variable of each name of the unit set, then the mounts, then its own; its own mounts, then the last listed one of each new name; the unit set's resources, and policy if there is one, for main containers only; all else, init containers' resources included, as in the template. |
| EnvCompare.CompareEnvLists | pkg/controller/unit/unit_po.go:513-567 | The loop over a map that it empties computes the drift comparison. |
| EnvCompare.CompareEnvVars | pkg/controller/unit/unit_po.go:284-318 | The loop over the map computes the patch comparison, in every iteration order. |
| EnvCompare.LoopCompareExactly | pkg/controller/unit/unit_po.go:513-567 | If no entry sets both value and source, the drift comparison holds exactly when nil-ness agrees, names are distinct, and both lists are equal as maps. |
| EnvCompare.NoDriftMeansNoPatch | pkg/controller/unit/unit_po.go:284-318 | Then the patch comparison holds as well. |
| EnvCompare.EnvVarsEqualExactly | pkg/controller/unit/unit_po.go:284-318 | Against a list of distinct names, the patch comparison holds if and only if the other list has distinct names too and both are equal as maps. |
| EnvCompare.ReflexiveExactlyWhenDistinct | pkg/controller/unit/unit_po.go:513-567 | A list matches itself exactly when its names are distinct. |
| PodDrift.IfNeedUpgradePod | pkg/controller/unit/unit_po.go:438-510 | The nested loops report the first drift in order: containers, init containers, node affinity. |
| PodDrift.NoContainerDrift | pkg/controller/unit/unit_po.go:441-486 | None is reported exactly when no unit container differs from the first pod container of its name. |
| PodDrift.DriftHasCause | pkg/controller/unit/unit_po.go:441-486 | A reported reason is the drift of the first container that has drifted. |
| PodDrift.GeneratePatchPod | pkg/controller/unit/unit_po.go:219-281 | The loops that edit the clone compute the patch target: labels, annotations, node name, images and environment lists. |
| PodDrift.ConvertExactly | pkg/controller/unit/unit_po.go:372-436 | A new pod has the unit's containers and node name, and the template's labels and annotations, with the unit's own under all other keys. |
| PodConvergence.DriftFreeExactly | pkg/controller/unit/unit_po.go:438-510 | A pod asks for no upgrade exactly when all containers both sides have agree on variables, the main one also on image, cpu, memory and resize policy, init containers agree, and node affinity did not fail. |
| PodConvergence.PatchSettles | pkg/controller/unit/unit_po.go:194-281 | One accepted patch brings over the unit's labels, annotations and the images of other containers, keeps the pod's other labels and annotations, and leaves a second patch nothing to do. |
| PodConvergence.PatchSyncsContainers | pkg/controller/unit/unit_po.go:219-281 | Each container takes the image, unless it is the main or an init container, and the variables of the unit's container of its name, and keeps all else; a node name the unit asks for wins. |
| PodConvergence.PodController.ReconcilePod | pkg/controller/unit/unit_po.go:26-126 | One reconcile creates, resizes in place, recreates and patches, or only patches the pod, with each call that may fail; which of these is in `PodConvergence.ResizedExactly` and `PodConvergence.AttemptExactly`. |
| PodConvergence.FreshPodStableExactly | pkg/controller/unit/unit_po.go:372-396 | A freshly converted pod asks for no upgrade exactly when no container of the unit repeats a variable. |
| PodConvergence.NoDriftLeavesEnvsAlone | pkg/controller/unit/unit_po.go:248-278 | When no drift is reported, the patch leaves every environment list untouched. |
| PodConvergence.KeptStaysDriftFree | pkg/controller/unit/unit_po.go:100-112 | A pod without drift has none after the reconcile, whether or not its patch is accepted. |
| PodConvergence.RecreatedHasNoDrift | pkg/controller/unit/unit_po.go:320-370 | A recreated pod has no drift, although the patch that follows was computed from the old one. |
| PodConvergence.ResizeAligns | pkg/controller/unit/unit_po.go:128-192 | An in-place resize always finds its containers and leaves no drift in cpu or memory. |
| PodConvergence.ResizedOnlyWhenAllowed | pkg/controller/unit/unit_po.go:76-90 | A resize changes the main container's resources only, to the unit's; when it takes place is in `PodConvergence.ResizedExactly`. |
| PodConvergence.ResizedExactly | pkg/controller/unit/unit_po.go:76-90 | A pod is resized in place if and only if that is enabled, the main container is named and on both sides with the same image and resize policy, the amounts of cpu or memory differ, and no container listed before it has drifted. |
| PodConvergence.AttemptExactly | pkg/controller/unit/unit_po.go:26-126 | Which action a reconcile comes to, for each failing call; a failing one changes nothing, unless it has deleted the pod and cannot create the new one. |
| PodConvergence.PodConverges | pkg/controller/unit/unit_po.go:55-126 | From any pod or none and whatever fails: of the successful reconciles the first may resize, the next may create or recreate, all others only keep a pod without drift. |
| PodConvergence.TwoSuccessesSuffice | pkg/controller/unit/unit_po.go:55-126 | After two successful reconciles the pod never asks to be upgraded again. |
| PodConvergence.NoRecreateLoop | pkg/controller/unitset/unitset_unit.go:577-646 | The pod of a unit assembled from a template with unique container names is created once, whatever fails, and never resized or recreated; the unit names its main container and version. |
| Scaling.CountExceedsExactly | pkg/controller/unitset/unitset_unit.go:77-83 | Once the first n units exist, more than n are listed if and only if some unit has a serial number of at least n. |
| Scaling.SurplusExactly | pkg/controller/unitset/unitset_unit.go:112-120 | The walk's test on the label holds exactly of the units outside name-0 to name-(n-1). |
| Scaling.CreatesExactlyMissing | pkg/controller/unitset/unitset_unit.go:42-75 | Creating adds exactly the missing ones of the first n units that can be created, and changes no other. |
| Scaling.CreatedAreLabelled | pkg/controller/unitset/unitset_unit.go:154-155 | Created units carry their ordinal as serial label. |
| Scaling.RemovesOnlySurplus | pkg/controller/unitset/unitset_unit.go:103-133 | The walk never deletes a lower serial; if it succeeds and nothing vanishes meanwhile, it deletes every listed surplus unit. |
| Scaling.RemovesExactly | pkg/controller/unitset/unitset_unit.go:103-133 | The walk deletes exactly the surplus units listed before the first bad label, failing delete or vanished unit, and fails exactly for the first two. |
| Scaling.UnitStore.CreateMissing | pkg/controller/unitset/unitset_unit.go:42-75 | The loop creates the missing units with their labels, and succeeds exactly if none of the first n is unreachable. |
| Scaling.UnitStore.Remove | pkg/controller/unitset/unitset_unit.go:111-132 | The loop deletes what the walk deletes, and ends early on a bad label, a failing delete or a unit already gone. |
| Scaling.UnitStore.ReconcileUnit | pkg/controller/unitset/unitset_unit.go:42-101 | Create, list, and remove only if all could be created and more are listed than desired. |
| Scaling.ScalesToDesired | pkg/controller/unitset/unitset_unit.go:42-133 | One reconcile never deletes any of the first n units, and deletes nothing if one cannot be created; without failures and interference it leaves exactly these. |
| Finalizers.EventKeepsSound | pkg/controller/unit/unit_controller.go:138-178 | No interleaving of workers, late answers, other writers and lagging reads yields a list without an operator finalizer before its resources are gone for good. |
| Finalizers.ClearedOnceSeen | pkg/controller/unit/unit_delete.go:138-248 | When a worker takes its finalizer off, every resource it guards is absent, although each was seen absent at another time. |
| Finalizers.CreationKeepsSound | pkg/controller/unit/unit_controller.go:180-240 | A reconcile outside the deletion branch can create anything: nothing was taken off yet. |
| Finalizers.FinalizerGoneLast | pkg/controller/unit/unit_delete.go:238-248 | Without one of its operator finalizers, an object is under deletion, its guarded resources are absent, and none is being created. |
| Finalizers.CanTakeOff | pkg/controller/unit/unit_delete.go:250-319 | From every state, one undisturbed reconcile can take off any finalizer whose resources are gone. |
| Finalizers.CanFinish | pkg/controller/unit/unit_controller.go:138-178 | So cleanup is never stuck: all operator finalizers can still come off. |
| Finalizers.RemovalCanBeLost | pkg/controller/unit/unit_delete.go:238-245 | For any object and any two finalizers whose resources are gone, both workers can finish without an error while one of the two is still stored. |
| Finalizers.RemovalsStickExactly | pkg/controller/unit/unit_controller.go:148-168 | In all schedules of one reconcile every finished worker has its finalizer off both lists, if and only if at most one finalizer read has its resources gone. |
| Finalizers.OneFinalizerAtATime | pkg/controller/unit/unit_controller.go:148-168 | With all resources gone: if and only if at most one operator finalizer was read. |
| Deletion.UnitLeavesNothing | pkg/controller/unitset/unitset_unit.go:280-283 | A unit can vanish only when its pod and every claim of its volume templates are gone. |
| Deletion.OwnerLeavesNothing | pkg/controller/unitset/unitset_delete.go:51-220 | A unit set can vanish only when all its units, their pods and claims, and the config maps of its spec are gone. |
| Deletion.StepKeepsInv | pkg/controller/unitset/unitset_controller.go:128-165 | Every step of both controllers, of the API and of others keeps the invariant on both levels. |
| Deletion.CascadeIsSafe | pkg/controller/unitset/unitset_delete.go:51-220 | In every run from a fresh unit set: no pod or claim without its unit, none under a unit about to vanish, and nothing left once the unit set is gone. |
| AesKey.HexRoundTrip | pkg/controller/project/project_secret.go:341-359 | Decoding an encoded byte string gives it back. |
| AesKey.GeneratedKeyIsValid | pkg/controller/project/project_secret.go:341-359 | A generated key passes the validity check. |
| AesKey.EncodesDigits | pkg/controller/project/project_secret.go:341-359 | Each byte is written as two lower-case digits, the high one first. |
| AesKey.DecodesExactly | pkg/controller/project/project_secret.go:351-359 | A text is accepted if and only if it is pairs of hexadecimal digits. |
| AesKey.Project.ReconcileSecret | pkg/controller/project/project_secret.go:106-339 | The branches compute both copies and the outcome for every state and every failing call. |
| AesKey.FailsExactly | pkg/controller/project/project_secret.go:106-339 | A reconcile fails exactly if a call fails that the state it found requires, so never without a fault. |
| AesKey.KeyExactly | pkg/controller/project/project_secret.go:106-339 | After a success the key is the surviving valid copy, or an annotation copied to a missing secret, or else the random bytes in hexadecimal; a failure can only write a new key over copies of no use. |
| AesKey.AgreesExactly | pkg/controller/project/project_secret.go:168-336 | After a success the copies agree exactly when there was no valid key beside a different, non-empty annotation. |
| AesKey.ValidExactly | pkg/controller/project/project_secret.go:139-140 | After a success the secret's key is valid exactly when it was not just created from an invalid annotation. |
| AesKey.ValidAfterTwo | pkg/controller/project/project_secret.go:106-339 | From any state, two successes are enough for a valid key. |
| AesKey.NeverDiverges | pkg/controller/project/project_secret.go:106-339 | Starting with no secret, the copies never diverge if the annotation is empty or a key, or no write of the project fails. |
| AesKey.AgreesAfterEverySuccess | pkg/controller/project/project_secret.go:106-339 | Under that proviso the copies agree after every success of every run of losses and failures. |
| AesKey.AlwaysAgreesExactly | pkg/controller/project/project_secret.go:106-339 | Starting with no secret, the copies agree after every success of every run if and only if the annotation is absent, empty or a key. |
| AesKey.FailedWriteCanDivergeForGood | pkg/controller/project/project_secret.go:248-270 | Without it, one failed write of the project can lead to copies that stay different. |
| AesKey.KeyNeverChanges | pkg/controller/project/project_secret.go:106-339 | If at most one copy is lost between successes, the key survives at every point and both copies are that key whenever no loss is pending. |
| Pki.PublicKeyInfrastructure.RenewCaCertificate | pkg/certs/k8s.go:180-212 | The authority's certificate is reissued for the same key if it is expiring. |
| Pki.PublicKeyInfrastructure.RenewLeafCertificate | pkg/certs/k8s.go:70-115 | The server certificate is reissued for the same key and the host if it is expiring or its names differ. |
| Pki.PublicKeyInfrastructure.EnsureCertificatesAreUpToDate | pkg/certs/k8s.go:216-241 | One maintenance tick for every stored state and every failing call. |
| Pki.TickCovers | pkg/certs/certs.go:307-322 | Whatever was stored, a successful tick leaves both certificates in force for the next seven days and the server's naming exactly the host. |
| Pki.TickSucceedsExactly | pkg/certs/k8s.go:140-367 | A tick succeeds exactly if no secret is damaged and no call that it makes fails; it writes a certificate only if there is none, it is not good for seven days, or it names not just the host. |
| Pki.RunCovers | pkg/certs/k8s.go:216-241 | Ticks that fail half-way never shorten what an earlier success guaranteed. |
| Pki.AlwaysValid | pkg/certs/certs.go:485-501 | At every instant of every run both certificates are inside their validity period if a tick succeeded within seven days, and the server secret was not lost since. |
| Pki.ChainKept | pkg/certs/k8s.go:195-200 | The authority's key never changes, and the server certificate is always signed by it. |
| Pki.LeafKeyKept | pkg/certs/certs.go:257-304 | Renewals keep the server's private key; a damaged server secret is never repaired and makes every tick fail. |
| Pki.ChainRestoredExactly | pkg/certs/k8s.go:87-89 | After losing the authority's secret, a successful tick restores the chain exactly when it also issued a server certificate. |
| Pki.ChangesAreIssues | pkg/certs/certs.go:267-302 | A certificate changes only if it was not good enough, by being issued at the tick's own time, for the key that was there or else the new one, signed by the authority. |
| Pki.LeafRenewalsFarApart | pkg/certs/certs.go:306-322 | A server certificate is renewed next more than 83 days after the whole second five minutes before its issue. |
| Pki.CaRenewalsFarApart | pkg/certs/certs.go:306-322 | The same for the authority's certificate, whatever happens to the server secret. |
| GrpcCall.Reconciler.UpdateInstanceIfNeed | pkg/controller/grpccall/status.go:11-49 | The status is written only if it differs, field by field in order, and a failed write leaves the object as it was. |
| GrpcCall.Reconciler.ReconcileCall | pkg/controller/grpccall/grpccall_controller.go:66-152 | One reconcile: delete when expired, skip when started, else attempt, record result and both times, and write. |
| GrpcCall.PanicsExactly | pkg/controller/grpccall/status.go:24-49 | For any stored status, a nil time is dereferenced exactly when the attempt ends as recorded but without a start time. |
| GrpcCall.ReconcileExactly | pkg/controller/grpccall/grpccall_controller.go:66-152 | At every point of every run, the call is issued exactly if nothing is recorded, the object can be read and the attempt gets that far; its end is recorded unless the write fails, and all else is left as it was. |
| GrpcCall.CallsBounded | pkg/controller/grpccall/grpccall_controller.go:98-147 | In every run the call is issued at most once more than status writes fail, times and result are recorded together, and nothing panics. |
| GrpcCall.OutcomeIsFinal | pkg/controller/grpccall/grpccall_controller.go:98-104 | A recorded outcome never changes and no further call is issued. |
| GrpcCall.OutcomeIsAnAttempt | pkg/controller/grpccall/grpccall_controller.go:106-147 | A recorded outcome has the result, message and, in whole seconds, the times of one attempt of the run. |
| GrpcCall.DeletesExactlyExpired | pkg/controller/grpccall/grpccall_controller.go:84-96 | In every run an object that can be read and deleted is deleted exactly when it has an outcome and completion plus its time to live has passed. |
| GrpcCall.FailedWritesRepeatCall | pkg/controller/grpccall/status.go:17-20 | The bound is reached: for every n there is a run with n failed writes and n + 1 calls. |
| Paths.ParseRender | pkg/agent/app/config/confd/backends/content/client.go:48-55 | Plain path elements are read back from the key they make. |
| Paths.JoinPlain | pkg/agent/app/config/confd/backends/content/client.go:48-55 | Joining a plain element extends the path by exactly that element. |
| Paths.JoinDots | pkg/agent/app/config/confd/backends/content/client.go:48-55 | Joining nothing or a dot changes no path; two dots take the last element back. |
| ConfigFlatten.NodeWalk | pkg/agent/app/config/confd/backends/content/client.go:44-70 | The recursion over the shared map computes the walk in visiting order; a map key that is not a string is a panic. |
| ConfigFlatten.PathsFollowTree | pkg/agent/app/config/confd/backends/content/client.go:46-59 | A leaf's path goes down by list position or map key. |
| ConfigFlatten.ScalarsReadBack | pkg/agent/app/config/confd/backends/content/client.go:60-67 | A stored text tells the value: numbers parse back, texts are kept, flags read true or false. |
| ConfigFlatten.WalkExactly | pkg/agent/app/config/confd/backends/content/client.go:44-70 | With plain keys, every result key that is a leaf's path holds this leaf's text, and every other key is as before. |
| ConfigFlatten.LeavesKeepTheirText | pkg/agent/app/config/confd/backends/content/client.go:60-68 | Each leaf sits at its joined path, and no other plain path has this key. |
| ConfigFlatten.OrderDoesNotMatter | pkg/agent/app/config/confd/backends/content/client.go:53-59 | If no two leaves of different text have the same joined key, the result is the same for all visiting orders of all maps in the tree. |
| ConfigFlatten.PlainKeysDoNotCollide | pkg/agent/app/config/confd/backends/content/client.go:44-70 | Trees with plain keys have no such leaves. |
| ConfigFlatten.PanicsOnOtherKeys | pkg/agent/app/config/confd/backends/content/client.go:54-55 | A walk panics exactly when some map in the tree has a key that is not a string. |
| ConfigFlatten.SlashMakesOrderMatter | pkg/agent/app/config/confd/backends/content/client.go:54-55 | A key with a slash can collide with a nested map, and the entry visited last wins. |
| ConfigFlatten.GetValues | pkg/agent/app/config/confd/backends/content/client.go:31-41 | Contents are walked in order into one map, which is returned as it is at the first error; a panic is told from an error. |
| ConfigFlatten.OutcomeIsFirstTrouble | pkg/agent/app/config/confd/backends/content/client.go:31-41 | The first content that does not parse or has a key that is not a string decides the outcome. |
| ConfigFlatten.UnionIsRightBiased | pkg/agent/app/config/confd/backends/content/client.go:31-41 | The last content with a leaf for a key decides it; an invalid content is an error and ends the union before it. |
| SqlLiteral.TwoReplacementsAreOneEscape | pkg/agent/app/clickhouse/impl.go:313-317 | The two successive replacements equal one escape per character. |
| SqlLiteral.QuoteReadsBack | pkg/agent/app/clickhouse/impl.go:313-317 | A backslash-escape reader recovers every string and stops at the closing quote, also if it reads doubled quotes as one. |
| SqlLiteral.StatementReadsBack | pkg/agent/app/clickhouse/impl.go:214-218 | The three arguments of a statement parse back to the originals. |
| SqlLiteral.BuiltStatementsReadBack | pkg/agent/app/clickhouse/impl.go:208-279 | Backup and restore are built exactly when endpoint, bucket, file and both keys are given and the endpoint is an address with a host, and pass address and keys on unchanged. |
| SqlLiteral.PathIsJoined | pkg/agent/app/clickhouse/impl.go:271-289 | For all inputs the object's path is the endpoint's path, the bucket and the file without their outer slashes, with single slashes between those that are not empty. |
| SqlLiteral.EndpointIsTrimmed | pkg/agent/app/clickhouse/impl.go:238 | Only white space around the endpoint and slashes at its end are dropped, and all of them. |
| SqlLiteral.UrlIsOfBucketAndFile | pkg/agent/app/clickhouse/impl.go:235-279 | The address is that of the endpoint, with the scheme the storage asks for if it names none, and with bucket and file, in this order, added to its path. |

## Left out

- The Kubernetes client: conflict retries, events and logs; caches, except that a deletion request may be read late. A reconcile reads and writes the explicit state.
- `RollingSafety`, `RollingConvergence` and `ImageRollout` have their pass as only writer of the cursor; the status step's part in it (pkg/controller/unitset/unitset_status.go:228-230) is in `ComposedRuns` and `ComposedSafety`. Which units have a task is read with each reconcile and is an input there.
- ComposedSafety.AtMostOneInFlight: while a written unit is not Ready again, it is the one unit with a task, as the unit controller sets and clears tasks; a reconcile runs undivided, and desired names are fixed.
- ComposedRuns.EndsExactly: no tasks but those of units just upgraded. Two units with a task restart the image pass at the first unit.
- The parallel update strategy, and updates of storage, labels and annotations by the unit set controller.
- `observedGeneration` bookkeeping: written beside the modelled writes, read by nothing modelled.
- ComposedConvergence.WholeReconcileConverges: every reconcile finds all units Ready and no unit with a task, whose name the status step would put in the place of the cursor.
- ComposedRuns.RolloutNeverEnds: the writes of the resource and resize-policy passes succeed; a refused write there can leave the image pass's advance in place.
- Hostname, affinity, ports, services, certificates and volumes of an assembled template: straight field copies.
- The strategic merge patch itself: `PodDrift.Patched` sets what differs by container name, empty lists are stored as absent, and a patch that changes the node name is refused.
- PodConvergence.NoRecreateLoop: the API server adds no defaults. Where it fills in requests from limits, or a resize policy, a unit without them differs from its own fresh pod.
- Quantities: integers, milli-units for cpu and bytes for memory; finer fractions are not compared.
- Scaling.UnitStore.CreateMissing: one unit after the other; the goroutines each create their own unit only, and one that is cancelled counts as unreachable.
- Persistent volumes and forced deletion in the claim worker: extra waiting before the finalizer comes off.
- Finalizers.EventKeepsSound: a removal reads and replaces the list as a value, and stored lists are sets. In the code, goroutines shift elements of one shared slice in place, and two racing removals can drop a third element. For an operator finalizer this takes two other racing workers, so the claim carries over to objects with two of them, as in `Deletion`; a foreign finalizer can be dropped that way.
- Deletion.CascadeIsSafe: names of pods, claims and config maps are taken to be used by the operator alone, a unit's volume templates are only added to, and neither they nor a unit set's spec change after its deletion is requested.
- The deletion workers are state machines on values, since their concurrency is what matters; no class captures them.
- Protection finalizer, labels and a secret created by somebody else in the meantime, in the AES key's reconcile.
- Cryptography, PEM and X.509 encoding: a certificate is its key, signer, validity and names, and new keys are inputs. Time within one tick stands still. The host is one DNS name without a comma.
- The copy of the certificates mounted in the container and the bundles injected into webhook configurations: failures there are one fault after both certificates.
- Remote procedures themselves, and floating-point rounding in the age of a GrpcCall.
- YAML parsing: the walk starts from a parsed tree; numbers with a fraction come as their formatted digits; values of other kinds are ignored as in the code.
- Parsing and printing of URLs: two functions that the address is built with.
