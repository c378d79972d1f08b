/**
 The fixed names the composition works with: the abstract step definition, the closed
 list of core step variants, the hook and modifier step types, and the leaf definition
 the manual override retypes.
 */
module StepCatalog {

  /** The abstract step placeholder that reflecting the pipeline config yields. */
  const StepName: string := "Step"

  /** The duration leaf whose reflected shape the manual override replaces. */
  const CheckEveryName: string := "CheckEvery"

  /**
   The core step variants, in the order their fragments are reflected and their
   top-level nodes are appended to the step union. The same names, in the same order,
   are the definitions that receive the hook properties.
   */
  const CoreStepNames: seq<string> :=
    ["GetStep", "PutStep", "TaskStep", "SetPipelineStep",
     "LoadVarStep", "InParallelStep", "DoStep", "TryStep"]

  /** The hook and modifier step types, reflected for their definitions only. */
  const HookModifierNames: seq<string> :=
    ["OnSuccessStep", "OnFailureStep", "OnAbortStep", "OnErrorStep",
     "EnsureStep", "TimeoutStep", "RetryStep", "AcrossStep"]
}
