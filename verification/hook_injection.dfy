/**
 The cross-cutting hook and modifier properties that every core step variant accepts,
 and their injection into the variants' definitions.
 */
module HookInjection {
  import opened JsonSchema
  import opened StepCatalog

  /**
   The nine hook properties and their fixed types. Five refer back to the abstract step
   (so a hook may itself be any step, with hooks of its own), one is an array of
   across-variable definitions, three are primitive.
   */
  const HookProperties: map<string, SchemaType> := map[
    "on_success" := RefTo(StepName),
    "on_failure" := RefTo(StepName),
    "on_abort" := RefTo(StepName),
    "on_error" := RefTo(StepName),
    "ensure" := RefTo(StepName),
    "timeout" := OfType("string"),
    "attempts" := OfType("integer"),
    "across" := OfType("array").(items := Some(RefTo("AcrossVarConfig"))),
    "fail_fast" := OfType("boolean")
  ]

  /**
   Setting a property on a variant needs its ordered property map to exist: every core
   variant present in the table has one.
   */
  predicate HookTargetsReady(defs: Definitions)
  {
    forall name :: name in CoreStepNames && name in defs ==> defs[name].properties.Some?
  }

  /** A variant definition with every hook property set, overriding same-named ones. */
  function WithHooks(def: SchemaType): (r: SchemaType)
    requires def.properties.Some?
    ensures r.properties.Some?
    ensures r.properties.value.Keys == def.properties.value.Keys + HookProperties.Keys
    ensures forall hook :: hook in HookProperties ==> r.properties.value[hook] == HookProperties[hook]
    ensures forall p :: p in def.properties.value && p !in HookProperties ==>
              r.properties.value[p] == def.properties.value[p]
    ensures r.(properties := def.properties) == def
  {
    def.(properties := Some(def.properties.value + HookProperties))
  }

  /**
   The table after hook injection: each core variant that is present carries all hook
   properties; no definition is created and no other definition changes.
   */
  function Injected(defs: Definitions): (r: Definitions)
    requires HookTargetsReady(defs)
    ensures r.Keys == defs.Keys
    ensures forall name :: name in defs && name !in CoreStepNames ==> r[name] == defs[name]
    ensures forall name :: name in defs && name in CoreStepNames ==>
              r[name].properties.Some? &&
              r[name].properties.value.Keys == defs[name].properties.value.Keys + HookProperties.Keys
    ensures forall name, hook :: name in defs && name in CoreStepNames && hook in HookProperties ==>
              r[name].properties.Some? && hook in r[name].properties.value &&
              r[name].properties.value[hook] == HookProperties[hook]
    ensures forall name, p ::
              name in defs && name in CoreStepNames && p in defs[name].properties.value && p !in HookProperties
              ==> r[name].properties.Some? && p in r[name].properties.value &&
                  r[name].properties.value[p] == defs[name].properties.value[p]
    ensures forall name :: name in defs && name in CoreStepNames ==>
              r[name].(properties := defs[name].properties) == defs[name]
  {
    map name | name in defs :: if name in CoreStepNames then WithHooks(defs[name]) else defs[name]
  }

  /** Injecting the hooks a second time changes nothing. */
  lemma WithHooksIdempotent(def: SchemaType)
    requires def.properties.Some?
    ensures WithHooks(WithHooks(def)) == WithHooks(def)
  {
    var once := def.properties.value + HookProperties;
    assert once + HookProperties == once;
  }
}
