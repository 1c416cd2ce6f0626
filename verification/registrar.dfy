/**
 * The start-up pass of `SpringTemporaryScopeMetadataRegistrar`: it walks the
 * container's bean definitions, keeps those declared in the temporary scope,
 * reads a time-to-live `(amount, unit)` for each one either from the
 * `@Temporary` annotation or from two string attributes, and puts the result
 * into the shared bean-name -> metadata map.
 */
module Registrar {
  import opened Wrappers
  import opened ChronoUnits
  import opened Longs

  /**
   * The fixed identifiers the registrar reads from
   * `SpringTemporaryScopeConfiguration`: the scope name and the names of the
   * two string attributes of a non-annotated definition.
   */
  datatype Config = Config(scopeName: string, valueProperty: string, unitProperty: string)

  /** `TemporaryScopeMetadata(amount, unit)`: how long an instance lives. */
  datatype Metadata = Metadata(amount: Long, unit: ChronoUnit)

  /** The typed attribute values of a `@Temporary` annotation. */
  datatype Annotation = Annotation(value: Long, unit: ChronoUnit)

  /**
   * What an `AnnotatedTypeMetadata` answers about `@Temporary`:
   * `isAnnotated(...)` and `getAnnotationAttributes(...)` (`None` for null).
   */
  datatype TypeMetadata = TypeMetadata(isAnnotated: bool, attributes: Option<Annotation>)

  /**
   * How a definition was declared. `Annotated` is an `AnnotatedBeanDefinition`
   * (with `None` for a null factory-method metadata); every other definition is
   * `AttributeBased` and answers `getAttribute` by name (`None` for null).
   */
  datatype Style =
    | Annotated(factoryMethodMetadata: Option<TypeMetadata>, classMetadata: TypeMetadata, beanClassName: string)
    | AttributeBased(attribute: string -> Option<string>)

  /** A bean name with its definition's declared scope and style. */
  datatype Definition = Definition(name: string, scope: string, style: Style)

  /** The shared map the registrar writes, keyed by bean name. */
  type Registry = map<string, Metadata>

  /** The warning logged for a temporary-scope bean without `@Temporary`. */
  datatype Warning = NoTemporaryAnnotation(beanName: string, beanClassName: string)

  /** The exceptions that escape the pass. */
  datatype Error =
    | AnnotationAttributesMissing  // IllegalArgumentException: null annotation attributes
    | AmountMissing                // NumberFormatException: Long.parseLong(null)
    | AmountMalformed(raw: string) // NumberFormatException: not a decimal long
    | UnitMissing                  // NullPointerException: ChronoUnit.valueOf(null)
    | UnitUnknown(raw: string)     // IllegalArgumentException: no constant with that name

  /** What processing one temporary-scope definition does. */
  datatype Step = Register(metadata: Metadata) | Skip(warning: Warning) | Fail(error: Error)

  datatype Status = Completed | Aborted(error: Error)

  /** The map and the warnings when the pass ended, and whether it ran to the end. */
  datatype Outcome = Outcome(status: Status, registry: Registry, warnings: seq<Warning>)

  /** `isTargetScope`: the declared scope is exactly the temporary scope's name. */
  predicate IsTargetScope(cfg: Config, d: Definition)
    ensures IsTargetScope(cfg, d) <==>
      |d.scope| == |cfg.scopeName| && forall i :: 0 <= i < |d.scope| ==> d.scope[i] == cfg.scopeName[i]
  {
    d.scope == cfg.scopeName
  }

  /** `registerMetadata`: a `Map.put`, last writer wins. */
  function RegisterMetadata(registry: Registry, beanName: string, metadata: Metadata): (r: Registry)
    ensures r.Keys == registry.Keys + {beanName}
    ensures r[beanName] == metadata
    ensures forall k :: k in registry && k != beanName ==> r[k] == registry[k]
  {
    registry[beanName := metadata]
  }

  /** `getBeanMetadata`: the factory-method metadata when there is one, else the class metadata. */
  function GetBeanMetadata(factoryMethodMetadata: Option<TypeMetadata>, classMetadata: TypeMetadata): (m: TypeMetadata)
    ensures factoryMethodMetadata.Some? ==> m == factoryMethodMetadata.value
    ensures factoryMethodMetadata.None? ==> m == classMetadata
  {
    match factoryMethodMetadata
    case Some(m) => m
    case None => classMetadata
  }

  /** `TemporaryScopeValueProvider.from(AnnotatedTypeMetadata)`, followed by `getScopeMetadata`. */
  function FromAnnotation(m: TypeMetadata): (r: Result<Metadata, Error>)
    ensures r.Success? <==> m.attributes.Some?
    ensures r.Success? ==> r.value.amount == m.attributes.value.value && r.value.unit == m.attributes.value.unit
    ensures r.Failure? ==> r.error == AnnotationAttributesMissing
  {
    match m.attributes
    case None => Failure(AnnotationAttributesMissing)
    case Some(a) => Success(Metadata(a.value, a.unit))
  }

  /**
   * `TemporaryScopeValueProvider.from(Function)`, followed by
   * `getScopeMetadata`: the amount attribute is parsed first, so its failure
   * hides any failure of the unit attribute.
   */
  function FromAttributes(cfg: Config, attribute: string -> Option<string>): (r: Result<Metadata, Error>)
    ensures r.Success? <==>
      && attribute(cfg.valueProperty).Some? && ParseLong(attribute(cfg.valueProperty).value).Some?
      && attribute(cfg.unitProperty).Some? && ValueOf(attribute(cfg.unitProperty).value).Some?
    ensures r.Success? ==>
      && r.value.amount == ParseLong(attribute(cfg.valueProperty).value).value
      && r.value.unit == ValueOf(attribute(cfg.unitProperty).value).value
    ensures r.Failure? && r.error.AmountMissing? <==> attribute(cfg.valueProperty).None?
    ensures (attribute(cfg.valueProperty).Some? && ParseLong(attribute(cfg.valueProperty).value).None?) ==>
      r == Failure(AmountMalformed(attribute(cfg.valueProperty).value))
    ensures (attribute(cfg.valueProperty).Some? && ParseLong(attribute(cfg.valueProperty).value).Some?
             && attribute(cfg.unitProperty).None?) ==>
      r == Failure(UnitMissing)
    ensures (attribute(cfg.valueProperty).Some? && ParseLong(attribute(cfg.valueProperty).value).Some?
             && attribute(cfg.unitProperty).Some? && ValueOf(attribute(cfg.unitProperty).value).None?) ==>
      r == Failure(UnitUnknown(attribute(cfg.unitProperty).value))
  {
    match attribute(cfg.valueProperty)
    case None => Failure(AmountMissing)
    case Some(rawAmount) =>
      match ParseLong(rawAmount)
      case None => Failure(AmountMalformed(rawAmount))
      case Some(amount) =>
        match attribute(cfg.unitProperty)
        case None => Failure(UnitMissing)
        case Some(rawUnit) =>
          match ValueOf(rawUnit)
          case None => Failure(UnitUnknown(rawUnit))
          case Some(unit) => Success(Metadata(amount, unit))
  }

  function ToStep(r: Result<Metadata, Error>): Step
  {
    match r
    case Success(m) => Register(m)
    case Failure(e) => Fail(e)
  }

  /** `processAnnotatedBean`: register the annotation's values, or warn and skip. */
  function ProcessAnnotated(beanName: string, factoryMethodMetadata: Option<TypeMetadata>,
                            classMetadata: TypeMetadata, beanClassName: string): (s: Step)
    ensures !GetBeanMetadata(factoryMethodMetadata, classMetadata).isAnnotated <==> s.Skip?
    ensures s.Skip? ==> s.warning == NoTemporaryAnnotation(beanName, beanClassName)
    ensures s.Fail? ==> s.error == AnnotationAttributesMissing
  {
    var m := GetBeanMetadata(factoryMethodMetadata, classMetadata);
    if m.isAnnotated then ToStep(FromAnnotation(m))
    else Skip(NoTemporaryAnnotation(beanName, beanClassName))
  }

  /** `processXmlBean`: parse the two string attributes; never skips. */
  function ProcessXml(cfg: Config, attribute: string -> Option<string>): (s: Step)
    ensures !s.Skip?
  {
    ToStep(FromAttributes(cfg, attribute))
  }

  /** `process`: annotated definitions one way, everything else the other. */
  function Process(cfg: Config, d: Definition): (s: Step)
    ensures s.Skip? ==> d.style.Annotated?
    ensures s.Fail? && s.error == AnnotationAttributesMissing ==> d.style.Annotated?
    ensures s.Fail? && d.style.Annotated? ==> s.error == AnnotationAttributesMissing
  {
    match d.style
    case Annotated(f, c, cls) => ProcessAnnotated(d.name, f, c, cls)
    case AttributeBased(attribute) => ProcessXml(cfg, attribute)
  }

  /**
   * `postProcessBeanFactory`, from the current definition on: a left fold
   * that stops at the first exception, keeping every write made before it.
   */
  function Run(cfg: Config, defs: seq<Definition>, registry: Registry, warnings: seq<Warning>): (out: Outcome)
    ensures |warnings| <= |out.warnings| <= |warnings| + |defs|
    ensures out.warnings[..|warnings|] == warnings
    decreases |defs|
  {
    if |defs| == 0 then Outcome(Completed, registry, warnings)
    else
      var d := defs[0];
      if !IsTargetScope(cfg, d) then Run(cfg, defs[1..], registry, warnings)
      else
        match Process(cfg, d)
        case Register(m) => Run(cfg, defs[1..], RegisterMetadata(registry, d.name, m), warnings)
        case Skip(w) => Run(cfg, defs[1..], registry, warnings + [w])
        case Fail(e) => Outcome(Aborted(e), registry, warnings)
  }

  /**
   * The loop of `postProcessBeanFactory` over the injected map `registry`,
   * computing what the fold `Run` describes.
   */
  method PostProcessBeanFactory(cfg: Config, defs: seq<Definition>, registry: Registry) returns (out: Outcome)
    ensures out == Run(cfg, defs, registry, [])
  {
    var metadataByName := registry;
    var warnings: seq<Warning> := [];
    var i := 0;
    while i < |defs|
      invariant 0 <= i <= |defs|
      invariant Run(cfg, defs, registry, []) == Run(cfg, defs[i..], metadataByName, warnings)
    {
      var d := defs[i];
      assert defs[i..][1..] == defs[i + 1..];
      if IsTargetScope(cfg, d) {
        match Process(cfg, d)
        case Register(m) =>
          metadataByName := RegisterMetadata(metadataByName, d.name, m);
        case Skip(w) =>
          warnings := warnings + [w];
        case Fail(e) =>
          return Outcome(Aborted(e), metadataByName, warnings);
      }
      i := i + 1;
    }
    out := Outcome(Completed, metadataByName, warnings);
  }
}
