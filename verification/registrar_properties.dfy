/** What the registrar's pass guarantees, stated over the fold `Registrar.Run`. */
module RegistrarProperties {
  import opened Wrappers
  import opened ChronoUnits
  import opened Longs
  import opened Registrar

  // ---------------------------------------------------------------------------
  // Filtering by scope
  // ---------------------------------------------------------------------------

  /** The definitions declared in the temporary scope, in their original order. */
  function TargetDefinitions(cfg: Config, defs: seq<Definition>): (r: seq<Definition>)
    ensures |r| <= |defs|
    ensures forall i :: 0 <= i < |r| ==> IsTargetScope(cfg, r[i])
    ensures forall d :: d in r <==> d in defs && IsTargetScope(cfg, d)
    ensures (forall i :: 0 <= i < |defs| ==> IsTargetScope(cfg, defs[i])) ==> r == defs
    decreases |defs|
  {
    if |defs| == 0 then []
    else if IsTargetScope(cfg, defs[0]) then [defs[0]] + TargetDefinitions(cfg, defs[1..])
    else TargetDefinitions(cfg, defs[1..])
  }

  /**
   * Only the temporary-scope definitions matter: dropping every other one,
   * however malformed, leaves the status, the map and the warnings unchanged.
   */
  lemma {:induction false} OnlyTargetScopeMatters(cfg: Config, defs: seq<Definition>, registry: Registry, warnings: seq<Warning>)
    ensures Run(cfg, defs, registry, warnings) == Run(cfg, TargetDefinitions(cfg, defs), registry, warnings)
    decreases |defs|
  {
    if |defs| > 0 {
      var d := defs[0];
      var t := TargetDefinitions(cfg, defs);
      if !IsTargetScope(cfg, d) {
        OnlyTargetScopeMatters(cfg, defs[1..], registry, warnings);
      } else {
        assert t[0] == d && t[1..] == TargetDefinitions(cfg, defs[1..]);
        match Process(cfg, d)
        case Register(m) =>
          OnlyTargetScopeMatters(cfg, defs[1..], RegisterMetadata(registry, d.name, m), warnings);
        case Skip(w) =>
          OnlyTargetScopeMatters(cfg, defs[1..], registry, warnings + [w]);
        case Fail(e) =>
      }
    }
  }

  /** A definition outside the temporary scope, wherever it stands, has no effect at all. */
  lemma {:induction false} NonTargetHasNoEffect(cfg: Config, before: seq<Definition>, d: Definition,
                                               after: seq<Definition>, registry: Registry, warnings: seq<Warning>)
    requires !IsTargetScope(cfg, d)
    ensures Run(cfg, before + [d] + after, registry, warnings) == Run(cfg, before + after, registry, warnings)
    decreases |before|
  {
    if |before| == 0 {
      assert before + [d] + after == [d] + after;
      assert ([d] + after)[1..] == after;
      assert before + after == after;
    } else {
      var b := before[0];
      assert (before + [d] + after)[0] == b && (before + [d] + after)[1..] == before[1..] + [d] + after;
      assert (before + after)[0] == b && (before + after)[1..] == before[1..] + after;
      if IsTargetScope(cfg, b) {
        match Process(cfg, b)
        case Register(m) =>
          NonTargetHasNoEffect(cfg, before[1..], d, after, RegisterMetadata(registry, b.name, m), warnings);
        case Skip(w) =>
          NonTargetHasNoEffect(cfg, before[1..], d, after, registry, warnings + [w]);
        case Fail(e) =>
      }
      else {
        NonTargetHasNoEffect(cfg, before[1..], d, after, registry, warnings);
      }
    }
  }

  /** Without any temporary-scope definition the pass completes, writes nothing and warns nothing. */
  lemma {:induction false} NoTargetNoChange(cfg: Config, defs: seq<Definition>, registry: Registry, warnings: seq<Warning>)
    requires forall i :: 0 <= i < |defs| ==> !IsTargetScope(cfg, defs[i])
    ensures Run(cfg, defs, registry, warnings) == Outcome(Completed, registry, warnings)
    decreases |defs|
  {
    if |defs| > 0 {
      NoTargetNoChange(cfg, defs[1..], registry, warnings);
    }
  }

  // ---------------------------------------------------------------------------
  // Classification and extraction of one definition
  // ---------------------------------------------------------------------------

  /** With factory-method metadata present, the class metadata is never consulted. */
  lemma FactoryMetadataTakesPrecedence(beanName: string, factory: TypeMetadata,
                                       classMetadata1: TypeMetadata, classMetadata2: TypeMetadata, beanClassName: string)
    ensures ProcessAnnotated(beanName, Some(factory), classMetadata1, beanClassName)
         == ProcessAnnotated(beanName, Some(factory), classMetadata2, beanClassName)
    ensures ProcessAnnotated(beanName, Some(factory), classMetadata1, beanClassName)
         == ProcessAnnotated(beanName, None, factory, beanClassName)
  {
  }

  /** The metadata actually consulted for an annotated definition. */
  function ConsultedMetadata(d: Definition): (m: TypeMetadata)
    requires d.style.Annotated?
    ensures m == d.style.classMetadata || Some(m) == d.style.factoryMethodMetadata
  {
    GetBeanMetadata(d.style.factoryMethodMetadata, d.style.classMetadata)
  }

  /**
   * A temporary-scope annotated definition without `@Temporary` writes
   * nothing, logs one warning naming the bean and its class, and the pass
   * goes on with the next definition.
   */
  lemma MissingAnnotationSkips(cfg: Config, d: Definition, rest: seq<Definition>, registry: Registry, warnings: seq<Warning>)
    requires IsTargetScope(cfg, d) && d.style.Annotated?
    requires !ConsultedMetadata(d).isAnnotated
    ensures Run(cfg, [d] + rest, registry, warnings)
         == Run(cfg, rest, registry, warnings + [NoTemporaryAnnotation(d.name, d.style.beanClassName)])
  {
  }

  /** A temporary-scope definition carrying `@Temporary` is registered under its name with exactly the annotation's values. */
  lemma AnnotatedRegistersItsValues(cfg: Config, d: Definition, a: Annotation, rest: seq<Definition>,
                                    registry: Registry, warnings: seq<Warning>)
    requires IsTargetScope(cfg, d) && d.style.Annotated?
    requires ConsultedMetadata(d) == TypeMetadata(true, Some(a))
    ensures Process(cfg, d) == Register(Metadata(a.value, a.unit))
    ensures Run(cfg, [d] + rest, registry, warnings)
         == Run(cfg, rest, registry[d.name := Metadata(a.value, a.unit)], warnings)
  {
  }

  /**
   * When `isAnnotated` and `getAnnotationAttributes` agree, as they do for a
   * real annotation, an annotated definition never throws.
   */
  lemma ConsistentAnnotationNeverFails(cfg: Config, d: Definition)
    requires d.style.Annotated?
    requires ConsultedMetadata(d).isAnnotated ==> ConsultedMetadata(d).attributes.Some?
    ensures !Process(cfg, d).Fail?
  {
  }

  /**
   * An attribute-based definition is registered exactly when its amount
   * attribute is a decimal `long` (negative values included) and its unit
   * attribute names a `ChronoUnit`, and then with those parsed values.
   */
  lemma AttributeBasedRegisters(cfg: Config, d: Definition, m: Metadata)
    requires d.style.AttributeBased?
    ensures Process(cfg, d) == Register(m) <==>
      exists amount: string, unit: string ::
        && d.style.attribute(cfg.valueProperty) == Some(amount)
        && d.style.attribute(cfg.unitProperty) == Some(unit)
        && ParseLong(amount) == Some(m.amount)
        && ValueOf(unit) == Some(m.unit)
  {
  }

  /** A failing temporary-scope definition aborts the pass with the map as it stood before it. */
  lemma FailureAborts(cfg: Config, d: Definition, rest: seq<Definition>, registry: Registry, warnings: seq<Warning>)
    requires IsTargetScope(cfg, d) && Process(cfg, d).Fail?
    ensures Run(cfg, [d] + rest, registry, warnings) == Outcome(Aborted(Process(cfg, d).error), registry, warnings)
  {
  }

  // ---------------------------------------------------------------------------
  // The whole pass
  // ---------------------------------------------------------------------------

  /** The pass runs to the end exactly when no temporary-scope definition throws. */
  lemma {:induction false} CompletesIffNoTargetFails(cfg: Config, defs: seq<Definition>, registry: Registry, warnings: seq<Warning>)
    ensures Run(cfg, defs, registry, warnings).status.Completed? <==>
      forall i :: 0 <= i < |defs| && IsTargetScope(cfg, defs[i]) ==> !Process(cfg, defs[i]).Fail?
    decreases |defs|
  {
    if |defs| > 0 {
      var d := defs[0];
      assert forall i :: 0 < i < |defs| ==> defs[i] == defs[1..][i - 1];
      if IsTargetScope(cfg, d) {
        match Process(cfg, d)
        case Register(m) =>
          CompletesIffNoTargetFails(cfg, defs[1..], RegisterMetadata(registry, d.name, m), warnings);
        case Skip(w) =>
          CompletesIffNoTargetFails(cfg, defs[1..], registry, warnings + [w]);
        case Fail(e) =>
      } else {
        CompletesIffNoTargetFails(cfg, defs[1..], registry, warnings);
      }
    }
  }

  /**
   * No rollback: an aborted pass stops at a temporary-scope definition that
   * threw, and its map and warnings are exactly those of a completed pass
   * over the definitions before it.
   */
  lemma {:induction false} AbortKeepsEarlierWrites(cfg: Config, defs: seq<Definition>, registry: Registry, warnings: seq<Warning>)
    ensures var out := Run(cfg, defs, registry, warnings);
      out.status.Aborted? ==>
        exists i :: 0 <= i < |defs| && IsTargetScope(cfg, defs[i])
          && Process(cfg, defs[i]) == Fail(out.status.error)
          && Run(cfg, defs[..i], registry, warnings) == Outcome(Completed, out.registry, out.warnings)
    decreases |defs|
  {
    var out := Run(cfg, defs, registry, warnings);
    if |defs| > 0 && out.status.Aborted? {
      var d := defs[0];
      if IsTargetScope(cfg, d) && Process(cfg, d).Fail? {
        assert defs[..0] == [];
      } else {
        var registry', warnings' := registry, warnings;
        if IsTargetScope(cfg, d) && Process(cfg, d).Register? {
          registry' := RegisterMetadata(registry, d.name, Process(cfg, d).metadata);
        } else if IsTargetScope(cfg, d) {
          warnings' := warnings + [Process(cfg, d).warning];
        }
        assert out == Run(cfg, defs[1..], registry', warnings');
        AbortKeepsEarlierWrites(cfg, defs[1..], registry', warnings');
        var j :| 0 <= j < |defs[1..]| && IsTargetScope(cfg, defs[1..][j])
          && Process(cfg, defs[1..][j]) == Fail(out.status.error)
          && Run(cfg, defs[1..][..j], registry', warnings') == Outcome(Completed, out.registry, out.warnings);
        assert defs[..j + 1][0] == d && defs[..j + 1][1..] == defs[1..][..j];
        assert Run(cfg, defs[..j + 1], registry, warnings) == Run(cfg, defs[1..][..j], registry', warnings');
        assert defs[j + 1] == defs[1..][j];
      }
    }
  }

  /** The map never loses a key during the pass, completed or aborted. */
  lemma {:induction false} EntriesNeverRemoved(cfg: Config, defs: seq<Definition>, registry: Registry, warnings: seq<Warning>)
    ensures registry.Keys <= Run(cfg, defs, registry, warnings).registry.Keys
    decreases |defs|
  {
    if |defs| > 0 {
      var d := defs[0];
      if IsTargetScope(cfg, d) {
        match Process(cfg, d)
        case Register(m) =>
          EntriesNeverRemoved(cfg, defs[1..], RegisterMetadata(registry, d.name, m), warnings);
        case Skip(w) =>
          EntriesNeverRemoved(cfg, defs[1..], registry, warnings + [w]);
        case Fail(e) =>
      } else {
        EntriesNeverRemoved(cfg, defs[1..], registry, warnings);
      }
    }
  }

  /**
   * The pass never reads the map: whether it completes, how it fails and
   * which warnings it logs do not depend on the map it starts from.
   */
  lemma {:induction false} MapIsWriteOnly(cfg: Config, defs: seq<Definition>, registry1: Registry, registry2: Registry,
                                          warnings: seq<Warning>)
    ensures Run(cfg, defs, registry1, warnings).status == Run(cfg, defs, registry2, warnings).status
    ensures Run(cfg, defs, registry1, warnings).warnings == Run(cfg, defs, registry2, warnings).warnings
    decreases |defs|
  {
    if |defs| > 0 {
      var d := defs[0];
      if IsTargetScope(cfg, d) {
        match Process(cfg, d)
        case Register(m) =>
          MapIsWriteOnly(cfg, defs[1..], RegisterMetadata(registry1, d.name, m), RegisterMetadata(registry2, d.name, m), warnings);
        case Skip(w) =>
          MapIsWriteOnly(cfg, defs[1..], registry1, registry2, warnings + [w]);
        case Fail(e) =>
      } else {
        MapIsWriteOnly(cfg, defs[1..], registry1, registry2, warnings);
      }
    }
  }

  /**
   * The metadata of the LAST temporary-scope definition named `k` that
   * registers, if any: a reference for what the map holds for `k`.
   */
  function LastRegistration(cfg: Config, defs: seq<Definition>, k: string): (r: Option<Metadata>)
    ensures r.Some? ==> exists i :: 0 <= i < |defs| && defs[i].name == k && IsTargetScope(cfg, defs[i])
                                  && Process(cfg, defs[i]) == Register(r.value)
    decreases |defs|
  {
    if |defs| == 0 then None
    else
      var later := LastRegistration(cfg, defs[1..], k);
      if later.Some? then
        assert forall i :: 0 <= i < |defs[1..]| ==> defs[1..][i] == defs[i + 1];
        later
      else if defs[0].name == k && IsTargetScope(cfg, defs[0]) && Process(cfg, defs[0]).Register? then
        Some(Process(cfg, defs[0]).metadata)
      else None
  }

  /**
   * Last writer wins: after a completed pass each name holds the metadata of
   * the last temporary-scope definition of that name that registered, and a
   * name no such definition carries keeps whatever the map held before.
   */
  lemma {:induction false} LastWriterWins(cfg: Config, defs: seq<Definition>, registry: Registry, warnings: seq<Warning>)
    requires Run(cfg, defs, registry, warnings).status.Completed?
    ensures forall k :: Lookup(Run(cfg, defs, registry, warnings).registry, k)
                     == (if LastRegistration(cfg, defs, k).Some? then LastRegistration(cfg, defs, k) else Lookup(registry, k))
    decreases |defs|
  {
    if |defs| > 0 {
      var d := defs[0];
      if IsTargetScope(cfg, d) {
        match Process(cfg, d)
        case Register(m) =>
          LastWriterWins(cfg, defs[1..], RegisterMetadata(registry, d.name, m), warnings);
        case Skip(w) =>
          LastWriterWins(cfg, defs[1..], registry, warnings + [w]);
      } else {
        LastWriterWins(cfg, defs[1..], registry, warnings);
      }
    }
  }

  /** Running a completed pass again over its own result changes nothing. */
  lemma RunTwiceSameOutcome(cfg: Config, defs: seq<Definition>, registry: Registry)
    requires Run(cfg, defs, registry, []).status.Completed?
    ensures Run(cfg, defs, Run(cfg, defs, registry, []).registry, []) == Run(cfg, defs, registry, [])
  {
    var once := Run(cfg, defs, registry, []);
    var twice := Run(cfg, defs, once.registry, []);
    MapIsWriteOnly(cfg, defs, registry, once.registry, []);
    LastWriterWins(cfg, defs, registry, []);
    LastWriterWins(cfg, defs, once.registry, []);
    LookupExtensionality(twice.registry, once.registry);
  }

  // ---------------------------------------------------------------------------
  // Worked examples
  // ---------------------------------------------------------------------------

  /** The attribute lookup of a definition declaring `amount` and `unit`. */
  function Attributes(cfg: Config, amount: string, unit: string): string -> Option<string>
  {
    k => if k == cfg.valueProperty then Some(amount) else if k == cfg.unitProperty then Some(unit) else None
  }

  /** A well-formed attribute pair is registered with the parsed amount and the named unit. */
  lemma AttributeExample(cfg: Config, name: string, amount: string, u: ChronoUnit)
    requires cfg.valueProperty != cfg.unitProperty
    requires ParseLong(amount).Some?
    ensures Process(cfg, Definition(name, cfg.scopeName, AttributeBased(Attributes(cfg, amount, Name(u)))))
         == Register(Metadata(ParseLong(amount).value, u))
  {
    var attribute := Attributes(cfg, amount, Name(u));
    assert attribute(cfg.valueProperty) == Some(amount);
    assert attribute(cfg.unitProperty) == Some(Name(u));
    ValueOfName(u);
  }

  /**
   * "10" / "MINUTES" registers ten minutes, "-5" / "DAYS" minus five days,
   * and "abc" aborts the pass with the raw string.
   */
  lemma AttributeExamples(cfg: Config, name: string)
    requires cfg.valueProperty != cfg.unitProperty
    ensures Process(cfg, Definition(name, cfg.scopeName, AttributeBased(Attributes(cfg, "10", "MINUTES"))))
         == Register(Metadata(10, Minutes))
    ensures Process(cfg, Definition(name, cfg.scopeName, AttributeBased(Attributes(cfg, "-5", "DAYS"))))
         == Register(Metadata(-5, Days))
    ensures Process(cfg, Definition(name, cfg.scopeName, AttributeBased(Attributes(cfg, "abc", "DAYS"))))
         == Fail(AmountMalformed("abc"))
  {
    NegativeAccepted();
    assert Name(Minutes) == "MINUTES" && Name(Days) == "DAYS";
    AttributeExample(cfg, name, "10", Minutes);
    AttributeExample(cfg, name, "-5", Days);
    assert Attributes(cfg, "abc", "DAYS")(cfg.valueProperty) == Some("abc");
  }

  /** Two registering definitions with one name: the later one's metadata is kept. */
  lemma DuplicateNameLaterWins(cfg: Config, name: string, a: Annotation, b: Annotation, registry: Registry)
    ensures var first := Definition(name, cfg.scopeName, Annotated(None, TypeMetadata(true, Some(a)), "A"));
            var second := Definition(name, cfg.scopeName, Annotated(None, TypeMetadata(true, Some(b)), "B"));
            Run(cfg, [first, second], registry, []) == Outcome(Completed, registry[name := Metadata(b.value, b.unit)], [])
  {
    var first := Definition(name, cfg.scopeName, Annotated(None, TypeMetadata(true, Some(a)), "A"));
    var second := Definition(name, cfg.scopeName, Annotated(None, TypeMetadata(true, Some(b)), "B"));
    var r1 := registry[name := Metadata(a.value, a.unit)];
    assert [first, second][1..] == [second];
    assert Run(cfg, [first, second], registry, []) == Run(cfg, [second], r1, []);
    assert [second][1..] == [];
    assert Run(cfg, [second], r1, []) == Run(cfg, [], r1[name := Metadata(b.value, b.unit)], []);
    assert r1[name := Metadata(b.value, b.unit)] == registry[name := Metadata(b.value, b.unit)];
  }
}
