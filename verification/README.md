# Temporary-scope metadata registrar, modelled in Dafny

The `temporary-scope-spring` module gives Spring beans a time-to-live: a bean
declared in the temporary scope expires a fixed `(amount, unit)` after it was
created. The descriptors are collected once, at container start-up, by
`SpringTemporaryScopeMetadataRegistrar`, a `BeanFactoryPostProcessor`. It walks
every bean definition name, keeps the definitions whose scope is the temporary
scope, and reads a `TemporaryScopeMetadata(amount, unit)` for each one:

- an `AnnotatedBeanDefinition` is read from its `@Temporary` annotation, looked
  up on the factory-method metadata when there is one and on the class metadata
  otherwise; without the annotation a warning is logged and the bean is skipped;
- every other definition is read from two string attributes, the amount through
  `Long.parseLong` and the unit through `ChronoUnit.valueOf`; a missing or bad
  value throws and ends the pass.

Each result is `put` into the injected map under the bean name.

The model is a pure fold over a sequence of definitions:

- `wrappers.dfy` — `Option`, `Result` and a map lookup.
- `chrono_unit.dfy` — the sixteen `ChronoUnit` constants and `valueOf`.
- `longs.dfy` — Java's `long` and `Long.parseLong`. `ParseLong` is the reference
  definition. `ParseLongScan` is the JDK's digit loop with its overflow checks,
  proved equal to it. `FormatLong` is the inverse.
- `registrar.dfy` — the definitions, the registrar's operations, the fold `Run`
  and the imperative loop `PostProcessBeanFactory`.
- `registrar_properties.dfy` — what the pass guarantees, proved over `Run`.

`SpringTemporaryScopeConfiguration.java` is not part of this model. The
constants the registrar takes from it are the scope name and the two attribute
names. They appear as the fields of a `Config` parameter, so every property
holds whatever their values are.

## Model

| member | source | states |
|---|---|---|
| Registrar.IsTargetScope | temporary-scope-spring/src/main/java/dev/alexengrig/temporaryscope/spring/SpringTemporaryScopeMetadataRegistrar.java:46-48 | a definition is in the temporary scope exactly when its scope string has the same length as the scope name and agrees with it character by character, case included |
| Registrar.RegisterMetadata | temporary-scope-spring/src/main/java/dev/alexengrig/temporaryscope/spring/SpringTemporaryScopeMetadataRegistrar.java:31-34 | the entry for the bean name is set to the new metadata, overwriting any old one; every other key keeps its value; the key set grows by exactly that name |
| Registrar.GetBeanMetadata | temporary-scope-spring/src/main/java/dev/alexengrig/temporaryscope/spring/SpringTemporaryScopeMetadataRegistrar.java:70-76 | the factory-method metadata is used when present, the class metadata only when it is absent |
| Registrar.FromAnnotation | temporary-scope-spring/src/main/java/dev/alexengrig/temporaryscope/spring/SpringTemporaryScopeMetadataRegistrar.java:100-109 | succeeds exactly when the annotation attributes are non-null, yielding the annotation's value and unit; null attributes throw |
| Registrar.FromAttributes | temporary-scope-spring/src/main/java/dev/alexengrig/temporaryscope/spring/SpringTemporaryScopeMetadataRegistrar.java:111-116 | succeeds exactly when the amount attribute is present and parses as a long and the unit attribute is present and names a ChronoUnit, yielding those parsed values; the amount is checked first, so a missing or malformed amount is reported (with the raw string when malformed) whatever the unit attribute holds; with a good amount, a missing unit and an unknown unit name (with the raw string) are reported as such |
| Registrar.ProcessAnnotated | temporary-scope-spring/src/main/java/dev/alexengrig/temporaryscope/spring/SpringTemporaryScopeMetadataRegistrar.java:59-68 | a bean is skipped, with a warning naming the bean and its class, exactly when the consulted metadata lacks @Temporary; the only exception it can raise is the null-attributes one |
| Registrar.ProcessXml | temporary-scope-spring/src/main/java/dev/alexengrig/temporaryscope/spring/SpringTemporaryScopeMetadataRegistrar.java:85-95 | an attribute-based definition is never skipped: it registers or throws |
| Registrar.Process | temporary-scope-spring/src/main/java/dev/alexengrig/temporaryscope/spring/SpringTemporaryScopeMetadataRegistrar.java:50-57 | only annotated definitions can be skipped or throw the null-attributes exception; an annotated definition throws nothing else |
| Registrar.Run | temporary-scope-spring/src/main/java/dev/alexengrig/temporaryscope/spring/SpringTemporaryScopeMetadataRegistrar.java:37-44 | warnings are only appended, at most one per definition |
| Registrar.PostProcessBeanFactory | temporary-scope-spring/src/main/java/dev/alexengrig/temporaryscope/spring/SpringTemporaryScopeMetadataRegistrar.java:37-44 | the for-loop over the definitions, writing into the injected map and stopping at the first exception, yields the same status, map and warnings as the fold Run |
| RegistrarProperties.OnlyTargetScopeMatters | temporary-scope-spring/src/main/java/dev/alexengrig/temporaryscope/spring/SpringTemporaryScopeMetadataRegistrar.java:38-48 | removing every definition whose scope is not exactly the temporary scope name changes neither the status nor the map nor the warnings |
| RegistrarProperties.NonTargetHasNoEffect | temporary-scope-spring/src/main/java/dev/alexengrig/temporaryscope/spring/SpringTemporaryScopeMetadataRegistrar.java:38-48 | a definition outside the temporary scope, at any position and however malformed its attributes, has no effect on the pass |
| RegistrarProperties.NoTargetNoChange | temporary-scope-spring/src/main/java/dev/alexengrig/temporaryscope/spring/SpringTemporaryScopeMetadataRegistrar.java:38-43 | with no temporary-scope definition the pass completes, leaves the map as it was and logs nothing |
| RegistrarProperties.FactoryMetadataTakesPrecedence | temporary-scope-spring/src/main/java/dev/alexengrig/temporaryscope/spring/SpringTemporaryScopeMetadataRegistrar.java:70-76 | with factory-method metadata present the class metadata is never consulted, and the outcome is as if the factory-method metadata were the only metadata |
| RegistrarProperties.ConsultedMetadata | temporary-scope-spring/src/main/java/dev/alexengrig/temporaryscope/spring/SpringTemporaryScopeMetadataRegistrar.java:70-76 | the consulted metadata is one of the two sources of the definition |
| RegistrarProperties.MissingAnnotationSkips | temporary-scope-spring/src/main/java/dev/alexengrig/temporaryscope/spring/SpringTemporaryScopeMetadataRegistrar.java:59-67 | a temporary-scope annotated bean without @Temporary leaves the map unchanged, adds its warning and the pass continues with the next definition |
| RegistrarProperties.AnnotatedRegistersItsValues | temporary-scope-spring/src/main/java/dev/alexengrig/temporaryscope/spring/SpringTemporaryScopeMetadataRegistrar.java:59-83 | a temporary-scope annotated bean carrying @Temporary is registered under its name with exactly the annotation's value and unit |
| RegistrarProperties.ConsistentAnnotationNeverFails | temporary-scope-spring/src/main/java/dev/alexengrig/temporaryscope/spring/SpringTemporaryScopeMetadataRegistrar.java:100-105 | when isAnnotated and the annotation attributes agree, an annotated definition never throws, so the null check cannot fire |
| RegistrarProperties.AttributeBasedRegisters | temporary-scope-spring/src/main/java/dev/alexengrig/temporaryscope/spring/SpringTemporaryScopeMetadataRegistrar.java:111-116 | an attribute-based definition is registered with metadata m exactly when its amount attribute parses to m's amount and its unit attribute names m's unit |
| RegistrarProperties.FailureAborts | temporary-scope-spring/src/main/java/dev/alexengrig/temporaryscope/spring/SpringTemporaryScopeMetadataRegistrar.java:38-43 | a temporary-scope definition that throws ends the pass with that error; the map and warnings are as they were before it |
| RegistrarProperties.CompletesIffNoTargetFails | temporary-scope-spring/src/main/java/dev/alexengrig/temporaryscope/spring/SpringTemporaryScopeMetadataRegistrar.java:38-43 | the pass runs to the end exactly when no temporary-scope definition throws |
| RegistrarProperties.AbortKeepsEarlierWrites | temporary-scope-spring/src/main/java/dev/alexengrig/temporaryscope/spring/SpringTemporaryScopeMetadataRegistrar.java:31-43 | no rollback: an aborted pass stopped at a temporary-scope definition that threw, and its map and warnings are those of a completed pass over the definitions before it |
| RegistrarProperties.EntriesNeverRemoved | temporary-scope-spring/src/main/java/dev/alexengrig/temporaryscope/spring/SpringTemporaryScopeMetadataRegistrar.java:31-43 | no key present before the pass is missing after it, whether it completed or aborted |
| RegistrarProperties.MapIsWriteOnly | temporary-scope-spring/src/main/java/dev/alexengrig/temporaryscope/spring/SpringTemporaryScopeMetadataRegistrar.java:31-43 | the status and warnings of the pass do not depend on the map it starts from |
| RegistrarProperties.LastRegistration | temporary-scope-spring/src/main/java/dev/alexengrig/temporaryscope/spring/SpringTemporaryScopeMetadataRegistrar.java:31-43 | the reference answer for a name comes from a temporary-scope definition of that name that registers |
| RegistrarProperties.LastWriterWins | temporary-scope-spring/src/main/java/dev/alexengrig/temporaryscope/spring/SpringTemporaryScopeMetadataRegistrar.java:31-43 | after a completed pass each name maps to the metadata of the last temporary-scope definition of that name that registered; names none registered keep their earlier entry or stay absent |
| RegistrarProperties.RunTwiceSameOutcome | temporary-scope-spring/src/main/java/dev/alexengrig/temporaryscope/spring/SpringTemporaryScopeMetadataRegistrar.java:31-43 | running a completed pass again over its own resulting map yields the same status, map and warnings |
| RegistrarProperties.DuplicateNameLaterWins | temporary-scope-spring/src/main/java/dev/alexengrig/temporaryscope/spring/SpringTemporaryScopeMetadataRegistrar.java:31-34 | of two registering definitions with the same name, the later one's metadata stays in the map |
| RegistrarProperties.AttributeExample | temporary-scope-spring/src/main/java/dev/alexengrig/temporaryscope/spring/SpringTemporaryScopeMetadataRegistrar.java:111-116 | an amount that parses and a unit given by its declared name register exactly that amount and unit |
| RegistrarProperties.AttributeExamples | temporary-scope-spring/src/main/java/dev/alexengrig/temporaryscope/spring/SpringTemporaryScopeMetadataRegistrar.java:111-116 | "10"/"MINUTES" registers ten minutes, "-5"/"DAYS" registers minus five days, and "abc" throws a malformed-amount error |
| RegistrarProperties.TargetDefinitions | temporary-scope-spring/src/main/java/dev/alexengrig/temporaryscope/spring/SpringTemporaryScopeMetadataRegistrar.java:38-42 | keeps a definition exactly when it is in the temporary scope, and keeps all of them unchanged when every one is |
| Longs.ParseLong | temporary-scope-spring/src/main/java/dev/alexengrig/temporaryscope/spring/SpringTemporaryScopeMetadataRegistrar.java:113 | an accepted string is non-empty with digits after its first character, and a negative value comes from a leading minus |
| Longs.ParseLongScan | temporary-scope-spring/src/main/java/dev/alexengrig/temporaryscope/spring/SpringTemporaryScopeMetadataRegistrar.java:113 | the JDK's parseLong loop computes exactly ParseLong, including rejecting every value outside the long range |
| Longs.ParseFormat | temporary-scope-spring/src/main/java/dev/alexengrig/temporaryscope/spring/SpringTemporaryScopeMetadataRegistrar.java:113 | every long is parsed back from its decimal form |
| Longs.PlusSignIgnored | temporary-scope-spring/src/main/java/dev/alexengrig/temporaryscope/spring/SpringTemporaryScopeMetadataRegistrar.java:113 | a leading plus is accepted and ignored; the empty string and a lone sign are rejected |
| Longs.NegativeAccepted | temporary-scope-spring/src/main/java/dev/alexengrig/temporaryscope/spring/SpringTemporaryScopeMetadataRegistrar.java:113 | "-5" parses to minus five, so no positivity is imposed; "10" parses to ten; "abc" is rejected |
| ChronoUnits.ValueOf | temporary-scope-spring/src/main/java/dev/alexengrig/temporaryscope/spring/SpringTemporaryScopeMetadataRegistrar.java:114 | a resolved unit has exactly the given name; when nothing is resolved, no unit has that name |
| ChronoUnits.ValueOfName | temporary-scope-spring/src/main/java/dev/alexengrig/temporaryscope/spring/SpringTemporaryScopeMetadataRegistrar.java:114 | every unit is resolved from its own name |
| ChronoUnits.ValueOfAcceptsExactlyNames | temporary-scope-spring/src/main/java/dev/alexengrig/temporaryscope/spring/SpringTemporaryScopeMetadataRegistrar.java:114 | valueOf accepts exactly the sixteen declared names, compared case-sensitively |

## Left out

- Spring plumbing is left out: the `BeanFactoryPostProcessor` interface, the bean factory, the `@Qualifier` injection of the map and the `instanceof` test. A definition carries an explicit style instead. Definitions arrive as a sequence in the order `getBeanDefinitionNames` returns them.
- Spring keeps bean names unique within one factory. The model does not require this, so duplicates show the map's last-writer-wins behaviour.
- Logging is reduced to the list of skip warnings. The info line logged on each registration (line 32) is not modelled.
- `annotationType()` (lines 118-121) is left out. It throws only because the value holder implements the annotation interface, and the pass never calls it.
- The casts from `Object` at lines 106-107 and 113-114 are left out, with their `ClassCastException`. Attributes are modelled as already typed.
- Longs.ParseLong: accepts only ASCII digits. `Long.parseLong` also accepts other Unicode decimal digits.
- Errors do not carry the bean name, as the Java exceptions do not. The fold lemmas identify the failing definition by position instead.
- `SpringTemporaryScopeMetadataRegistrar` does not check that the amount is positive, so "-5" is registered; the model does the same.
- Definitions are processed in `getBeanDefinitionNames` order, so with duplicate names the later one wins; the model keeps that order.
- Every definition that is not an `AnnotatedBeanDefinition` is read from its attributes (the TODO at line 54); the model has no third style.
- The lifecycle manager that later reads the map, and the test bean `TemporaryScopeComponent`, are outside this model.
