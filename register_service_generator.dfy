/**
 * RegisterServiceGenerator: every class marked [RegisterService] becomes a ServiceDefinition;
 * the generator then writes a constructor for each service with own service fields and one
 * `{A}ServiceExtensions` class registering all of them.
 */
module RegisterService {
  import opened Wrappers
  import Text
  import opened Sequences
  import opened Symbols
  import opened ClassDefinitions
  import opened SourceGenerationExtensions
  import opened GeneratedSource
  import opened ServiceRegistration

  /** What Transform records about a service class (the properties the generator reads). */
  datatype ServiceDefinition = ServiceDefinition(
    definition: ClassDefinition,
    interfaces: seq<string>,
    abstractBase: Option<string>,
    implementationType: string,
    lifetime: string,
    onConstructMethods: seq<string>,
    serviceFields: seq<FieldSymbol>)
  {
    predicate HasAbstractBase() { abstractBase.Some? }
  }

  /** The service classes Transform can produce: an abstract base is always the symbol's base type. */
  predicate WellFormed(d: ServiceDefinition)
  {
    d.HasAbstractBase() ==> d.definition.symbol.baseType.Some?
  }

  /** `declaration.HasAttribute(RegisterServiceAttribute.ShortName)`. */
  predicate Predicate(declaration: ClassDeclaration)
  {
    MarkedWith(declaration, "RegisterService")
  }

  /** An interface is registered when its generic-free name, less its first letter, occurs in the class's. */
  predicate InterfaceMatches(className: string, i: TypeSymbol)
  {
    var n := WithoutGenerics(i.name);
    |n| >= 1 && Text.Contains(className, n[1..])
  }

  function MatchesClass(className: string): TypeSymbol -> bool
  {
    i => InterfaceMatches(className, i)
  }

  /** `Select(s => s.ToDisplayString())`. */
  function DisplayStrings(symbols: seq<TypeSymbol>): (r: seq<string>)
    ensures |r| == |symbols| && forall k | 0 <= k < |r| :: r[k] == symbols[k].displayString
  {
    if |symbols| == 0 then [] else [symbols[0].displayString] + DisplayStrings(symbols[1..])
  }

  /**
   * `Interfaces`: the display strings of the matching interfaces, in AllInterfaces order. The
   * test runs over every interface, so one whose generic-free name is empty throws.
   */
  function Interfaces(className: string, allInterfaces: seq<TypeSymbol>): (r: Result<seq<string>, TransformError>)
    ensures r.Failure? <==> exists k | 0 <= k < |allInterfaces| :: WithoutGenerics(allInterfaces[k].name) == ""
    ensures r.Failure? ==> r.error == EmptyInterfaceName
    ensures r.Success? ==> r.value == DisplayStrings(Filter(allInterfaces, MatchesClass(className)))
  {
    if |allInterfaces| == 0 then Success([])
    else
      var n := WithoutGenerics(allInterfaces[0].name);
      assert forall k | 1 <= k < |allInterfaces| :: allInterfaces[k] == allInterfaces[1..][k - 1];
      if |n| == 0 then Failure(EmptyInterfaceName)
      else match Interfaces(className, allInterfaces[1..])
        case Failure(e) => Failure(e)
        case Success(rest) =>
          if Text.Contains(className, n[1..]) then Success([allInterfaces[0].displayString] + rest)
          else Success(rest)
  }

  /** `AbstractBase`: the base type's display string when the base type is abstract. */
  function AbstractBase(symbol: TypeSymbol): (r: Option<string>)
    ensures r.Some? <==> symbol.baseType.Some? && symbol.baseType.value.isAbstract
    ensures r.Some? ==> r.value == symbol.baseType.value.displayString
  {
    match symbol.baseType
    case Some(b) => if b.isAbstract then Some(b.displayString) else None
    case None => None
  }

  /**
   * Transform: the [RegisterService] attribute is looked up first, then the object initializer
   * runs in order (Interfaces, AbstractBase, ImplementationType, Lifetime, OnConstructMethods,
   * ServiceFields), so the first exception raised decides the error.
   */
  function Transform(symbol: TypeSymbol): (r: Result<ServiceDefinition, TransformError>)
    ensures r.Success? ==> WellFormed(r.value) && r.value.definition.symbol == symbol
    ensures r.Success? ==>
              && FindAttribute(symbol.attributes, RegisterServiceAttributeName).Success?
              && Interfaces(WithoutGenerics(symbol.name), symbol.allInterfaces) == Success(r.value.interfaces)
              && Lifetime(FindAttribute(symbol.attributes, RegisterServiceAttributeName).value) == Success(r.value.lifetime)
              && r.value.abstractBase == AbstractBase(symbol)
              && r.value.implementationType == ImplementationType(ClassDefinition(symbol))
              && r.value.onConstructMethods == GetMarkedMethods(symbol, OnConstructAttributeName)
              && r.value.serviceFields == GetUnassignedPrivateReadonlyFields(symbol)
    ensures r.Failure? <==>
              || FindAttribute(symbol.attributes, RegisterServiceAttributeName).Failure?
              || Interfaces(WithoutGenerics(symbol.name), symbol.allInterfaces).Failure?
              || Lifetime(FindAttribute(symbol.attributes, RegisterServiceAttributeName).value).Failure?
  {
    var definition := ClassDefinition(symbol);
    var attribute :- FindAttribute(symbol.attributes, RegisterServiceAttributeName);
    var interfaces :- Interfaces(definition.NameWithoutGenerics(), symbol.allInterfaces);
    var lifetime :- Lifetime(attribute);
    Success(ServiceDefinition(
      definition,
      interfaces,
      AbstractBase(symbol),
      ImplementationType(definition),
      lifetime,
      GetMarkedMethods(symbol, OnConstructAttributeName),
      GetUnassignedPrivateReadonlyFields(symbol)))
  }

  /** When the service has an abstract base: the base type's unassigned private and protected readonly fields. */
  function BaseServiceFields(d: ServiceDefinition): seq<FieldSymbol>
    requires WellFormed(d)
  {
    if d.HasAbstractBase() then GetUnassignedPrivateAndProtectedReadonlyFields(d.definition.symbol.baseType.value) else []
  }

  /** The constructor BuildConstructors writes, or none for a service without own service fields. */
  function ConstructorFor(d: ServiceDefinition): (file: Option<GeneratedFile>)
    requires WellFormed(d)
    ensures file.None? <==> |d.serviceFields| == 0
  {
    if |d.serviceFields| == 0 then None
    else
      var base := BaseServiceFields(d);
      Some(GeneratedFile(d.definition.FileName(), PartialConstructor(ConstructorPlan(
        d.definition.Namespace(),
        d.definition.Name(),
        Parameters(base) + Parameters(d.serviceFields),
        if d.HasAbstractBase() then Some(ParameterNames(Parameters(base))) else None,
        Assignments(d.serviceFields),
        d.onConstructMethods))))
  }

  /**
   * An emitted constructor takes the base fields then the own fields as parameters, passes
   * exactly the base parameters to the base constructor, assigns each own field from its
   * parameter, and then calls the on-construct methods; it is named after the class.
   */
  lemma ConstructorLayout(d: ServiceDefinition)
    requires WellFormed(d) && |d.serviceFields| > 0
    ensures var file := ConstructorFor(d).value;
            var base := BaseServiceFields(d);
            && file.hintName == d.definition.FileName()
            && file.content.PartialConstructor?
            && var plan := file.content.plan;
            && plan.namespaceName == d.definition.Namespace()
            && plan.className == d.definition.Name()
            && |plan.parameters| == |base| + |d.serviceFields|
            && (forall k | 0 <= k < |base| :: plan.parameters[k] == ParameterFor(base[k]))
            && (forall k | 0 <= k < |d.serviceFields| :: plan.parameters[|base| + k] == ParameterFor(d.serviceFields[k]))
            && (plan.baseArguments.Some? <==> d.HasAbstractBase())
            && (plan.baseArguments.Some? ==> plan.baseArguments.value == ParameterNames(plan.parameters[..|base|]))
            && |plan.assignments| == |d.serviceFields|
            && (forall k | 0 <= k < |d.serviceFields| ::
                  plan.assignments[k].field == d.serviceFields[k].name
                  && plan.assignments[k].parameter == plan.parameters[|base| + k].name)
            && plan.onConstructCalls == d.onConstructMethods
  {
    var base := BaseServiceFields(d);
    var parameters := Parameters(base) + Parameters(d.serviceFields);
    assert parameters[..|base|] == Parameters(base);
  }

  /** A service without own fields gets no constructor, whatever fields its abstract base has. */
  lemma ConstructorSkippedWithoutOwnFields(d: ServiceDefinition)
    requires WellFormed(d) && |d.serviceFields| == 0
    ensures ConstructorFor(d).None? && Constructors([d]) == []
  {
    assert [d][..0] == [];
  }

  /** BuildConstructors, appending parameters, assignments and calls one at a time. */
  method BuildConstructors(d: ServiceDefinition) returns (file: Option<GeneratedFile>)
    requires WellFormed(d)
    ensures file == ConstructorFor(d)
  {
    if |d.serviceFields| < 1 {
      return None;
    }
    var parameters: seq<Parameter> := [];
    var baseArguments: Option<seq<string>> := None;
    if d.HasAbstractBase() {
      var base := GetUnassignedPrivateAndProtectedReadonlyFields(d.definition.symbol.baseType.value);
      if |d.serviceFields| < 1 {
        // The separator variant for a service without own fields: excluded by the guard above.
        assert false;
      }
      parameters := AppendParameters(parameters, base);
      assert parameters == Parameters(base);
      var arguments := AppendNames([], parameters);
      assert arguments == ParameterNames(Parameters(base));
      baseArguments := Some(arguments);
    }
    assert parameters == Parameters(BaseServiceFields(d));
    assert baseArguments == if d.HasAbstractBase() then Some(ParameterNames(Parameters(BaseServiceFields(d)))) else None;
    parameters := AppendParameters(parameters, d.serviceFields);
    var assignments := AppendAssignments([], d.serviceFields);
    assert assignments == Assignments(d.serviceFields);
    file := Some(GeneratedFile(d.definition.FileName(), PartialConstructor(ConstructorPlan(
      d.definition.Namespace(), d.definition.Name(), parameters, baseArguments, assignments, d.onConstructMethods))));
  }

  /** A service with own fields gets a constructor. */
  predicate HasOwnFields(d: ServiceDefinition) { |d.serviceFields| > 0 }

  /** The constructor files, one per service with own fields, in definition order. */
  function Constructors(definitions: seq<ServiceDefinition>): seq<GeneratedFile>
    requires forall d | d in definitions :: WellFormed(d)
    decreases |definitions|
  {
    if |definitions| == 0 then []
    else
      var d := definitions[|definitions| - 1];
      Constructors(definitions[..|definitions| - 1]) + if HasOwnFields(d) then [ConstructorFor(d).value] else []
  }

  /** The constructor files are those of the services with own fields, one each, in definition order. */
  lemma {:induction false} ConstructorsFollowOwners(definitions: seq<ServiceDefinition>)
    requires forall d | d in definitions :: WellFormed(d)
    ensures var owners := Filter(definitions, HasOwnFields);
            var files := Constructors(definitions);
            |files| == |owners| && forall k | 0 <= k < |files| :: Some(files[k]) == ConstructorFor(owners[k])
    decreases |definitions|
  {
    if |definitions| > 0 {
      var init, d := definitions[..|definitions| - 1], definitions[|definitions| - 1];
      assert definitions == init + [d];
      ConstructorsFollowOwners(init);
      FilterAppend(init, [d], HasOwnFields);
      assert Filter([d], HasOwnFields) == if HasOwnFields(d) then [d] else [];
      assert Constructors(definitions) == Constructors(init) + if HasOwnFields(d) then [ConstructorFor(d).value] else [];
    }
  }

  /** The registrations of one service: one per matched interface, else one standalone or against its abstract base. */
  function DefinitionRegistrations(d: ServiceDefinition): (registrations: seq<Registration>)
    ensures |d.interfaces| > 0 ==>
              |registrations| == |d.interfaces|
              && forall k | 0 <= k < |registrations| ::
                   registrations[k] == Registration(d.lifetime, Some(d.interfaces[k]), d.implementationType)
    ensures |d.interfaces| == 0 ==> registrations == [Registration(d.lifetime, d.abstractBase, d.implementationType)]
  {
    if |d.interfaces| > 0 then
      seq(|d.interfaces|, k requires 0 <= k < |d.interfaces| => Registration(d.lifetime, Some(d.interfaces[k]), d.implementationType))
    else [Registration(d.lifetime, d.abstractBase, d.implementationType)]
  }

  /** The registrations of all services, in definition order. */
  function Registrations(definitions: seq<ServiceDefinition>): seq<Registration>
  {
    if |definitions| == 0 then []
    else Registrations(definitions[..|definitions| - 1]) + DefinitionRegistrations(definitions[|definitions| - 1])
  }

  /** The `{A}ServiceExtensions` file, where A is the sanitized assembly name. */
  function ExtensionsFile(assemblyName: string, registrations: seq<Registration>): GeneratedFile
  {
    var a := SanitizedAssemblyName(assemblyName);
    GeneratedFile(a + "ServiceExtensions.g.cs", ServiceExtensions(a + "ServiceExtensions", "Add" + a, registrations))
  }

  /** Everything BuildSource adds: nothing for no services; otherwise the constructors, then the extensions file. */
  function GeneratedFiles(assemblyName: string, definitions: seq<ServiceDefinition>): seq<GeneratedFile>
    requires forall d | d in definitions :: WellFormed(d)
  {
    if |definitions| == 0 then [] else Constructors(definitions) + [ExtensionsFile(assemblyName, Registrations(definitions))]
  }

  /** One step of BuildAllConstructors: the constructor of service i, if any, extends those before it. */
  lemma ConstructorsStep(definitions: seq<ServiceDefinition>, i: nat, files: seq<GeneratedFile>, file: Option<GeneratedFile>)
    requires forall d | d in definitions :: WellFormed(d)
    requires i < |definitions| && files == Constructors(definitions[..i])
    requires file == ConstructorFor(definitions[i])
    ensures (if file.Some? then files + [file.value] else files) == Constructors(definitions[..i + 1])
  {
    assert definitions[..i + 1][..i] == definitions[..i];
  }

  /** BuildSource's first loop: BuildConstructors for each service in turn. */
  method BuildAllConstructors(definitions: seq<ServiceDefinition>) returns (files: seq<GeneratedFile>)
    requires forall d | d in definitions :: WellFormed(d)
    ensures files == Constructors(definitions)
  {
    files := [];
    for i := 0 to |definitions|
      invariant files == Constructors(definitions[..i])
    {
      var file := BuildConstructors(definitions[i]);
      ConstructorsStep(definitions, i, files, file);
      if file.Some? {
        files := files + [file.value];
      }
    }
    assert definitions[..|definitions|] == definitions;
  }

  /** BuildSource's second loop: the registration lines of each service in turn. */
  method BuildRegistrations(definitions: seq<ServiceDefinition>) returns (registrations: seq<Registration>)
    ensures registrations == Registrations(definitions)
  {
    registrations := [];
    for i := 0 to |definitions|
      invariant registrations == Registrations(definitions[..i])
    {
      var d := definitions[i];
      assert definitions[..i + 1][..i] == definitions[..i];
      if |d.interfaces| > 0 {
        var start := registrations;
        for j := 0 to |d.interfaces|
          invariant registrations == start + DefinitionRegistrations(d)[..j]
        {
          registrations := registrations + [Registration(d.lifetime, Some(d.interfaces[j]), d.implementationType)];
        }
        assert DefinitionRegistrations(d)[..|d.interfaces|] == DefinitionRegistrations(d);
      } else {
        registrations := registrations + [Registration(d.lifetime, d.abstractBase, d.implementationType)];
      }
    }
    assert definitions[..|definitions|] == definitions;
  }

  /** BuildSource: nothing for no services; the constructors, then the extensions file. */
  method BuildSource(assemblyName: string, definitions: seq<ServiceDefinition>) returns (files: seq<GeneratedFile>)
    requires forall d | d in definitions :: WellFormed(d)
    ensures files == GeneratedFiles(assemblyName, definitions)
  {
    if |definitions| == 0 {
      return [];
    }
    files := BuildAllConstructors(definitions);
    var a := SanitizedAssemblyName(assemblyName);
    var registrations := BuildRegistrations(definitions);
    files := files + [GeneratedFile(a + "ServiceExtensions.g.cs", ServiceExtensions(a + "ServiceExtensions", "Add" + a, registrations))];
  }

  /** The registrations of two runs of services are those of each, one after the other. */
  lemma {:induction false} RegistrationsAppend(a: seq<ServiceDefinition>, b: seq<ServiceDefinition>)
    ensures Registrations(a + b) == Registrations(a) + Registrations(b)
    decreases |b|
  {
    if |b| == 0 {
      assert a + b == a;
    } else {
      var b', last := b[..|b| - 1], b[|b| - 1];
      assert (a + b)[..|a + b| - 1] == a + b';
      assert (a + b)[|a + b| - 1] == last;
      RegistrationsAppend(a, b');
      var x, y, z := Registrations(a), Registrations(b'), DefinitionRegistrations(last);
      calc {
        Registrations(a + b);
        Registrations(a + b') + z;
        (x + y) + z;
        { assert (x + y) + z == x + (y + z); }
        x + (y + z);
        x + Registrations(b);
      }
    }
  }

  /**
   * Registrations follow definition order: the registrations of service i come right after
   * those of the services before it.
   */
  lemma RegistrationsInOrder(definitions: seq<ServiceDefinition>, i: nat)
    requires i < |definitions|
    ensures var before := |Registrations(definitions[..i])|;
            var own := DefinitionRegistrations(definitions[i]);
            before + |own| <= |Registrations(definitions)|
            && Registrations(definitions)[before..before + |own|] == own
  {
    assert definitions == definitions[..i] + [definitions[i]] + definitions[i + 1..];
    RegistrationsAppend(definitions[..i] + [definitions[i]], definitions[i + 1..]);
    RegistrationsAppend(definitions[..i], [definitions[i]]);
    assert [definitions[i]][..0] == [];
  }

  /**
   * For a non-empty run of services, BuildSource writes one constructor file per service with
   * own fields, under that service's file name and in order, and last the single extensions
   * file, whose names carry the sanitized assembly name.
   */
  lemma GeneratedFilesShape(assemblyName: string, definitions: seq<ServiceDefinition>)
    requires forall d | d in definitions :: WellFormed(d)
    requires |definitions| > 0
    ensures var files := GeneratedFiles(assemblyName, definitions);
            var owners := Filter(definitions, HasOwnFields);
            var a := SanitizedAssemblyName(assemblyName);
            && |files| == |owners| + 1
            && (forall k | 0 <= k < |owners| :: files[k].hintName == owners[k].definition.FileName()
                                                && files[k].content.PartialConstructor?)
            && files[|owners|].hintName == a + "ServiceExtensions.g.cs"
            && files[|owners|].content == ServiceExtensions(a + "ServiceExtensions", "Add" + a, Registrations(definitions))
            && '.' !in a && ' ' !in a && '_' !in a
  {
    var owners := Filter(definitions, HasOwnFields);
    ConstructorsFollowOwners(definitions);
    forall k | 0 <= k < |owners|
      ensures Constructors(definitions)[k].hintName == owners[k].definition.FileName()
              && Constructors(definitions)[k].content.PartialConstructor?
    {
      ConstructorLayout(owners[k]);
    }
  }

  /** No services, no files: not even the extensions class. */
  lemma NothingForNoServices(assemblyName: string)
    ensures GeneratedFiles(assemblyName, []) == []
  {
  }

  /**
   * A class whose symbol carries no RegisterServiceAttribute is transient: with every
   * attribute class resolved and no empty interface name, Transform succeeds.
   */
  lemma TransientByDefault(symbol: TypeSymbol)
    requires forall j | 0 <= j < |symbol.attributes| :: symbol.attributes[j].attributeClass.Some?
                                                      && symbol.attributes[j].attributeClass != Some(RegisterServiceAttributeName)
    requires forall k | 0 <= k < |symbol.allInterfaces| :: WithoutGenerics(symbol.allInterfaces[k].name) != ""
    ensures Transform(symbol).Success? && Transform(symbol).value.lifetime == "Transient"
  {
    assert FindAttribute(symbol.attributes, RegisterServiceAttributeName) == Success(None);
  }

  /**
   * A null lifetime argument falls back to Transient as well: when the first
   * RegisterServiceAttribute, at index `i`, has a null first argument and every attribute
   * before it resolves to another class, Transform succeeds with "Transient".
   */
  lemma TransientForNullArgument(symbol: TypeSymbol, i: nat)
    requires i < |symbol.attributes|
    requires symbol.attributes[i].attributeClass == Some(RegisterServiceAttributeName)
    requires |symbol.attributes[i].constructorArguments| > 0 && symbol.attributes[i].constructorArguments[0].None?
    requires forall j | 0 <= j < i :: symbol.attributes[j].attributeClass.Some?
                                     && symbol.attributes[j].attributeClass != Some(RegisterServiceAttributeName)
    requires forall k | 0 <= k < |symbol.allInterfaces| :: WithoutGenerics(symbol.allInterfaces[k].name) != ""
    ensures Transform(symbol).Success? && Transform(symbol).value.lifetime == "Transient"
  {
    var found := FindAttribute(symbol.attributes, RegisterServiceAttributeName);
    assert found.Success? && found.value.Some? by {
      assert symbol.attributes[i].attributeClass.Some?;
    }
    var k :| 0 <= k < |symbol.attributes| && symbol.attributes[k] == found.value.value
             && found.value.value.attributeClass == Some(RegisterServiceAttributeName)
             && forall j | 0 <= j < k :: symbol.attributes[j].attributeClass.Some?
                                        && symbol.attributes[j].attributeClass != Some(RegisterServiceAttributeName);
    assert k == i;
    assert LifetimeArgument(found.value) == Success(2);
  }
}
