/**
 * The older RegisterServiceGenerator: at most one interface per service, no abstract bases,
 * no constructors for view models, and an extensions class always named
 * `AnimaServiceExtensions`.
 */
module LegacyRegisterService {
  import opened Wrappers
  import Text
  import opened Sequences
  import opened Symbols
  import opened ClassDefinitions
  import opened SourceGenerationExtensions
  import opened GeneratedSource
  import opened ServiceRegistration
  import RegisterService

  /** What the older Transform records about a service class. */
  datatype ServiceDefinition = ServiceDefinition(
    definition: ClassDefinition,
    interface: Option<string>,
    implementationType: string,
    lifetime: string,
    isViewModel: bool,
    onConstructMethods: seq<string>)

  /** `declaration.HasAttribute(RegisterServiceAttribute.ShortName)`. */
  predicate Predicate(declaration: ClassDeclaration)
  {
    MarkedWith(declaration, "RegisterService")
  }

  /** `ToDisplayString().Split('.').Last()`: the display string after its last '.'. */
  function LastSegment(displayString: string): string
  {
    var parts := Text.Split(displayString, '.');
    parts[|parts| - 1]
  }

  /** The interface is named after the class: its last segment, less its first letter, is the class name. */
  predicate NamesClass(className: string, i: TypeSymbol)
  {
    var segment := LastSegment(i.displayString);
    |segment| >= 1 && segment[1..] == className
  }

  /** The scan of `Interface` stops at an interface named after the class or at one whose `Substring(1)` throws. */
  predicate StopsScan(className: string, i: TypeSymbol)
  {
    LastSegment(i.displayString) == "" || NamesClass(className, i)
  }

  function StopsScanFor(className: string): TypeSymbol -> bool
  {
    i => StopsScan(className, i)
  }

  /**
   * `Interface`: the first interface named after the class. The scan stops at the match, and an
   * interface met before it whose last segment is empty throws in `Substring(1)`.
   */
  function Interface(className: string, allInterfaces: seq<TypeSymbol>): (r: Result<Option<string>, TransformError>)
    ensures r.Failure? ==> r.error == EmptyInterfaceName
    ensures r.Success? && r.value.Some? ==> exists k | 0 <= k < |allInterfaces| :: r.value.value == allInterfaces[k].displayString
  {
    if |allInterfaces| == 0 then Success(None)
    else
      var segment := LastSegment(allInterfaces[0].displayString);
      if |segment| == 0 then Failure(EmptyInterfaceName)
      else if segment[1..] == className then Success(Some(allInterfaces[0].displayString))
      else
        var r := Interface(className, allInterfaces[1..]);
        assert r.Success? && r.value.Some? ==> exists k | 1 <= k < |allInterfaces| :: r.value.value == allInterfaces[k].displayString by {
          if r.Success? && r.value.Some? {
            var k :| 0 <= k < |allInterfaces[1..]| && r.value.value == allInterfaces[1..][k].displayString;
            assert allInterfaces[1..][k] == allInterfaces[k + 1];
          }
        }
        r
  }

  /**
   * `Interface` is decided by the first interface where the scan stops: none gives no interface,
   * an empty last segment throws, and a match gives that interface's display string.
   */
  lemma {:induction false} InterfaceIsFirstStop(className: string, allInterfaces: seq<TypeSymbol>)
    ensures var stop := FirstIndex(allInterfaces, StopsScanFor(className));
            Interface(className, allInterfaces)
            == if stop.None? then Success(None)
               else if LastSegment(allInterfaces[stop.value].displayString) == "" then Failure(EmptyInterfaceName)
               else Success(Some(allInterfaces[stop.value].displayString))
  {
    if |allInterfaces| > 0 && !StopsScan(className, allInterfaces[0]) {
      InterfaceIsFirstStop(className, allInterfaces[1..]);
      var stop := FirstIndex(allInterfaces[1..], StopsScanFor(className));
      assert Interface(className, allInterfaces) == Interface(className, allInterfaces[1..]);
      if stop.Some? {
        assert FirstIndex(allInterfaces, StopsScanFor(className)) == Some(stop.value + 1);
        assert allInterfaces[1..][stop.value] == allInterfaces[stop.value + 1];
      } else {
        assert FirstIndex(allInterfaces, StopsScanFor(className)) == None;
      }
    }
  }

  /** `IsViewModel`: the base type is named ViewModelBase or ReactiveObject. */
  predicate IsViewModel(symbol: TypeSymbol)
  {
    symbol.baseType.Some? && (symbol.baseType.value.name == "ViewModelBase" || symbol.baseType.value.name == "ReactiveObject")
  }

  /** The older Transform: the attribute lookup, then Interface, ImplementationType and Lifetime in order. */
  function Transform(symbol: TypeSymbol): (r: Result<ServiceDefinition, TransformError>)
    ensures r.Success? ==>
              && r.value.definition.symbol == symbol
              && FindAttribute(symbol.attributes, RegisterServiceAttributeName).Success?
              && Interface(WithoutGenerics(symbol.name), symbol.allInterfaces) == Success(r.value.interface)
              && Lifetime(FindAttribute(symbol.attributes, RegisterServiceAttributeName).value) == Success(r.value.lifetime)
              && r.value.implementationType == ImplementationType(ClassDefinition(symbol))
              && r.value.isViewModel == IsViewModel(symbol)
              && r.value.onConstructMethods == GetMarkedMethods(symbol, OnConstructAttributeName)
    ensures r.Failure? <==>
              || FindAttribute(symbol.attributes, RegisterServiceAttributeName).Failure?
              || Interface(WithoutGenerics(symbol.name), symbol.allInterfaces).Failure?
              || Lifetime(FindAttribute(symbol.attributes, RegisterServiceAttributeName).value).Failure?
  {
    var definition := ClassDefinition(symbol);
    var attribute :- FindAttribute(symbol.attributes, RegisterServiceAttributeName);
    var interface :- Interface(definition.NameWithoutGenerics(), symbol.allInterfaces);
    var lifetime :- Lifetime(attribute);
    Success(ServiceDefinition(definition, interface, ImplementationType(definition), lifetime,
                              IsViewModel(symbol), GetMarkedMethods(symbol, OnConstructAttributeName)))
  }

  /** The older constructor: the class's unassigned private readonly fields, no base call. */
  function ConstructorFor(d: ServiceDefinition): (file: Option<GeneratedFile>)
    ensures file.None? <==> |GetUnassignedPrivateReadonlyFields(d.definition.symbol)| == 0
  {
    var fields := GetUnassignedPrivateReadonlyFields(d.definition.symbol);
    if |fields| == 0 then None
    else Some(GeneratedFile(d.definition.FileName(), PartialConstructor(ConstructorPlan(
      d.definition.Namespace(), d.definition.Name(), Parameters(fields), None, Assignments(fields), d.onConstructMethods))))
  }

  /**
   * For a class without an abstract base, the older constructor is the one the newer generator
   * writes for the same class.
   */
  lemma ConstructorAgreesWithNewer(d: ServiceDefinition, e: RegisterService.ServiceDefinition)
    requires e.definition == d.definition && e.abstractBase.None?
    requires e.serviceFields == GetUnassignedPrivateReadonlyFields(d.definition.symbol)
    requires e.onConstructMethods == d.onConstructMethods
    ensures RegisterService.WellFormed(e) && ConstructorFor(d) == RegisterService.ConstructorFor(e)
  {
    assert RegisterService.BaseServiceFields(e) == [];
    assert Parameters([]) + Parameters(e.serviceFields) == Parameters(e.serviceFields);
  }

  /** BuildConstructors of the older generator. */
  method BuildConstructors(d: ServiceDefinition) returns (file: Option<GeneratedFile>)
    ensures file == ConstructorFor(d)
  {
    var fields := GetUnassignedPrivateReadonlyFields(d.definition.symbol);
    if |fields| == 0 {
      return None;
    }
    var parameters := AppendParameters([], fields);
    assert parameters == Parameters(fields) by {
      assert [] + Parameters(fields) == Parameters(fields);
    }
    var assignments := AppendAssignments([], fields);
    assert assignments == Assignments(fields) by {
      assert [] + Assignments(fields) == Assignments(fields);
    }
    file := Some(GeneratedFile(d.definition.FileName(), PartialConstructor(ConstructorPlan(
      d.definition.Namespace(), d.definition.Name(), parameters, None, assignments, d.onConstructMethods))));
  }

  /** A service gets a constructor unless it is a view model or has no qualifying fields. */
  predicate GetsConstructor(d: ServiceDefinition)
  {
    !d.isViewModel && ConstructorFor(d).Some?
  }

  /** The constructor files, for the services that get one, in definition order. */
  function Constructors(definitions: seq<ServiceDefinition>): seq<GeneratedFile>
    decreases |definitions|
  {
    if |definitions| == 0 then []
    else
      var d := definitions[|definitions| - 1];
      Constructors(definitions[..|definitions| - 1]) + if GetsConstructor(d) then [ConstructorFor(d).value] else []
  }

  /** The constructor files are those of the services that get one, one each, in definition order. */
  lemma {:induction false} ConstructorsFollowOwners(definitions: seq<ServiceDefinition>)
    ensures var owners := Filter(definitions, GetsConstructor);
            var files := Constructors(definitions);
            |files| == |owners| && forall k | 0 <= k < |files| :: Some(files[k]) == ConstructorFor(owners[k])
    decreases |definitions|
  {
    if |definitions| > 0 {
      var init, d := definitions[..|definitions| - 1], definitions[|definitions| - 1];
      assert definitions == init + [d];
      ConstructorsFollowOwners(init);
      FilterAppend(init, [d], GetsConstructor);
      assert Filter([d], GetsConstructor) == if GetsConstructor(d) then [d] else [];
      assert Constructors(definitions) == Constructors(init) + if GetsConstructor(d) then [ConstructorFor(d).value] else [];
    }
  }

  /** `services.Add{Lifetime}<{Interface, }{ImplementationType}>();` */
  function RegistrationFor(d: ServiceDefinition): Registration
  {
    Registration(d.lifetime, d.interface, d.implementationType)
  }

  /** Exactly one registration per service, in definition order. */
  function Registrations(definitions: seq<ServiceDefinition>): (registrations: seq<Registration>)
    ensures |registrations| == |definitions|
    ensures forall k | 0 <= k < |definitions| :: registrations[k] == Registration(definitions[k].lifetime, definitions[k].interface, definitions[k].implementationType)
  {
    seq(|definitions|, k requires 0 <= k < |definitions| => RegistrationFor(definitions[k]))
  }

  /** The extensions file: always `AnimaServiceExtensions`, with `Add{A}` for the sanitized assembly name A. */
  function ExtensionsFile(assemblyName: string, registrations: seq<Registration>): GeneratedFile
  {
    GeneratedFile("AnimaServiceExtensions.g.cs",
      ServiceExtensions("AnimaServiceExtensions", "Add" + SanitizedAssemblyName(assemblyName), registrations))
  }

  function GeneratedFiles(assemblyName: string, definitions: seq<ServiceDefinition>): seq<GeneratedFile>
  {
    if |definitions| == 0 then [] else Constructors(definitions) + [ExtensionsFile(assemblyName, Registrations(definitions))]
  }

  /** The older BuildSource's first loop, over the services that are not view models. */
  method BuildAllConstructors(definitions: seq<ServiceDefinition>) returns (files: seq<GeneratedFile>)
    ensures files == Constructors(definitions)
  {
    files := [];
    for i := 0 to |definitions|
      invariant files == Constructors(definitions[..i])
    {
      var d := definitions[i];
      assert definitions[..i + 1][..i] == definitions[..i];
      if !d.isViewModel {
        var file := BuildConstructors(d);
        if file.Some? {
          files := files + [file.value];
        }
      }
    }
    assert definitions[..|definitions|] == definitions;
  }

  /** The older BuildSource. */
  method BuildSource(assemblyName: string, definitions: seq<ServiceDefinition>) returns (files: seq<GeneratedFile>)
    ensures files == GeneratedFiles(assemblyName, definitions)
  {
    if |definitions| == 0 {
      return [];
    }
    files := BuildAllConstructors(definitions);
    var a := SanitizedAssemblyName(assemblyName);
    var registrations: seq<Registration> := [];
    for i := 0 to |definitions|
      invariant registrations == Registrations(definitions[..i])
    {
      registrations := registrations + [RegistrationFor(definitions[i])];
    }
    assert definitions[..|definitions|] == definitions;
    files := files + [GeneratedFile("AnimaServiceExtensions.g.cs", ServiceExtensions("AnimaServiceExtensions", "Add" + a, registrations))];
  }

  /**
   * The services that get a constructor are exactly those that are not view models and have
   * an unassigned private readonly field.
   */
  lemma ConstructorOwners(definitions: seq<ServiceDefinition>)
    ensures var owners := Filter(definitions, GetsConstructor);
            && (forall k | 0 <= k < |owners| :: owners[k] in definitions && !owners[k].isViewModel
                                                && |GetUnassignedPrivateReadonlyFields(owners[k].definition.symbol)| > 0)
            && (forall k | 0 <= k < |definitions| && !definitions[k].isViewModel
                           && |GetUnassignedPrivateReadonlyFields(definitions[k].definition.symbol)| > 0 :: definitions[k] in owners)
  {
    var owners := Filter(definitions, GetsConstructor);
    forall k | 0 <= k < |owners|
      ensures |GetUnassignedPrivateReadonlyFields(owners[k].definition.symbol)| > 0
    {
      assert GetsConstructor(owners[k]);
    }
  }
}
