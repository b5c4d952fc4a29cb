/**
 * ServiceBaseGenerator: a constructor for every abstract class marked [ServiceBase], taking
 * its unassigned private and protected readonly fields.
 */
module ServiceBase {
  import opened Wrappers
  import opened Sequences
  import opened Symbols
  import opened ClassDefinitions
  import opened SourceGenerationExtensions
  import opened GeneratedSource
  import ServiceRegistration
  import RegisterService

  /** `declaration.HasAttribute(ServiceBaseAttribute.ShortName)`. */
  predicate Predicate(declaration: ClassDeclaration)
  {
    MarkedWith(declaration, "ServiceBase")
  }

  /** The constructor written for one abstract class; there is no guard against zero fields. */
  function ConstructorFor(definition: ClassDefinition): (file: GeneratedFile)
    ensures file.hintName == definition.FileName() && file.content.PartialConstructor?
    ensures var plan := file.content.plan;
            var services := GetUnassignedPrivateAndProtectedReadonlyFields(definition.symbol);
            && plan.namespaceName == definition.Namespace() && plan.className == definition.Name()
            && plan.baseArguments.None?
            && |plan.parameters| == |services| == |plan.assignments|
            && (forall k | 0 <= k < |services| ::
                  plan.parameters[k] == ParameterFor(services[k])
                  && plan.assignments[k].field == services[k].name
                  && plan.assignments[k].parameter == plan.parameters[k].name)
            && plan.onConstructCalls == GetMarkedMethods(definition.symbol, ServiceRegistration.OnConstructAttributeName)
  {
    var services := GetUnassignedPrivateAndProtectedReadonlyFields(definition.symbol);
    GeneratedFile(definition.FileName(), PartialConstructor(ConstructorPlan(
      definition.Namespace(), definition.Name(), Parameters(services), None, Assignments(services),
      GetMarkedMethods(definition.symbol, ServiceRegistration.OnConstructAttributeName))))
  }

  predicate IsAbstract(definition: ClassDefinition) { definition.IsAbstract() }

  /** One file per abstract definition, in definition order; other definitions are ignored. */
  function GeneratedFiles(definitions: seq<ClassDefinition>): seq<GeneratedFile>
    decreases |definitions|
  {
    if |definitions| == 0 then []
    else
      var d := definitions[|definitions| - 1];
      GeneratedFiles(definitions[..|definitions| - 1]) + if IsAbstract(d) then [ConstructorFor(d)] else []
  }

  /** The files are the constructors of the abstract definitions, one each, in definition order. */
  lemma {:induction false} FilesFollowAbstracts(definitions: seq<ClassDefinition>)
    ensures var abstracts := Filter(definitions, IsAbstract);
            var files := GeneratedFiles(definitions);
            |files| == |abstracts| && forall k | 0 <= k < |files| :: files[k] == ConstructorFor(abstracts[k])
    decreases |definitions|
  {
    if |definitions| > 0 {
      var init, d := definitions[..|definitions| - 1], definitions[|definitions| - 1];
      assert definitions == init + [d];
      FilesFollowAbstracts(init);
      FilterAppend(init, [d], IsAbstract);
      assert Filter([d], IsAbstract) == if IsAbstract(d) then [d] else [];
      assert GeneratedFiles(definitions) == GeneratedFiles(init) + if IsAbstract(d) then [ConstructorFor(d)] else [];
    }
  }

  /** The body of BuildSource's loop for one abstract class. */
  method BuildConstructor(definition: ClassDefinition) returns (file: GeneratedFile)
    ensures file == ConstructorFor(definition)
  {
    var services := GetUnassignedPrivateAndProtectedReadonlyFields(definition.symbol);
    var onConstructs := GetMarkedMethods(definition.symbol, ServiceRegistration.OnConstructAttributeName);
    var parameters := AppendParameters([], services);
    assert parameters == Parameters(services) by {
      assert [] + Parameters(services) == Parameters(services);
    }
    var assignments := AppendAssignments([], services);
    assert assignments == Assignments(services) by {
      assert [] + Assignments(services) == Assignments(services);
    }
    file := GeneratedFile(definition.FileName(), PartialConstructor(ConstructorPlan(
      definition.Namespace(), definition.Name(), parameters, None, assignments, onConstructs)));
  }

  /** BuildSource: the foreach over the abstract definitions. */
  method BuildSource(definitions: seq<ClassDefinition>) returns (files: seq<GeneratedFile>)
    ensures files == GeneratedFiles(definitions)
  {
    files := [];
    for i := 0 to |definitions|
      invariant files == GeneratedFiles(definitions[..i])
    {
      var definition := definitions[i];
      assert definitions[..i + 1][..i] == definitions[..i];
      if definition.IsAbstract() {
        var file := BuildConstructor(definition);
        files := files + [file];
      }
    }
    assert definitions[..|definitions|] == definitions;
  }

  /**
   * The generated code fits together: a registered service deriving from an abstract base
   * passes to `base(…)` exactly the parameter names of the constructor written here for that base.
   */
  lemma BaseCallMatchesBaseConstructor(d: RegisterService.ServiceDefinition)
    requires RegisterService.WellFormed(d) && d.HasAbstractBase() && |d.serviceFields| > 0
    ensures var baseConstructor := ConstructorFor(ClassDefinition(d.definition.symbol.baseType.value));
            RegisterService.ConstructorFor(d).value.content.plan.baseArguments
              == Some(ParameterNames(baseConstructor.content.plan.parameters))
  {
    RegisterService.ConstructorLayout(d);
    var plan := RegisterService.ConstructorFor(d).value.content.plan;
    var base := RegisterService.BaseServiceFields(d);
    assert plan.parameters[..|base|] == Parameters(base);
  }
}
