/**
 * What the generators hand to the compiler: a file name and the logical content of the
 * file, as records rather than formatted text.
 */
module GeneratedSource {
  import opened Wrappers
  import opened Symbols
  import opened Sequences

  /** A constructor parameter `{type} {name}`. */
  datatype Parameter = Parameter(typeName: string, name: string)

  /** An assignment `{field} = {parameter};`. */
  datatype Assignment = Assignment(field: string, parameter: string)

  /** A generated constructor of `partial class {className}` in `namespace {namespaceName}`. */
  datatype ConstructorPlan = ConstructorPlan(
    namespaceName: string,
    className: string,
    parameters: seq<Parameter>,
    baseArguments: Option<seq<string>>,
    assignments: seq<Assignment>,
    onConstructCalls: seq<string>)

  /** `services.Add{lifetime}<{serviceType}, {implementationType}>();`, or without the service type. */
  datatype Registration = Registration(lifetime: string, serviceType: Option<string>, implementationType: string)

  /** `public DbSet<{entityType}> {propertyName} { get; set; }`. */
  datatype DbSetProperty = DbSetProperty(entityType: string, propertyName: string)

  datatype Content =
    | ServiceExtensions(className: string, methodName: string, registrations: seq<Registration>)
    | PartialConstructor(plan: ConstructorPlan)
    | DbSets(contextNamespace: string, contextName: string, properties: seq<DbSetProperty>)

  /** One `context.AddSource(hintName, …)` call. */
  datatype GeneratedFile = GeneratedFile(hintName: string, content: Content)

  /** The parameter a service field becomes: its type, and its name without the first character. */
  function ParameterFor(field: FieldSymbol): Parameter
  {
    Parameter(field.typeName, field.name[1..])
  }

  /** `{field.Name} = {field.Name.Substring(1)};`. */
  function AssignmentFor(field: FieldSymbol): Assignment
  {
    Assignment(field.name, field.name[1..])
  }

  /** `AppendLines(fields, f => $"{f.Type.ToDisplayString()} {f.Name.Substring(1)}", ',')`, one parameter per field. */
  function Parameters(fields: seq<FieldSymbol>): (ps: seq<Parameter>)
    ensures |ps| == |fields| && forall k | 0 <= k < |ps| :: ps[k] == ParameterFor(fields[k])
  {
    if |fields| == 0 then [] else [ParameterFor(fields[0])] + Parameters(fields[1..])
  }

  /** One assignment per field, in field order. */
  function Assignments(fields: seq<FieldSymbol>): (assignments: seq<Assignment>)
    ensures |assignments| == |fields| && forall k | 0 <= k < |assignments| :: assignments[k] == AssignmentFor(fields[k])
  {
    if |fields| == 0 then [] else [AssignmentFor(fields[0])] + Assignments(fields[1..])
  }

  /** The parameters' names, as a base-constructor argument list. */
  function ParameterNames(parameters: seq<Parameter>): (names: seq<string>)
    ensures |names| == |parameters| && forall k | 0 <= k < |names| :: names[k] == parameters[k].name
  {
    if |parameters| == 0 then [] else [parameters[0].name] + ParameterNames(parameters[1..])
  }

  /** `AppendLines` over fields: one parameter line per field, after those already written. */
  method AppendParameters(parameters: seq<Parameter>, fields: seq<FieldSymbol>) returns (r: seq<Parameter>)
    ensures r == parameters + Parameters(fields)
  {
    r := parameters;
    for k := 0 to |fields|
      invariant r == parameters + Parameters(fields)[..k]
    {
      assert Parameters(fields)[..k + 1] == Parameters(fields)[..k] + [ParameterFor(fields[k])];
      AppendAssociative(parameters, Parameters(fields)[..k], [ParameterFor(fields[k])]);
      r := r + [ParameterFor(fields[k])];
    }
    assert Parameters(fields)[..|fields|] == Parameters(fields);
  }

  /** `AppendLines` over fields, one `{field} = {parameter};` line each. */
  method AppendAssignments(assignments: seq<Assignment>, fields: seq<FieldSymbol>) returns (r: seq<Assignment>)
    ensures r == assignments + Assignments(fields)
  {
    r := assignments;
    for k := 0 to |fields|
      invariant r == assignments + Assignments(fields)[..k]
    {
      assert Assignments(fields)[..k + 1] == Assignments(fields)[..k] + [AssignmentFor(fields[k])];
      AppendAssociative(assignments, Assignments(fields)[..k], [AssignmentFor(fields[k])]);
      r := r + [AssignmentFor(fields[k])];
    }
    assert Assignments(fields)[..|fields|] == Assignments(fields);
  }

  /** The base call's argument lines: each parameter's name. */
  method AppendNames(names: seq<string>, parameters: seq<Parameter>) returns (r: seq<string>)
    ensures r == names + ParameterNames(parameters)
  {
    r := names;
    for k := 0 to |parameters|
      invariant r == names + ParameterNames(parameters)[..k]
    {
      assert ParameterNames(parameters)[..k + 1] == ParameterNames(parameters)[..k] + [parameters[k].name];
      AppendAssociative(names, ParameterNames(parameters)[..k], [parameters[k].name]);
      r := r + [parameters[k].name];
    }
    assert ParameterNames(parameters)[..|parameters|] == ParameterNames(parameters);
  }
}
