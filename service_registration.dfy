/**
 * What both versions of RegisterServiceGenerator share: finding the [RegisterService]
 * attribute, mapping its lifetime argument to a ServiceLifetime member name, the
 * implementation type name, and the assembly name used in `Add{assembly}`.
 */
module ServiceRegistration {
  import opened Wrappers
  import Text
  import opened Symbols
  import opened ClassDefinitions
  import opened SourceGenerationExtensions

  /** The exceptions Transform can raise, as values. */
  datatype TransformError =
    | UnresolvedAttributeClass   // `a.AttributeClass!.Name` on an attribute whose class is null
    | MissingLifetimeArgument    // `ConstructorArguments[0]` on an attribute without arguments
    | EmptyInterfaceName         // `Substring(1)` on an empty interface name
    | UnsupportedLifetime(value: int)  // NotSupportedException("Service lifetime not supported.")

  const RegisterServiceAttributeName := "RegisterServiceAttribute"
  const OnConstructAttributeName := "OnConstructAttribute"

  /**
   * `GetAttributes().FirstOrDefault(a => a.AttributeClass!.Name == name)`: the scan stops at
   * the first match, and an unresolved attribute class met before it throws.
   */
  function FindAttribute(attributes: seq<AttributeData>, name: string): (r: Result<Option<AttributeData>, TransformError>)
    ensures r.Failure? <==> exists i | 0 <= i < |attributes| :: attributes[i].attributeClass.None?
                              && forall j | 0 <= j < i :: attributes[j].attributeClass != Some(name)
    ensures r.Failure? ==> r.error == UnresolvedAttributeClass
    ensures r == Success(None) <==> forall j | 0 <= j < |attributes| :: attributes[j].attributeClass.Some?
                                                                  && attributes[j].attributeClass != Some(name)
    ensures r.Success? && r.value.Some? ==>
              exists i | 0 <= i < |attributes| :: attributes[i] == r.value.value
                && r.value.value.attributeClass == Some(name)
                && forall j | 0 <= j < i :: attributes[j].attributeClass.Some? && attributes[j].attributeClass != Some(name)
  {
    if |attributes| == 0 then Success(None)
    else match attributes[0].attributeClass
      case None => Failure(UnresolvedAttributeClass)
      case Some(n) =>
        if n == name then Success(Some(attributes[0]))
        else
          var r := FindAttribute(attributes[1..], name);
          assert forall i | 1 <= i <= |attributes[1..]| :: attributes[i] == attributes[1..][i - 1];
          r
  }

  /** When every attribute class resolves, the lookup finds what GetAttribute finds. */
  lemma {:induction false} FindAttributeAgreesWithGetAttribute(attributes: seq<AttributeData>, name: string)
    requires forall j | 0 <= j < |attributes| :: attributes[j].attributeClass.Some?
    ensures FindAttribute(attributes, name) == Success(GetAttribute(attributes, name))
  {
    var r := FindAttribute(attributes, name);
    var g := GetAttribute(attributes, name);
    if g.None? {
      assert r == Success(None);
    } else {
      var i :| 0 <= i < |attributes| && attributes[i] == g.value && g.value.attributeClass == Some(name)
               && forall j | 0 <= j < i :: attributes[j].attributeClass != Some(name);
      assert r.Success? && r.value.Some?;
      var k :| 0 <= k < |attributes| && attributes[k] == r.value.value && r.value.value.attributeClass == Some(name)
               && forall j | 0 <= j < k :: attributes[j].attributeClass.Some? && attributes[j].attributeClass != Some(name);
      assert !(k < i) && !(i < k);
    }
  }

  /** `(int)(attribute?.ConstructorArguments[0].Value ?? 2)`. */
  function LifetimeArgument(attribute: Option<AttributeData>): (r: Result<int, TransformError>)
    ensures attribute.None? ==> r == Success(2)
    ensures attribute.Some? && |attribute.value.constructorArguments| == 0 ==> r == Failure(MissingLifetimeArgument)
    ensures attribute.Some? && |attribute.value.constructorArguments| > 0 ==>
              r == Success(attribute.value.constructorArguments[0].GetOr(2))
  {
    match attribute
    case None => Success(2)
    case Some(a) =>
      if |a.constructorArguments| == 0 then Failure(MissingLifetimeArgument)
      else Success(a.constructorArguments[0].GetOr(2))
  }

  /** The lifetime switch: 0, 1 and 2 name a ServiceLifetime member, anything else throws. */
  function LifetimeName(value: int): (r: Result<string, TransformError>)
    ensures r.Success? <==> 0 <= value <= 2
    ensures r.Failure? ==> r.error == UnsupportedLifetime(value)
  {
    match value
    case 0 => Success("Singleton")
    case 1 => Success("Scoped")
    case 2 => Success("Transient")
    case _ => Failure(UnsupportedLifetime(value))
  }

  /** The ServiceLifetime member's numeric value, the inverse of LifetimeName. */
  function LifetimeValue(name: string): Option<int>
  {
    if name == "Singleton" then Some(0)
    else if name == "Scoped" then Some(1)
    else if name == "Transient" then Some(2)
    else None
  }

  /** LifetimeName and LifetimeValue are inverse: each supported value has its own name. */
  lemma LifetimeRoundTrip(value: int, name: string)
    ensures LifetimeName(value) == Success(name) <==> LifetimeValue(name) == Some(value)
  {
    if LifetimeValue(name) == Some(value) {
      assert LifetimeName(value) == Success(name);
    }
  }

  /** `Lifetime = …` in Transform: a missing attribute or a null argument registers a transient service. */
  function Lifetime(attribute: Option<AttributeData>): (r: Result<string, TransformError>)
    ensures attribute.None? ==> r == Success("Transient")
    ensures r.Success? ==> exists v :: LifetimeName(v) == r && LifetimeArgument(attribute) == Success(v)
  {
    var value :- LifetimeArgument(attribute);
    LifetimeName(value)
  }

  /** `ImplementationType`: the open generic name `Full.Name<>` for a generic type, else the full name. */
  function ImplementationType(definition: ClassDefinition): (r: string)
    ensures !definition.IsGenericType() ==> r == definition.FullName()
    ensures definition.IsGenericType() ==>
              && |r| >= 2 && r[|r| - 2..] == "<>" && r[..|r| - 2] <= definition.FullName() && '<' !in r[..|r| - 2]
              && (|r| - 2 == |definition.FullName()| || definition.FullName()[|r| - 2] == '<')
  {
    if definition.IsGenericType() then definition.FullNameWithoutGenerics() + "<>" else definition.FullName()
  }

  /** The assembly name with '.', ' ' and '_' removed. */
  function SanitizedAssemblyName(assemblyName: string): (r: string)
    ensures forall c :: c in r <==> c in assemblyName && c != '.' && c != ' ' && c != '_'
  {
    Text.RemoveAll(Text.RemoveAll(Text.RemoveAll(assemblyName, '.'), ' '), '_')
  }

  /** Sanitizing twice changes nothing more. */
  lemma SanitizeIdempotent(assemblyName: string)
    ensures SanitizedAssemblyName(SanitizedAssemblyName(assemblyName)) == SanitizedAssemblyName(assemblyName)
  {
    var r := SanitizedAssemblyName(assemblyName);
    Text.RemoveAllAbsent(r, '.');
    Text.RemoveAllAbsent(r, ' ');
    Text.RemoveAllAbsent(r, '_');
  }
}
