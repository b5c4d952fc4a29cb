/**
 * Plain records standing in for the compiler's syntax nodes and symbols: only the
 * properties the generators read are kept.
 */
module Symbols {
  import opened Wrappers

  /** A field or method name: a C# identifier, never empty. */
  type Identifier = s: string | |s| >= 1 witness "_"

  datatype Accessibility =
    | NotApplicable | Private | ProtectedAndInternal | Protected | Internal | ProtectedOrInternal | Public

  /** AttributeData: the attribute class's name (absent when the class is unresolved) and the values of its constructor arguments (absent = null). */
  datatype AttributeData = AttributeData(attributeClass: Option<string>, constructorArguments: seq<Option<int>>)

  /** IFieldSymbol, with whether its declarator has an initializer. */
  datatype FieldSymbol = FieldSymbol(
    name: Identifier,
    typeName: string,
    isReadOnly: bool,
    accessibility: Accessibility,
    isImplicitlyDeclared: bool,
    hasInitializer: bool)

  datatype MethodSymbol = MethodSymbol(name: Identifier, attributes: seq<AttributeData>)

  /** An entry of GetMembers(): a field, a method or some other member. */
  datatype Member = FieldMember(fieldSymbol: FieldSymbol) | MethodMember(methodSymbol: MethodSymbol) | OtherMember

  /** INamedTypeSymbol: `name` is Name, `displayString` is ToDisplayString(). */
  datatype TypeSymbol = TypeSymbol(
    name: string,
    displayString: string,
    containingNamespace: string,
    isGenericType: bool,
    isAbstract: bool,
    attributes: seq<AttributeData>,
    members: seq<Member>,
    baseType: Option<TypeSymbol>,
    allInterfaces: seq<TypeSymbol>)

  /** ClassDeclarationSyntax: the base-list entries' text (absent without a base list) and the attribute lists' attribute-name text. */
  datatype ClassDeclaration = ClassDeclaration(baseList: Option<seq<string>>, attributeLists: seq<seq<string>>)
}
