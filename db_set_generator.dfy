/**
 * DbSetGenerator: the DbContext marked [GenerateDbSets] gets a partial class with one
 * `DbSet<T>` property per collected entity configuration.
 */
module DbSetGenerator {
  import opened Wrappers
  import opened Sequences
  import opened Symbols
  import opened ClassDefinitions
  import opened SourceGenerationExtensions
  import opened GeneratedSource

  const GenerateDbSetsAttributeName := "GenerateDbSetsAttribute"

  /** Classes marked [GenerateDbSets] or implementing IEntityTypeConfiguration<T>. */
  function Predicate(declaration: ClassDeclaration): (b: bool)
    ensures b <==> (exists l | l in declaration.attributeLists :: "GenerateDbSets" in l)
                   || (declaration.baseList.Some?
                       && exists t | t in declaration.baseList.value :: '<' in t && WithoutGenerics(t) == "IEntityTypeConfiguration")
  {
    HasAttribute(declaration, "GenerateDbSets") || HasGenericInterface(declaration, "IEntityTypeConfiguration")
  }

  /** `d.Symbol.BaseType?.Name == "DbContext"`. */
  predicate IsDbContext(d: ClassDefinition)
  {
    d.symbol.baseType.Some? && d.symbol.baseType.value.name == "DbContext"
  }

  predicate IsEntity(d: ClassDefinition) { !IsDbContext(d) }

  predicate IsMarkedContext(d: ClassDefinition)
  {
    SymbolHasAttribute(d.symbol.attributes, GenerateDbSetsAttributeName)
  }

  /** `public DbSet<{FullName}> {Name.Pluralize()} { get; set; }`; Pluralize is a parameter. */
  function PropertyFor(d: ClassDefinition, pluralize: string -> string): DbSetProperty
  {
    DbSetProperty(d.FullName(), pluralize(d.Name()))
  }

  /** One property per definition not based on DbContext, in definition order. */
  function Properties(definitions: seq<ClassDefinition>, pluralize: string -> string): (properties: seq<DbSetProperty>)
    ensures var entities := Filter(definitions, IsEntity);
            |properties| == |entities| && forall k | 0 <= k < |properties| :: properties[k] == PropertyFor(entities[k], pluralize)
  {
    var entities := Filter(definitions, IsEntity);
    seq(|entities|, k requires 0 <= k < |entities| => PropertyFor(entities[k], pluralize))
  }

  /** The foreach that appends the properties. */
  method BuildProperties(definitions: seq<ClassDefinition>, pluralize: string -> string) returns (properties: seq<DbSetProperty>)
    ensures properties == Properties(definitions, pluralize)
  {
    properties := [];
    for i := 0 to |definitions|
      invariant properties == Properties(definitions[..i], pluralize)
    {
      var d := definitions[i];
      assert definitions[..i + 1] == definitions[..i] + [d];
      FilterAppend(definitions[..i], [d], IsEntity);
      assert Filter([d], IsEntity) == if IsEntity(d) then [d] else [];
      if !IsDbContext(d) {
        properties := properties + [PropertyFor(d, pluralize)];
      }
    }
    assert definitions[..|definitions|] == definitions;
  }

  /** The single file written for a context: its partial class, under its own file name. */
  function ContextFile(root: ClassDefinition, definitions: seq<ClassDefinition>, pluralize: string -> string): GeneratedFile
  {
    GeneratedFile(root.FileName(), DbSets(root.Namespace(), root.Name(), Properties(definitions, pluralize)))
  }

  /** The root is the first definition marked [GenerateDbSets]; without one nothing is written. */
  function GeneratedFiles(definitions: seq<ClassDefinition>, pluralize: string -> string): (files: seq<GeneratedFile>)
    ensures |files| <= 1
    ensures |files| == 0 <==> forall k | 0 <= k < |definitions| :: !IsMarkedContext(definitions[k])
    ensures |files| == 1 ==>
              exists r | 0 <= r < |definitions| :: IsMarkedContext(definitions[r])
                && (forall j | 0 <= j < r :: !IsMarkedContext(definitions[j]))
                && files[0] == ContextFile(definitions[r], definitions, pluralize)
  {
    match FirstIndex(definitions, IsMarkedContext)
    case None => []
    case Some(r) => [ContextFile(definitions[r], definitions, pluralize)]
  }

  /** BuildSource. */
  method BuildSource(definitions: seq<ClassDefinition>, pluralize: string -> string) returns (files: seq<GeneratedFile>)
    ensures files == GeneratedFiles(definitions, pluralize)
  {
    var root := FirstIndex(definitions, IsMarkedContext);
    files := [];
    if root.Some? {
      var dbContext := definitions[root.value];
      var properties := BuildProperties(definitions, pluralize);
      files := [GeneratedFile(dbContext.FileName(), DbSets(dbContext.Namespace(), dbContext.Name(), properties))];
    }
  }

  /** A definition, the marked context included, is listed exactly when it does not derive from DbContext. */
  lemma RootListedUnlessDbContext(definitions: seq<ClassDefinition>, r: nat, pluralize: string -> string)
    requires r < |definitions|
    ensures definitions[r] in Filter(definitions, IsEntity) <==> !IsDbContext(definitions[r])
    ensures !IsDbContext(definitions[r]) ==> PropertyFor(definitions[r], pluralize) in Properties(definitions, pluralize)
  {
    var entities := Filter(definitions, IsEntity);
    if !IsDbContext(definitions[r]) {
      assert definitions[r] in entities;
      var k :| 0 <= k < |entities| && entities[k] == definitions[r];
      assert Properties(definitions, pluralize)[k] == PropertyFor(definitions[r], pluralize);
    }
  }
}
