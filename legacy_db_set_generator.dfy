/**
 * The older DbSetGenerator: the root is the first class deriving from DbContext rather than
 * the one marked [GenerateDbSets]; the property list is the same.
 */
module LegacyDbSetGenerator {
  import opened Wrappers
  import opened Sequences
  import opened Symbols
  import opened ClassDefinitions
  import opened SourceGenerationExtensions
  import opened GeneratedSource
  import opened DbSetGenerator

  /** Classes listing exactly `DbContext` as a base, or implementing IEntityTypeConfiguration<T>. */
  function LegacyPredicate(declaration: ClassDeclaration): (b: bool)
    ensures b <==> declaration.baseList.Some?
                   && ("DbContext" in declaration.baseList.value
                       || exists t | t in declaration.baseList.value :: '<' in t && WithoutGenerics(t) == "IEntityTypeConfiguration")
  {
    HasBaseClass(declaration, "DbContext") || HasGenericInterface(declaration, "IEntityTypeConfiguration")
  }

  /** The root is the first definition deriving from DbContext; without one nothing is written. */
  function LegacyGeneratedFiles(definitions: seq<ClassDefinition>, pluralize: string -> string): (files: seq<GeneratedFile>)
    ensures |files| <= 1
    ensures |files| == 0 <==> forall k | 0 <= k < |definitions| :: !IsDbContext(definitions[k])
    ensures |files| == 1 ==>
              exists r | 0 <= r < |definitions| :: IsDbContext(definitions[r])
                && (forall j | 0 <= j < r :: !IsDbContext(definitions[j]))
                && files[0] == ContextFile(definitions[r], definitions, pluralize)
  {
    match FirstIndex(definitions, IsDbContext)
    case None => []
    case Some(r) => [ContextFile(definitions[r], definitions, pluralize)]
  }

  /** The older BuildSource. */
  method LegacyBuildSource(definitions: seq<ClassDefinition>, pluralize: string -> string) returns (files: seq<GeneratedFile>)
    ensures files == LegacyGeneratedFiles(definitions, pluralize)
  {
    var root := FirstIndex(definitions, IsDbContext);
    files := [];
    if root.Some? {
      var dbContext := definitions[root.value];
      var properties := BuildProperties(definitions, pluralize);
      files := [GeneratedFile(dbContext.FileName(), DbSets(dbContext.Namespace(), dbContext.Name(), properties))];
    }
  }

  /** In the older generator the context never lists itself: every property is of a non-context class. */
  lemma RootNeverListed(definitions: seq<ClassDefinition>, pluralize: string -> string)
    requires |LegacyGeneratedFiles(definitions, pluralize)| == 1
    ensures var root := definitions[FirstIndex(definitions, IsDbContext).value];
            root !in Filter(definitions, IsEntity)
            && LegacyGeneratedFiles(definitions, pluralize)[0].hintName == root.FileName()
  {
  }

  /**
   * When the first DbContext is also the first marked class, both generators write the same file.
   */
  lemma AgreesWhenRootsCoincide(definitions: seq<ClassDefinition>, pluralize: string -> string)
    requires FirstIndex(definitions, IsDbContext) == FirstIndex(definitions, IsMarkedContext)
    ensures LegacyGeneratedFiles(definitions, pluralize) == GeneratedFiles(definitions, pluralize)
  {
  }
}
