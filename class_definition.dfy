/** ClassDefinition: names computed from a class symbol (both copies of the helper library are identical). */
module ClassDefinitions {
  import Text
  import opened Symbols

  /** The text before the first '<', or all of it when there is none. */
  function WithoutGenerics(name: string): (r: string)
    ensures r <= name && '<' !in r
    ensures |r| < |name| ==> name[|r|] == '<'
  {
    var index := Text.IndexOf(name, '<');
    if index > -1 then name[..index] else name
  }

  /** The projection is characterised by the two facts above: no other prefix has them. */
  lemma WithoutGenericsUnique(name: string, p: string)
    requires p <= name && '<' !in p
    requires |p| == |name| || name[|p|] == '<'
    ensures p == WithoutGenerics(name)
  {
    var r := WithoutGenerics(name);
    forall k | 0 <= k < |r| ensures name[k] != '<' {
      assert name[k] == r[k];
    }
    forall k | 0 <= k < |p| ensures name[k] != '<' {
      assert name[k] == p[k];
    }
    assert |p| == |r|;
  }

  lemma WithoutGenericsIdempotent(name: string)
    ensures WithoutGenerics(WithoutGenerics(name)) == WithoutGenerics(name)
  {
    var r := WithoutGenerics(name);
    WithoutGenericsUnique(r, r);
  }

  datatype ClassDefinition = ClassDefinition(symbol: TypeSymbol)
  {
    function Namespace(): string { symbol.containingNamespace }

    function Name(): string { symbol.name }

    function FullName(): string { symbol.displayString }

    /** `{FullName}.g.cs`. */
    function FileName(): (f: string)
      ensures |f| == |FullName()| + 5 && f[..|FullName()|] == FullName()
    {
      FullName() + ".g.cs"
    }

    function IsGenericType(): bool { symbol.isGenericType }

    function IsAbstract(): bool { symbol.isAbstract }

    function NameWithoutGenerics(): string { WithoutGenerics(Name()) }

    function FullNameWithoutGenerics(): string { WithoutGenerics(FullName()) }
  }

  /** Classes with different full names get different file names. */
  lemma FileNameInjective(a: ClassDefinition, b: ClassDefinition)
    requires a.FileName() == b.FileName()
    ensures a.FullName() == b.FullName()
  {
    assert a.FileName()[..|a.FullName()|] == a.FullName();
  }

  /** Both projections drop exactly the generic argument list of a generic name. */
  lemma GenericNameProjection(d: ClassDefinition, baseName: string, arguments: string)
    requires '<' !in baseName && d.Name() == baseName + "<" + arguments + ">"
    ensures d.NameWithoutGenerics() == baseName
  {
    WithoutGenericsUnique(d.Name(), baseName);
  }
}
