/**
 * The Extensions helpers of the source-generation library: name matching on syntax,
 * attribute lookup on symbols, field and method filters, ToPropertyName and flag Split.
 * The older copy of the library has the same matching predicates, ToPropertyName, Split
 * and GetAttribute with identical bodies.
 */
module SourceGenerationExtensions {
  import opened Wrappers
  import Text
  import opened Sequences
  import opened Symbols
  import ClassDefinitions

  /** `HasInterface`: some base-list entry is exactly the name; false without a base list. */
  function HasInterface(declaration: ClassDeclaration, interfaceName: string): (b: bool)
    ensures b <==> declaration.baseList.Some? && interfaceName in declaration.baseList.value
  {
    match declaration.baseList
    case None => false
    case Some(types) => Any(types, t => t == interfaceName)
  }

  /** The lambda of HasGenericInterface and HasGenericAttribute: the text before the first '<' is the name. */
  function MatchesGenericName(text: string, name: string): (b: bool)
    ensures b <==> '<' in text && ClassDefinitions.WithoutGenerics(text) == name
  {
    var index := Text.IndexOf(text, '<');
    if index < 0 then false else text[..index] == name
  }

  /** `HasGenericInterface`: some base-list entry has generic arguments and its name before them matches. */
  function HasGenericInterface(declaration: ClassDeclaration, interfaceName: string): (b: bool)
    ensures b <==> declaration.baseList.Some?
                   && exists t | t in declaration.baseList.value :: '<' in t && ClassDefinitions.WithoutGenerics(t) == interfaceName
  {
    match declaration.baseList
    case None => false
    case Some(types) => Any(types, t => MatchesGenericName(t, interfaceName))
  }

  /**
   * A generator's syntax predicate: the class carries the generator's marker attribute written
   * by its short name. The long form (`[RegisterServiceAttribute]`) is not recognised.
   */
  function MarkedWith(declaration: ClassDeclaration, shortName: string): (b: bool)
    ensures b <==> exists l | l in declaration.attributeLists :: shortName in l
    ensures declaration.attributeLists == [[shortName + "Attribute"]] ==> !b
  {
    var b := HasAttribute(declaration, shortName);
    assert declaration.attributeLists == [[shortName + "Attribute"]] ==> !b by {
      assert |shortName + "Attribute"| != |shortName|;
    }
    b
  }

  /** All attributes of all attribute lists, in order. */
  function AttributeNames(declaration: ClassDeclaration): seq<string>
  {
    Flatten(declaration.attributeLists)
  }

  /** `HasAttribute` on syntax: some attribute in some list is written exactly as the name. */
  function HasAttribute(declaration: ClassDeclaration, attributeName: string): (b: bool)
    ensures b <==> exists l | l in declaration.attributeLists :: attributeName in l
  {
    var names := AttributeNames(declaration);
    var r := Any(names, a => a == attributeName);
    assert r ==> exists l | l in declaration.attributeLists :: attributeName in l by {
      if r {
        var k :| 0 <= k < |names| && names[k] == attributeName;
        var i :| 0 <= i < |declaration.attributeLists| && names[k] in declaration.attributeLists[i];
        assert declaration.attributeLists[i] in declaration.attributeLists;
      }
    }
    r
  }

  /** `HasGenericAttribute`: the prefix-before-'<' rule applied to every attribute. */
  function HasGenericAttribute(declaration: ClassDeclaration, attributeName: string): (b: bool)
    ensures b <==> exists l, a | l in declaration.attributeLists && a in l :: '<' in a && ClassDefinitions.WithoutGenerics(a) == attributeName
  {
    var names := AttributeNames(declaration);
    var r := Any(names, a => MatchesGenericName(a, attributeName));
    assert r ==> exists l, a | l in declaration.attributeLists && a in l :: '<' in a && ClassDefinitions.WithoutGenerics(a) == attributeName by {
      if r {
        var k :| 0 <= k < |names| && MatchesGenericName(names[k], attributeName);
        var i :| 0 <= i < |declaration.attributeLists| && names[k] in declaration.attributeLists[i];
        assert declaration.attributeLists[i] in declaration.attributeLists;
      }
    }
    r
  }

  /** `HasAnyAttribute`: the syntax HasAttribute holds for one of the names. */
  function HasAnyAttribute(declaration: ClassDeclaration, attributeNames: seq<string>): (b: bool)
    ensures b <==> exists n | n in attributeNames :: HasAttribute(declaration, n)
  {
    var names := AttributeNames(declaration);
    var r := Any(names, a => Any(attributeNames, n => a == n));
    assert r ==> exists n | n in attributeNames :: HasAttribute(declaration, n) by {
      if r {
        var k :| 0 <= k < |names| && Any(attributeNames, n => names[k] == n);
        var j :| 0 <= j < |attributeNames| && names[k] == attributeNames[j];
        var i :| 0 <= i < |declaration.attributeLists| && names[k] in declaration.attributeLists[i];
        assert declaration.attributeLists[i] in declaration.attributeLists;
        assert HasAttribute(declaration, attributeNames[j]);
      }
    }
    assert (exists n | n in attributeNames :: HasAttribute(declaration, n)) ==> r by {
      if exists n | n in attributeNames :: HasAttribute(declaration, n) {
        var n :| n in attributeNames && HasAttribute(declaration, n);
        var l :| l in declaration.attributeLists && n in l;
        var i :| 0 <= i < |declaration.attributeLists| && declaration.attributeLists[i] == l;
        var j :| 0 <= j < |l| && l[j] == n;
        assert declaration.attributeLists[i][j] in names;
      }
    }
    r
  }

  /** `HasBaseClass`: `BaseList?.Types.Any(…) == true`, the same test as HasInterface. */
  function HasBaseClass(declaration: ClassDeclaration, baseClassName: string): (b: bool)
    ensures b == HasInterface(declaration, baseClassName)
  {
    declaration.baseList.Some? && Any(declaration.baseList.value, t => t == baseClassName)
  }

  /** `HasAttribute` on a symbol: an attribute's class is named exactly `fullAttributeName`. */
  predicate SymbolHasAttribute(attributes: seq<AttributeData>, fullAttributeName: string)
  {
    Any(attributes, (a: AttributeData) => a.attributeClass == Some(fullAttributeName))
  }

  /** `GetAttribute`: the first attribute whose class is named `fullAttributeName`. */
  function GetAttribute(attributes: seq<AttributeData>, fullAttributeName: string): (r: Option<AttributeData>)
    ensures r.Some? ==> exists i | 0 <= i < |attributes| :: attributes[i] == r.value
                          && r.value.attributeClass == Some(fullAttributeName)
                          && forall j | 0 <= j < i :: attributes[j].attributeClass != Some(fullAttributeName)
    ensures r.None? <==> forall j | 0 <= j < |attributes| :: attributes[j].attributeClass != Some(fullAttributeName)
  {
    match FirstIndex(attributes, (a: AttributeData) => a.attributeClass == Some(fullAttributeName))
    case None => None
    case Some(i) => Some(attributes[i])
  }

  /** A symbol has the attribute exactly when GetAttribute finds one. */
  lemma HasAttributeIffGetAttribute(attributes: seq<AttributeData>, fullAttributeName: string)
    ensures SymbolHasAttribute(attributes, fullAttributeName) <==> GetAttribute(attributes, fullAttributeName).Some?
  {
  }

  /** `ToPropertyName`: the second character upper-cased, then the rest after it; fewer than two characters throw. */
  function ToPropertyName(fieldName: string): (r: Option<string>)
    ensures r.None? <==> |fieldName| < 2
    ensures r.Some? ==> |r.value| == |fieldName| - 1
                        && r.value[0] == Text.ToUpperChar(fieldName[1])
                        && r.value[1..] == fieldName[2..]
  {
    if |fieldName| < 2 then None
    else Some([Text.ToUpper(fieldName)[1]] + fieldName[2..])
  }

  lemma PropertyNameExample()
    ensures ToPropertyName("_someValue") == Some("SomeValue")
  {
    var r := ToPropertyName("_someValue");
    assert r.value[0] == Text.ToUpperChar('s') == 'S';
    assert r.value[1..] == "_someValue"[2..] == "omeValue";
    assert r.value == [r.value[0]] + r.value[1..] == "S" + "omeValue";
    assert "S" + "omeValue" == "SomeValue";
  }

  /** An enum member as `Enum.GetValues` lists it: its name and its underlying value. */
  datatype EnumMember = EnumMember(name: string, value: bv32)

  /** `HasFlag`: every bit of the flag is set in the value. */
  predicate HasFlag(value: bv32, flag: bv32)
  {
    value & flag == flag
  }

  /** `Split`: the non-zero members whose flags are all set in `value`, in `Enum.GetValues` order. */
  function Split(value: bv32, members: seq<EnumMember>): (flags: seq<EnumMember>)
    ensures forall i | 0 <= i < |flags| :: flags[i] in members && flags[i].value != 0 && HasFlag(value, flags[i].value)
    ensures forall i | 0 <= i < |members| && members[i].value != 0 && HasFlag(value, members[i].value) :: members[i] in flags
  {
    Filter(members, (f: EnumMember) => f.value != 0 && HasFlag(value, f.value))
  }

  lemma {:induction false} SplitOrder(value: bv32, members: seq<EnumMember>)
    ensures IsSubsequence(Split(value, members), members)
  {
    FilterIsSubsequence(members, (f: EnumMember) => f.value != 0 && HasFlag(value, f.value));
  }

  /** A zero value has no flags. */
  lemma {:induction false} SplitZero(members: seq<EnumMember>)
    ensures Split(0, members) == []
  {
    if |members| > 0 {
      SplitZero(members[1..]);
      assert members[0].value == 0 || !HasFlag(0, members[0].value);
    }
  }

  /** `GetUnassignedPrivateReadonlyFields`' condition. */
  predicate IsUnassignedPrivateReadonly(f: FieldSymbol)
  {
    f.isReadOnly && f.accessibility == Private && !f.isImplicitlyDeclared && !f.hasInitializer
  }

  /** `GetUnassignedPrivateAndProtectedReadonlyFields`' condition. */
  predicate IsUnassignedPrivateOrProtectedReadonly(f: FieldSymbol)
  {
    f.isReadOnly && (f.accessibility == Private || f.accessibility == Protected) && !f.isImplicitlyDeclared && !f.hasInitializer
  }

  /** `OfType<IFieldSymbol>()` over GetMembers(). */
  function FieldsOf(members: seq<Member>): (fields: seq<FieldSymbol>)
    ensures forall i | 0 <= i < |fields| :: FieldMember(fields[i]) in members
    ensures forall i | 0 <= i < |members| && members[i].FieldMember? :: members[i].fieldSymbol in fields
  {
    if |members| == 0 then []
    else match members[0]
      case FieldMember(f) => [f] + FieldsOf(members[1..])
      case _ => FieldsOf(members[1..])
  }

  function GetUnassignedPrivateReadonlyFields(symbol: TypeSymbol): seq<FieldSymbol>
  {
    Filter(FieldsOf(symbol.members), IsUnassignedPrivateReadonly)
  }

  function GetUnassignedPrivateAndProtectedReadonlyFields(symbol: TypeSymbol): seq<FieldSymbol>
  {
    Filter(FieldsOf(symbol.members), IsUnassignedPrivateOrProtectedReadonly)
  }

  /**
   * The private fields are exactly the qualifying fields, in member order, and they are
   * the private+protected ones with the protected ones taken out.
   */
  lemma PrivateFieldsAmongProtected(symbol: TypeSymbol)
    ensures var fields := GetUnassignedPrivateReadonlyFields(symbol);
            && (forall i | 0 <= i < |fields| :: FieldMember(fields[i]) in symbol.members && IsUnassignedPrivateReadonly(fields[i]))
            && (forall m | m in symbol.members && m.FieldMember? && IsUnassignedPrivateReadonly(m.fieldSymbol) :: m.fieldSymbol in fields)
            && IsSubsequence(fields, FieldsOf(symbol.members))
            && IsSubsequence(fields, GetUnassignedPrivateAndProtectedReadonlyFields(symbol))
  {
    var all := FieldsOf(symbol.members);
    FilterIsSubsequence(all, IsUnassignedPrivateReadonly);
    FilterWeaker(all, IsUnassignedPrivateReadonly, IsUnassignedPrivateOrProtectedReadonly);
    forall m | m in symbol.members && m.FieldMember? && IsUnassignedPrivateReadonly(m.fieldSymbol)
      ensures m.fieldSymbol in GetUnassignedPrivateReadonlyFields(symbol)
    {
      var i :| 0 <= i < |symbol.members| && symbol.members[i] == m;
      var k :| 0 <= k < |all| && all[k] == m.fieldSymbol;
    }
  }

  /** A method is marked when its symbol carries the attribute. */
  predicate IsMarked(m: Member, markerAttributeName: string)
  {
    m.MethodMember? && SymbolHasAttribute(m.methodSymbol.attributes, markerAttributeName)
  }

  /** `GetMarkedMethods`: the names of the marked methods, in member order. */
  function GetMarkedMethods(symbol: TypeSymbol, markerAttributeName: string): (names: seq<string>)
    ensures |names| == |Filter(symbol.members, m => IsMarked(m, markerAttributeName))|
    ensures forall i | 0 <= i < |names| :: names[i] == Filter(symbol.members, m => IsMarked(m, markerAttributeName))[i].methodSymbol.name
    ensures forall i | 0 <= i < |names| ::
              exists m | m in symbol.members :: IsMarked(m, markerAttributeName) && m.methodSymbol.name == names[i]
    ensures forall m | m in symbol.members && IsMarked(m, markerAttributeName) :: m.methodSymbol.name in names
  {
    var marked := Filter(symbol.members, m => IsMarked(m, markerAttributeName));
    var names := seq(|marked|, i requires 0 <= i < |marked| => marked[i].methodSymbol.name);
    assert forall m | m in symbol.members && IsMarked(m, markerAttributeName) :: m.methodSymbol.name in names by {
      forall m | m in symbol.members && IsMarked(m, markerAttributeName) ensures m.methodSymbol.name in names {
        var k :| 0 <= k < |symbol.members| && symbol.members[k] == m;
        var j :| 0 <= j < |marked| && marked[j] == m;
        assert names[j] == m.methodSymbol.name;
      }
    }
    names
  }
}
