/**
 * Enumeration<TValue>: named members that each carry a value. Members are objects,
 * compared by reference; the members of one enumeration type form a table that
 * FromValue searches by value.
 */
module Enumeration {
  import opened Wrappers

  /** One member: its runtime type and its immutable value. */
  class Member<V(==)> {
    const typeName: string
    const value: V

    constructor (typeName: string, value: V)
      ensures this.typeName == typeName && this.value == value
    {
      this.typeName := typeName;
      this.value := value;
    }

    /** `obj == this`: reference identity, whatever the values. */
    predicate Equals(obj: Object<V>)
    {
      obj == Enum(this)
    }

    /** ToString() renders the Value, through the value type's own rendering. */
    function ToString(render: V -> string): (s: string)
      ensures s == render(Value())
    {
      render(value)
    }

    /** The implicit conversion to TValue. */
    function Value(): V
    {
      value
    }

    /** CompareTo(obj) up to its last branch, which hands the object to Value.CompareTo. */
    function CompareTo(obj: Object<V>): (r: Comparison<V>)
      ensures obj == Enum(this) ==> r == Ordered(0)
      ensures obj == Null ==> r == Ordered(1)
      ensures r == TypeMismatch <==> obj.Other? || (obj.Enum? && obj.member.typeName != typeName)
      ensures r.Delegated? <==> obj.Enum? && obj.member != this && obj.member.typeName == typeName
    {
      if obj == Enum(this) then Ordered(0)
      else if obj.Null? then Ordered(1)
      else if obj.Other? || obj.member.typeName != typeName then TypeMismatch
      else Delegated(obj.member)
    }
  }

  /**
   * The `object?` a member can be compared or equated with: null, an enumeration
   * member, or an object of some other (non-enumeration) runtime type.
   */
  datatype Object<V(==)> = Null | Enum(member: Member<V>) | Other(otherType: string)

  /**
   * The outcome of CompareTo: an order, the ArgumentException for another runtime
   * type, or the last branch, which defers to the value type's CompareTo.
   */
  datatype Comparison<V(==)> = Ordered(order: int) | TypeMismatch | Delegated(other: Member<V>)

  /** The ArgumentException of FromValue. */
  datatype LookupError = NoMatchingMember

  /**
   * FromValue: the first member of the table (the public static properties, in
   * reflection order) whose value equals the given one.
   */
  function FromValue<V(==)>(table: seq<Member<V>>, value: V): (r: Result<Member<V>, LookupError>)
    ensures r.Failure? <==> forall i | 0 <= i < |table| :: table[i].value != value
    ensures r.Success? ==>
              exists i | 0 <= i < |table| ::
                table[i] == r.value && r.value.value == value && forall j | 0 <= j < i :: table[j].value != value
  {
    if |table| == 0 then Failure(NoMatchingMember)
    else if table[0].value == value then Success(table[0])
    else
      var r := FromValue(table[1..], value);
      if r.Success? then
        ghost var i :| 0 <= i < |table[1..]| && table[1..][i] == r.value && forall j | 0 <= j < i :: table[1..][j].value != value;
        assert table[i + 1] == r.value;
        r
      else r
  }

  /** In a table whose values are distinct, looking up a member's value gives that very member. */
  lemma {:induction false} FromValueFindsMember<V>(table: seq<Member<V>>, k: nat)
    requires k < |table|
    requires forall i, j | 0 <= i < j < |table| :: table[i].value != table[j].value
    ensures FromValue(table, table[k].value) == Success(table[k])
  {
    var r := FromValue(table, table[k].value);
    var i :| 0 <= i < |table| && table[i] == r.value && r.value.value == table[k].value
             && forall j | 0 <= j < i :: table[j].value != table[k].value;
    assert i == k;
  }

  /** Two distinct members are never Equal, even when their values are. */
  lemma EqualsIsIdentity<V>(a: Member<V>, b: Member<V>)
    ensures a.Equals(Enum(b)) <==> a == b
    ensures a.Equals(Enum(b)) ==> a.CompareTo(Enum(b)) == Ordered(0)
  {
  }

  /** The unit-test enumeration: "Two" gives member Two, "Four" throws, and 12 cannot be compared. */
  lemma TestEnumeration(one: Member<string>, two: Member<string>, three: Member<string>)
    requires one.value == "One" && two.value == "Two" && three.value == "Three"
    requires one.typeName == two.typeName == three.typeName == "TestEnumeration"
    ensures FromValue([one, two, three], "Two") == Success(two)
    ensures FromValue([one, two, three], "Four") == Failure(NoMatchingMember)
    ensures one.CompareTo(Other("Int32")) == TypeMismatch
    ensures three.CompareTo(Null) == Ordered(1)
  {
    assert "One" != "Four" && "Two" != "Four" && "Three" != "Four" by {
      assert |"One"| == 3 && |"Two"| == 3 && |"Three"| == 5 && |"Four"| == 4;
    }
    assert "One" != "Two" && "One" != "Three" && "Two" != "Three" by {
      assert "One"[0] == 'O' && "Two"[0] == 'T' && "Three"[0] == 'T';
      assert |"Two"| == 3 && |"Three"| == 5;
    }
    var table := [one, two, three];
    assert forall i | 0 <= i < |table| :: table[i].value != "Four" by {
      assert table[0] == one && table[1] == two && table[2] == three;
    }
    assert FromValue(table, "Four").Failure?;
    assert FromValue(table, "Four").error.NoMatchingMember?;
    FromValueFindsMember(table, 1);
  }
}
