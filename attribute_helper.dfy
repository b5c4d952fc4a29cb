/** AttributeHelper: the source text of a marker attribute class, as its lines. */
module AttributeHelper {
  import opened Wrappers
  import Text
  import opened Sequences
  import opened SourceGenerationExtensions

  /** System.AttributeTargets in `Enum.GetValues` order (ascending value). */
  const AttributeTargetsMembers: seq<EnumMember> := [
    EnumMember("Assembly", 0x1), EnumMember("Module", 0x2), EnumMember("Class", 0x4), EnumMember("Struct", 0x8),
    EnumMember("Enum", 0x10), EnumMember("Constructor", 0x20), EnumMember("Method", 0x40), EnumMember("Property", 0x80),
    EnumMember("Field", 0x100), EnumMember("Event", 0x200), EnumMember("Interface", 0x400), EnumMember("Parameter", 0x800),
    EnumMember("Delegate", 0x1000), EnumMember("ReturnValue", 0x2000), EnumMember("GenericParameter", 0x4000),
    EnumMember("All", 0x7FFF)]

  const All: bv32 := 32767
  const Class: bv32 := 4
  const Method: bv32 := 64

  /** `bool.ToString().ToLower()`. */
  function BoolText(b: bool): string
  {
    if b then "true" else "false"
  }

  /** `Select(t => $"AttributeTargets.{t}")`. */
  function TargetNames(targets: seq<EnumMember>): (names: seq<string>)
    ensures |names| == |targets|
    ensures forall i | 0 <= i < |names| :: names[i] == "AttributeTargets." + targets[i].name
  {
    if |targets| == 0 then [] else ["AttributeTargets." + targets[0].name] + TargetNames(targets[1..])
  }

  /** `[AttributeUsage({targets joined by " | "}, AllowMultiple = {true|false})]`. */
  function UsageLine(targets: seq<EnumMember>, allowMultiple: bool): (line: string)
    ensures |line| > 0 && line[0] == '['
  {
    "[AttributeUsage(" + Text.Join(TargetNames(targets), " | ") + ", AllowMultiple = " + BoolText(allowMultiple) + ")]"
  }

  /** The usage line for a flags value: the flags it holds, in `Enum.GetValues` order. */
  function Usage(attributeTargets: bv32, allowMultiple: bool): (line: string)
    ensures |line| > 0 && line[0] == '['
  {
    UsageLine(Split(attributeTargets, AttributeTargetsMembers), allowMultiple)
  }

  /** The four header lines. */
  function Header(namespaceName: string): seq<string>
  {
    ["using System;", "", "namespace " + namespaceName + ";", ""]
  }

  /** The XML summary holding the description. */
  function Summary(description: string): seq<string>
  {
    ["/// <summary>", "/// " + description, "/// </summary>"]
  }

  /**
   * CreateSourceBuilder: the header, the summary when a description is given, the usage
   * line, and last the class line that callers continue from.
   */
  function CreateSourceBuilder(attributeName: string, namespaceName: string, description: Option<string> := None,
                               attributeTargets: bv32 := All, allowMultiple: bool := false): (lines: seq<string>)
    ensures |lines| == if description.Some? then 9 else 6
    ensures lines[..4] == Header(namespaceName)
    ensures lines[|lines| - 2] == Usage(attributeTargets, allowMultiple)
    ensures lines[|lines| - 1] == "internal class " + attributeName + " : Attribute"
  {
    var summary := if description.Some? then Summary(description.value) else [];
    var lines := Header(namespaceName) + summary + [Usage(attributeTargets, allowMultiple), "internal class " + attributeName + " : Attribute"];
    assert lines[..4] == Header(namespaceName);
    lines
  }

  /** CreateSource: the builder's lines closed by "{}". */
  function CreateSource(attributeName: string, namespaceName: string, description: Option<string> := None,
                        attributeTargets: bv32 := All, allowMultiple: bool := false): (lines: seq<string>)
    ensures |lines| > 0 && lines[..|lines| - 1] == CreateSourceBuilder(attributeName, namespaceName, description, attributeTargets, allowMultiple)
    ensures lines[|lines| - 1] == "{}"
  {
    var builder := CreateSourceBuilder(attributeName, namespaceName, description, attributeTargets, allowMultiple);
    var lines := builder + ["{}"];
    assert lines[..|builder|] == builder;
    lines
  }

  /** With a description, the summary block follows the header. */
  lemma SummaryAfterHeader(attributeName: string, namespaceName: string, description: string,
                           attributeTargets: bv32, allowMultiple: bool)
    ensures var lines := CreateSourceBuilder(attributeName, namespaceName, Some(description), attributeTargets, allowMultiple);
            lines[4..7] == Summary(description) && "/// <summary>" in lines
  {
    var lines := CreateSourceBuilder(attributeName, namespaceName, Some(description), attributeTargets, allowMultiple);
    assert lines[4] == "/// <summary>";
  }

  /** Without a description, no summary line is written. */
  lemma NoSummaryWithoutDescription(attributeName: string, namespaceName: string, attributeTargets: bv32, allowMultiple: bool)
    ensures "/// <summary>" !in CreateSourceBuilder(attributeName, namespaceName, None, attributeTargets, allowMultiple)
  {
    var usage := Usage(attributeTargets, allowMultiple);
    var classLine := "internal class " + attributeName + " : Attribute";
    HeaderHasNoSlash(namespaceName);
    assert classLine[0] == 'i';
    NoSlashLine(Header(namespaceName), usage, classLine, "/// <summary>");
    assert CreateSourceBuilder(attributeName, namespaceName, None, attributeTargets, allowMultiple)
        == Header(namespaceName) + [usage, classLine];
  }

  /** No line of the header starts with a slash. */
  lemma HeaderHasNoSlash(namespaceName: string)
    ensures forall i | 0 <= i < |Header(namespaceName)| :: |Header(namespaceName)[i]| == 0 || Header(namespaceName)[i][0] != '/'
  {
    var header := Header(namespaceName);
    assert header[0][0] == 'u' && header[2][0] == 'n';
    assert |header[1]| == 0 && |header[3]| == 0;
  }

  lemma NoSlashLine(header: seq<string>, usage: string, classLine: string, line: string)
    requires |line| > 0 && line[0] == '/'
    requires forall i | 0 <= i < |header| :: |header[i]| == 0 || header[i][0] != '/'
    requires |usage| > 0 && usage[0] == '['
    requires |classLine| > 0 && classLine[0] == 'i'
    ensures line !in header + [usage, classLine]
  {
    var lines := header + [usage, classLine];
    assert forall i | 0 <= i < |lines| :: |lines[i]| == 0 || lines[i][0] != '/';
  }

  lemma SplitAll()
    ensures Split(All, AttributeTargetsMembers) == AttributeTargetsMembers
  {
    var p := (f: EnumMember) => f.value != 0 && HasFlag(All, f.value);
    assert forall i | 0 <= i < |AttributeTargetsMembers| :: p(AttributeTargetsMembers[i]);
    FilterAll(AttributeTargetsMembers, p);
  }

  /** A single-flag value lists just that flag. */
  lemma SplitMethod()
    ensures Split(Method, AttributeTargetsMembers) == [EnumMember("Method", 0x40)]
  {
    var p := (f: EnumMember) => f.value != 0 && HasFlag(Method, f.value);
    assert forall i | 0 <= i < |AttributeTargetsMembers| && i != 6 :: !p(AttributeTargetsMembers[i]);
    FilterOnly(AttributeTargetsMembers, p, 6);
  }

  /** The source of a described marker for methods only, such as [OnConstruct]. */
  lemma MethodMarkerSource(attributeName: string, namespaceName: string, description: string)
    ensures CreateSource(attributeName, namespaceName, Some(description), Method)
         == Header(namespaceName) + Summary(description)
            + [UsageLine([EnumMember("Method", 0x40)], false), "internal class " + attributeName + " : Attribute", "{}"]
  {
    SplitMethod();
  }
}
