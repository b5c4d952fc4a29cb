/**
 * The older AttributeHelper: the same attribute source, but the namespace is optional
 * (defaulting to "Anima") and comes after the description.
 */
module LegacyAttributeHelper {
  import opened Wrappers
  import opened SourceGenerationExtensions
  import AttributeHelper

  /** `$"namespace {nameSpace};"`: a null namespace interpolates as the empty string. */
  function NamespaceLine(nameSpace: Option<string>): (line: string)
    ensures nameSpace.None? ==> line == "namespace ;"
    ensures nameSpace.Some? ==> line == AttributeHelper.Header(nameSpace.value)[2]
  {
    "namespace " + nameSpace.GetOr("") + ";"
  }

  /** CreateSourceBuilder of the older helper. */
  function CreateSourceBuilder(attributeName: string, description: Option<string> := None,
                               nameSpace: Option<string> := Some("Anima"),
                               attributeTargets: bv32 := AttributeHelper.All, allowMultiple: bool := false): (lines: seq<string>)
    ensures |lines| == if description.Some? then 9 else 6
    ensures lines[..4] == ["using System;", "", NamespaceLine(nameSpace), ""]
    ensures lines[|lines| - 1] == "internal class " + attributeName + " : Attribute"
  {
    var header := ["using System;", "", NamespaceLine(nameSpace), ""];
    var summary := if description.Some? then AttributeHelper.Summary(description.value) else [];
    var lines := header + summary + [AttributeHelper.Usage(attributeTargets, allowMultiple), "internal class " + attributeName + " : Attribute"];
    assert lines[..4] == header;
    lines
  }

  /** CreateSource of the older helper: the builder's lines closed by "{}". */
  function CreateSource(attributeName: string, description: Option<string> := None,
                        nameSpace: Option<string> := Some("Anima"),
                        attributeTargets: bv32 := AttributeHelper.All, allowMultiple: bool := false): (lines: seq<string>)
    ensures |lines| > 0 && lines[..|lines| - 1] == CreateSourceBuilder(attributeName, description, nameSpace, attributeTargets, allowMultiple)
    ensures lines[|lines| - 1] == "{}"
  {
    var builder := CreateSourceBuilder(attributeName, description, nameSpace, attributeTargets, allowMultiple);
    var lines := builder + ["{}"];
    assert lines[..|builder|] == builder;
    lines
  }

  /** Given a namespace, the older helper writes exactly what the newer one writes. */
  lemma AgreesWithHelper(attributeName: string, description: Option<string>, namespaceName: string,
                         attributeTargets: bv32, allowMultiple: bool)
    ensures CreateSource(attributeName, description, Some(namespaceName), attributeTargets, allowMultiple)
         == AttributeHelper.CreateSource(attributeName, namespaceName, description, attributeTargets, allowMultiple)
  {
    assert ["using System;", "", NamespaceLine(Some(namespaceName)), ""] == AttributeHelper.Header(namespaceName);
  }

  /** Without a namespace, the file is the newer helper's file for the empty namespace. */
  lemma NullNamespaceIsEmpty(attributeName: string, description: Option<string>, attributeTargets: bv32, allowMultiple: bool)
    ensures CreateSource(attributeName, description, None, attributeTargets, allowMultiple)
         == AttributeHelper.CreateSource(attributeName, "", description, attributeTargets, allowMultiple)
  {
    assert ["using System;", "", NamespaceLine(None), ""] == AttributeHelper.Header("");
  }
}
