/**
 * GenericMethodRewriter: the tree rewriter that turns a generic method into one specialization.
 *
 * The walk is written as functions that thread the rewriter's list of recorded type-parameter
 * names through the children in source order, exactly as the visitor appends to that list while
 * it walks. Each function returns the rewritten piece (or None where the visitor deletes it)
 * together with the names recorded after visiting it.
 */
module Rewriting {
  import opened Outcomes
  import opened Syntax

  /** The name of the attribute that triggers specialization. */
  const TriggerName := "SpecializeMethod"

  /** A visit's result and the recorded names after the visit. */
  datatype Visited<T> = Visited(result: T, names: seq<string>)

  predicate IsTrigger(a: Attribute) { a.name == SimpleName(TriggerName) }

  /** The first index of s in names, or -1 (List.IndexOf). */
  function IndexOf(names: seq<string>, s: string): (i: int)
    ensures -1 <= i < |names|
    ensures i == -1 <==> s !in names
    ensures 0 <= i ==> names[i] == s && s !in names[..i]
  {
    if names == [] then -1
    else if names[0] == s then 0
    else
      var j := IndexOf(names[1..], s);
      assert names[1..][..if j < 0 then 0 else j] == names[1..if j < 0 then 1 else j + 1];
      if j == -1 then -1 else j + 1
  }

  /**
   * The replacement for an identifier: the replacement at the first index of its text among the
   * recorded names, provided there is a replacement at that index.
   */
  function ReplaceIdentifier(names: seq<string>, replacements: seq<string>, from: string): (to: Option<string>)
    ensures from !in names ==> to == None
    ensures forall i :: 0 <= i < |names| && names[i] == from && from !in names[..i] ==>
      to == if i < |replacements| then Some(replacements[i]) else None
  {
    var index := IndexOf(names, from);
    if index != -1 && |replacements| > index then Some(replacements[index]) else None
  }

  function VisitIdentifierName(text: string, names: seq<string>, replacements: seq<string>): Node
  {
    match ReplaceIdentifier(names, replacements, text)
    case Some(value) => TypeName(value)
    case None => IdentifierName(text)
  }

  // ----- The walk, threading the recorded names -----

  function VisitNode(n: Node, names: seq<string>, replacements: seq<string>): Visited<Node>
  {
    match n
    case IdentifierName(text) => Visited(VisitIdentifierName(text, names, replacements), names)
    case TypeName(_) => Visited(n, names)
    case Token(_) => Visited(n, names)
    case Composite(kind, children) =>
      var v := VisitChildren(children, names, replacements);
      Visited(Composite(kind, v.result), v.names)
  }

  /** A list of children, visited left to right; deleted children drop out of the list. */
  function VisitChildren(cs: seq<Child>, names: seq<string>, replacements: seq<string>): Visited<seq<Child>>
  {
    if cs == [] then Visited([], names)
    else
      var head := VisitChild(cs[0], names, replacements);
      var tail := VisitChildren(cs[1..], head.names, replacements);
      Visited((if head.result.Some? then [head.result.value] else []) + tail.result, tail.names)
  }

  function VisitChild(c: Child, names: seq<string>, replacements: seq<string>): Visited<Option<Child>>
  {
    match c
    case Element(n) =>
      var v := VisitNode(n, names, replacements);
      Visited(Some(Element(v.result)), v.names)
    case Attributes(l) =>
      var v := VisitAttributeList(l, names, replacements);
      Visited(if v.result.Some? then Some(Attributes(v.result.value)) else None, v.names)
    case TypeParameters(l) =>
      var v := VisitTypeParameterList(l, names);
      Visited(None, v.names)
    case Constraint(clause) =>
      var v := VisitConstraintClause(clause, names);
      Visited(None, v.names)
  }

  /** An attribute list is visited attribute by attribute and deleted when none is left. */
  function VisitAttributeList(l: AttributeList, names: seq<string>, replacements: seq<string>): Visited<Option<AttributeList>>
  {
    var v := VisitAttributes(l.attributes, names, replacements);
    Visited(if |v.result| == 0 then None else Some(AttributeList(v.result)), v.names)
  }

  function VisitAttributes(atts: seq<Attribute>, names: seq<string>, replacements: seq<string>): Visited<seq<Attribute>>
  {
    if atts == [] then Visited([], names)
    else
      var head := VisitAttribute(atts[0], names, replacements);
      var tail := VisitAttributes(atts[1..], head.names, replacements);
      Visited((if head.result.Some? then [head.result.value] else []) + tail.result, tail.names)
  }

  /** The trigger attribute is deleted without being visited; any other has its arguments visited. */
  function VisitAttribute(a: Attribute, names: seq<string>, replacements: seq<string>): Visited<Option<Attribute>>
  {
    if a.name.SimpleName? && a.name.text == TriggerName then Visited(None, names)
    else
      var v := VisitChildren(a.arguments, names, replacements);
      Visited(Some(Attribute(a.name, v.result)), v.names)
  }

  /** A constraint clause is deleted without being visited. */
  function VisitConstraintClause(c: ConstraintClause, names: seq<string>): (v: Visited<Option<ConstraintClause>>)
  {
    Visited(None, names)
  }

  /** A type-parameter list records its parameters' names and is then deleted. */
  function VisitTypeParameterList(l: TypeParameterList, names: seq<string>): (v: Visited<Option<TypeParameterList>>)
    ensures v.result == None && v.names == names + l.parameters
  {
    var ps := VisitTypeParameters(l.parameters, names);
    Visited(None, ps.names)
  }

  /** Each type parameter appends its name to the recorded names. */
  function VisitTypeParameters(ps: seq<string>, names: seq<string>): (v: Visited<seq<string>>)
    ensures v.names == names + ps && v.result == ps
  {
    if ps == [] then Visited([], names)
    else
      var head := VisitTypeParameter(ps[0], names);
      var tail := VisitTypeParameters(ps[1..], head.names);
      assert names + [ps[0]] + ps[1..] == names + ps;
      Visited([head.result] + tail.result, tail.names)
  }

  function VisitTypeParameter(p: string, names: seq<string>): Visited<string>
  {
    Visited(p, names + [p])
  }

  function VisitAttributeLists(ls: seq<AttributeList>, names: seq<string>, replacements: seq<string>): Visited<seq<AttributeList>>
  {
    if ls == [] then Visited([], names)
    else
      var head := VisitAttributeList(ls[0], names, replacements);
      var tail := VisitAttributeLists(ls[1..], head.names, replacements);
      Visited((if head.result.Some? then [head.result.value] else []) + tail.result, tail.names)
  }

  function VisitConstraintClauses(cs: seq<ConstraintClause>, names: seq<string>): (v: Visited<seq<ConstraintClause>>)
    ensures v == Visited([], names)
  {
    if cs == [] then Visited([], names)
    else
      var head := VisitConstraintClause(cs[0], names);
      VisitConstraintClauses(cs[1..], head.names)
  }

  /**
   * A method declaration's parts are visited in source order: attribute lists, modifiers,
   * return type, name, type-parameter list, parameters, constraint clauses, body.
   */
  function VisitMethodDeclaration(m: MethodDeclaration, names: seq<string>, replacements: seq<string>): Visited<MethodDeclaration>
  {
    var attributeLists := VisitAttributeLists(m.attributeLists, names, replacements);
    var returnType := VisitNode(m.returnType, attributeLists.names, replacements);
    var typeParameterList :=
      match m.typeParameterList
      case None => Visited(None, returnType.names)
      case Some(l) => VisitTypeParameterList(l, returnType.names);
    var parameters := VisitChildren(m.parameters, typeParameterList.names, replacements);
    var constraintClauses := VisitConstraintClauses(m.constraintClauses, parameters.names);
    var body := VisitNode(m.body, constraintClauses.names, replacements);
    Visited(
      MethodDeclaration(attributeLists.result, m.modifiers, returnType.result, m.identifier,
                        typeParameterList.result, parameters.result, constraintClauses.result, body.result),
      body.names)
  }

  // ----- The rewriter object -----

  /** The rewriter's state: the names recorded so far and the replacement display strings. */
  class GenericMethodRewriter {
    var genericTypeTokens: seq<string>
    var genericReplacementTokens: seq<string>

    /** Built from the symbols of one tuple: one replacement, the symbol's display string, per symbol. */
    constructor (symbols: seq<TypeId>)
      ensures genericTypeTokens == []
      ensures |genericReplacementTokens| == |symbols|
      ensures forall i :: 0 <= i < |symbols| ==> genericReplacementTokens[i] == ToDisplayString(symbols[i])
    {
      genericTypeTokens := [];
      genericReplacementTokens := [];
      new;
      for i := 0 to |symbols|
        invariant genericTypeTokens == []
        invariant |genericReplacementTokens| == i
        invariant forall j :: 0 <= j < i ==> genericReplacementTokens[j] == ToDisplayString(symbols[j])
      {
        genericReplacementTokens := genericReplacementTokens + [ToDisplayString(symbols[i])];
      }
    }

    /** The neutral rewriter: no replacements, so it only deletes. */
    constructor Neutral()
      ensures genericTypeTokens == [] && genericReplacementTokens == []
    {
      genericTypeTokens := [];
      genericReplacementTokens := [];
    }

    /** Runs the rewriter over a method; the names it records stay in its state. */
    method Accept(m: MethodDeclaration) returns (r: MethodDeclaration)
      modifies this
      ensures genericReplacementTokens == old(genericReplacementTokens)
      ensures Visited(r, genericTypeTokens) == VisitMethodDeclaration(m, old(genericTypeTokens), genericReplacementTokens)
    {
      var v := VisitMethodDeclaration(m, genericTypeTokens, genericReplacementTokens);
      genericTypeTokens := v.names;
      r := v.result;
    }
  }
}
