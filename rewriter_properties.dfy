/**
 * What the rewriter's walk does, stated against a two-phase reading of it: a harvest of the
 * type-parameter names a tree declares, and a substitution with a fixed list of names. The
 * stateful walk agrees with the substitution on every tree that declares no type parameters
 * of its own; the lemmas at the end say what that means for a whole method declaration,
 * including that what is visited before the type-parameter list sees no names.
 */
module RewriterProperties {
  import opened Outcomes
  import opened Syntax
  import opened Rewriting

  // ----- Harvest: the type-parameter names a tree declares, in the order the walk meets them -----

  function NamesInNode(n: Node): seq<string>
  {
    match n
    case Composite(_, cs) => NamesInChildren(cs)
    case _ => []
  }

  function NamesInChildren(cs: seq<Child>): seq<string>
  {
    if cs == [] then [] else NamesInChild(cs[0]) + NamesInChildren(cs[1..])
  }

  function NamesInChild(c: Child): seq<string>
  {
    match c
    case Element(n) => NamesInNode(n)
    case Attributes(l) => NamesInAttributeList(l)
    case TypeParameters(l) => l.parameters
    case Constraint(_) => []
  }

  function NamesInAttributeList(l: AttributeList): seq<string>
  {
    NamesInAttributes(l.attributes)
  }

  function NamesInAttributes(atts: seq<Attribute>): seq<string>
  {
    if atts == [] then [] else NamesInAttribute(atts[0]) + NamesInAttributes(atts[1..])
  }

  /** The trigger attribute is deleted unvisited, so nothing inside it is harvested. */
  function NamesInAttribute(a: Attribute): seq<string>
  {
    if IsTrigger(a) then [] else NamesInChildren(a.arguments)
  }

  function NamesInAttributeLists(ls: seq<AttributeList>): seq<string>
  {
    if ls == [] then [] else NamesInAttributeList(ls[0]) + NamesInAttributeLists(ls[1..])
  }

  // ----- Substitution with a fixed list of names -----

  function Substitute(n: Node, names: seq<string>, replacements: seq<string>): Node
  {
    match n
    case IdentifierName(text) => VisitIdentifierName(text, names, replacements)
    case TypeName(_) => n
    case Token(_) => n
    case Composite(kind, cs) => Composite(kind, SubstituteChildren(cs, names, replacements))
  }

  function SubstituteChildren(cs: seq<Child>, names: seq<string>, replacements: seq<string>): seq<Child>
  {
    if cs == [] then []
    else
      var head := SubstituteChild(cs[0], names, replacements);
      (if head.Some? then [head.value] else []) + SubstituteChildren(cs[1..], names, replacements)
  }

  function SubstituteChild(c: Child, names: seq<string>, replacements: seq<string>): Option<Child>
  {
    match c
    case Element(n) => Some(Element(Substitute(n, names, replacements)))
    case Attributes(l) =>
      var r := SubstituteAttributeList(l, names, replacements);
      if r.Some? then Some(Attributes(r.value)) else None
    case TypeParameters(_) => None
    case Constraint(_) => None
  }

  function SubstituteAttributeList(l: AttributeList, names: seq<string>, replacements: seq<string>): Option<AttributeList>
  {
    var atts := SubstituteAttributes(l.attributes, names, replacements);
    if |atts| == 0 then None else Some(AttributeList(atts))
  }

  function SubstituteAttributes(atts: seq<Attribute>, names: seq<string>, replacements: seq<string>): seq<Attribute>
  {
    if atts == [] then []
    else
      var head := SubstituteAttribute(atts[0], names, replacements);
      (if head.Some? then [head.value] else []) + SubstituteAttributes(atts[1..], names, replacements)
  }

  function SubstituteAttribute(a: Attribute, names: seq<string>, replacements: seq<string>): Option<Attribute>
  {
    if IsTrigger(a) then None else Some(Attribute(a.name, SubstituteChildren(a.arguments, names, replacements)))
  }

  function SubstituteAttributeLists(ls: seq<AttributeList>, names: seq<string>, replacements: seq<string>): seq<AttributeList>
  {
    if ls == [] then []
    else
      var head := SubstituteAttributeList(ls[0], names, replacements);
      (if head.Some? then [head.value] else []) + SubstituteAttributeLists(ls[1..], names, replacements)
  }

  // ----- Trees free of generic-only syntax: no trigger, no empty attribute list, no type parameters, no constraints -----

  predicate CleanNode(n: Node)
  {
    match n
    case Composite(_, cs) => CleanChildren(cs)
    case _ => true
  }

  predicate CleanChildren(cs: seq<Child>)
  {
    cs == [] || (CleanChild(cs[0]) && CleanChildren(cs[1..]))
  }

  predicate CleanChild(c: Child)
  {
    match c
    case Element(n) => CleanNode(n)
    case Attributes(l) => CleanAttributeList(l)
    case TypeParameters(_) => false
    case Constraint(_) => false
  }

  predicate CleanAttributeList(l: AttributeList)
  {
    |l.attributes| > 0 && CleanAttributes(l.attributes)
  }

  predicate CleanAttributes(atts: seq<Attribute>)
  {
    atts == [] || (CleanAttribute(atts[0]) && CleanAttributes(atts[1..]))
  }

  predicate CleanAttribute(a: Attribute)
  {
    !IsTrigger(a) && CleanChildren(a.arguments)
  }

  predicate CleanAttributeLists(ls: seq<AttributeList>)
  {
    ls == [] || (CleanAttributeList(ls[0]) && CleanAttributeLists(ls[1..]))
  }

  // ----- The texts of all identifier names in a tree, in source order -----

  function IdsNode(n: Node): seq<string>
  {
    match n
    case IdentifierName(text) => [text]
    case Composite(_, cs) => IdsChildren(cs)
    case _ => []
  }

  function IdsNodes(ns: seq<Node>): seq<string>
  {
    if ns == [] then [] else IdsNode(ns[0]) + IdsNodes(ns[1..])
  }

  function IdsChildren(cs: seq<Child>): seq<string>
  {
    if cs == [] then [] else IdsChild(cs[0]) + IdsChildren(cs[1..])
  }

  function IdsChild(c: Child): seq<string>
  {
    match c
    case Element(n) => IdsNode(n)
    case Attributes(l) => IdsAttributeList(l)
    case TypeParameters(_) => []
    case Constraint(clause) => IdsNodes(clause.constraints)
  }

  function IdsAttributeList(l: AttributeList): seq<string>
  {
    IdsAttributes(l.attributes)
  }

  function IdsAttributes(atts: seq<Attribute>): seq<string>
  {
    if atts == [] then [] else IdsAttribute(atts[0]) + IdsAttributes(atts[1..])
  }

  function IdsAttribute(a: Attribute): seq<string>
  {
    IdsChildren(a.arguments)
  }

  function IdsAttributeLists(ls: seq<AttributeList>): seq<string>
  {
    if ls == [] then [] else IdsAttributeList(ls[0]) + IdsAttributeLists(ls[1..])
  }

  /** No identifier text in ids would be replaced under these names and replacements. */
  predicate NothingToReplace(ids: seq<string>, names: seq<string>, replacements: seq<string>)
  {
    forall t :: t in ids ==> ReplaceIdentifier(names, replacements, t) == None
  }

  // ----- Helpers -----

  /** Appending names never changes a replacement already found: the first index stays put. */
  lemma ReplaceIdentifierPrefix(names: seq<string>, extra: seq<string>, replacements: seq<string>, t: string)
    requires ReplaceIdentifier(names, replacements, t).Some?
    ensures ReplaceIdentifier(names + extra, replacements, t) == ReplaceIdentifier(names, replacements, t)
  {
    var i := IndexOf(names, t);
    assert (names + extra)[..i] == names[..i];
    assert (names + extra)[i] == t;
  }

  lemma NothingToReplacePrefix(ids: seq<string>, names: seq<string>, extra: seq<string>, replacements: seq<string>)
    requires NothingToReplace(ids, names + extra, replacements)
    ensures NothingToReplace(ids, names, replacements)
  {
    forall t | t in ids ensures ReplaceIdentifier(names, replacements, t) == None {
      if ReplaceIdentifier(names, replacements, t).Some? {
        ReplaceIdentifierPrefix(names, extra, replacements, t);
      }
    }
  }

  lemma ConsChildren(x: Child, rest: seq<Child>)
    ensures IdsChildren([x] + rest) == IdsChild(x) + IdsChildren(rest)
    ensures CleanChildren([x] + rest) == (CleanChild(x) && CleanChildren(rest))
  {
    assert ([x] + rest)[0] == x && ([x] + rest)[1..] == rest;
  }

  lemma ConsAttributes(x: Attribute, rest: seq<Attribute>)
    ensures IdsAttributes([x] + rest) == IdsAttribute(x) + IdsAttributes(rest)
    ensures CleanAttributes([x] + rest) == (CleanAttribute(x) && CleanAttributes(rest))
  {
    assert ([x] + rest)[0] == x && ([x] + rest)[1..] == rest;
  }

  lemma ConsAttributeLists(x: AttributeList, rest: seq<AttributeList>)
    ensures IdsAttributeLists([x] + rest) == IdsAttributeList(x) + IdsAttributeLists(rest)
    ensures CleanAttributeLists([x] + rest) == (CleanAttributeList(x) && CleanAttributeLists(rest))
  {
    assert ([x] + rest)[0] == x && ([x] + rest)[1..] == rest;
  }

  lemma NothingToReplaceAppend(a: seq<string>, b: seq<string>, names: seq<string>, replacements: seq<string>)
    ensures NothingToReplace(a + b, names, replacements) <==>
      NothingToReplace(a, names, replacements) && NothingToReplace(b, names, replacements)
  {
    assert forall t :: t in a + b <==> t in a || t in b;
  }

  // ----- The walk against the two phases -----

  /**
   * Visiting a node records exactly the names it declares, leaves nothing generic-only behind,
   * leaves no identifier that the names known at the start would replace, and, when the node
   * declares no type parameters, is the substitution with the names known at the start.
   */
  lemma {:induction false} VisitNodeFacts(n: Node, names: seq<string>, replacements: seq<string>)
    ensures VisitNode(n, names, replacements).names == names + NamesInNode(n)
    ensures CleanNode(VisitNode(n, names, replacements).result)
    ensures NothingToReplace(IdsNode(VisitNode(n, names, replacements).result), names, replacements)
    ensures NamesInNode(n) == [] ==> VisitNode(n, names, replacements).result == Substitute(n, names, replacements)
  {
    match n
    case IdentifierName(text) =>
    case TypeName(_) =>
    case Token(_) =>
    case Composite(kind, cs) => VisitChildrenFacts(cs, names, replacements);
  }

  lemma {:induction false} VisitChildrenFacts(cs: seq<Child>, names: seq<string>, replacements: seq<string>)
    ensures VisitChildren(cs, names, replacements).names == names + NamesInChildren(cs)
    ensures CleanChildren(VisitChildren(cs, names, replacements).result)
    ensures NothingToReplace(IdsChildren(VisitChildren(cs, names, replacements).result), names, replacements)
    ensures NamesInChildren(cs) == [] ==>
      VisitChildren(cs, names, replacements).result == SubstituteChildren(cs, names, replacements)
  {
    if cs != [] {
      var head := VisitChild(cs[0], names, replacements);
      var tail := VisitChildren(cs[1..], head.names, replacements);
      VisitChildFacts(cs[0], names, replacements);
      VisitChildrenFacts(cs[1..], head.names, replacements);
      assert names + NamesInChild(cs[0]) + NamesInChildren(cs[1..]) == names + NamesInChildren(cs);
      NothingToReplacePrefix(IdsChildren(tail.result), names, NamesInChild(cs[0]), replacements);
      if NamesInChildren(cs) == [] {
        assert |NamesInChild(cs[0])| == 0 && NamesInChildren(cs[1..]) == [];
        assert head.names == names;
      }
      if head.result.Some? {
        ConsChildren(head.result.value, tail.result);
        NothingToReplaceAppend(IdsChild(head.result.value), IdsChildren(tail.result), names, replacements);
      } else {
        assert [] + tail.result == tail.result;
      }
    }
  }

  lemma {:induction false} VisitChildFacts(c: Child, names: seq<string>, replacements: seq<string>)
    ensures VisitChild(c, names, replacements).names == names + NamesInChild(c)
    ensures VisitChild(c, names, replacements).result.Some? ==>
      CleanChild(VisitChild(c, names, replacements).result.value) &&
      NothingToReplace(IdsChild(VisitChild(c, names, replacements).result.value), names, replacements)
    ensures NamesInChild(c) == [] ==> VisitChild(c, names, replacements).result == SubstituteChild(c, names, replacements)
  {
    match c
    case Element(n) => VisitNodeFacts(n, names, replacements);
    case Attributes(l) => VisitAttributeListFacts(l, names, replacements);
    case TypeParameters(l) =>
    case Constraint(_) => assert names + [] == names;
  }

  lemma {:induction false} VisitAttributeListFacts(l: AttributeList, names: seq<string>, replacements: seq<string>)
    ensures VisitAttributeList(l, names, replacements).names == names + NamesInAttributeList(l)
    ensures VisitAttributeList(l, names, replacements).result.Some? ==>
      CleanAttributeList(VisitAttributeList(l, names, replacements).result.value) &&
      NothingToReplace(IdsAttributeList(VisitAttributeList(l, names, replacements).result.value), names, replacements)
    ensures NamesInAttributeList(l) == [] ==>
      VisitAttributeList(l, names, replacements).result == SubstituteAttributeList(l, names, replacements)
  {
    VisitAttributesFacts(l.attributes, names, replacements);
  }

  lemma {:induction false} VisitAttributesFacts(atts: seq<Attribute>, names: seq<string>, replacements: seq<string>)
    ensures VisitAttributes(atts, names, replacements).names == names + NamesInAttributes(atts)
    ensures CleanAttributes(VisitAttributes(atts, names, replacements).result)
    ensures NothingToReplace(IdsAttributes(VisitAttributes(atts, names, replacements).result), names, replacements)
    ensures NamesInAttributes(atts) == [] ==>
      VisitAttributes(atts, names, replacements).result == SubstituteAttributes(atts, names, replacements)
  {
    if atts != [] {
      var head := VisitAttribute(atts[0], names, replacements);
      var tail := VisitAttributes(atts[1..], head.names, replacements);
      VisitAttributeFacts(atts[0], names, replacements);
      VisitAttributesFacts(atts[1..], head.names, replacements);
      assert names + NamesInAttribute(atts[0]) + NamesInAttributes(atts[1..]) == names + NamesInAttributes(atts);
      NothingToReplacePrefix(IdsAttributes(tail.result), names, NamesInAttribute(atts[0]), replacements);
      if NamesInAttributes(atts) == [] {
        assert |NamesInAttribute(atts[0])| == 0 && NamesInAttributes(atts[1..]) == [];
        assert head.names == names;
      }
      if head.result.Some? {
        ConsAttributes(head.result.value, tail.result);
        NothingToReplaceAppend(IdsAttribute(head.result.value), IdsAttributes(tail.result), names, replacements);
      } else {
        assert [] + tail.result == tail.result;
      }
    }
  }

  lemma {:induction false} VisitAttributeFacts(a: Attribute, names: seq<string>, replacements: seq<string>)
    ensures VisitAttribute(a, names, replacements).names == names + NamesInAttribute(a)
    ensures VisitAttribute(a, names, replacements).result.Some? ==>
      CleanAttribute(VisitAttribute(a, names, replacements).result.value) &&
      NothingToReplace(IdsAttribute(VisitAttribute(a, names, replacements).result.value), names, replacements)
    ensures NamesInAttribute(a) == [] ==>
      VisitAttribute(a, names, replacements).result == SubstituteAttribute(a, names, replacements)
  {
    if !IsTrigger(a) {
      VisitChildrenFacts(a.arguments, names, replacements);
    } else {
      assert names + [] == names;
    }
  }

  lemma {:induction false} VisitAttributeListsFacts(ls: seq<AttributeList>, names: seq<string>, replacements: seq<string>)
    ensures VisitAttributeLists(ls, names, replacements).names == names + NamesInAttributeLists(ls)
    ensures CleanAttributeLists(VisitAttributeLists(ls, names, replacements).result)
    ensures NothingToReplace(IdsAttributeLists(VisitAttributeLists(ls, names, replacements).result), names, replacements)
    ensures NamesInAttributeLists(ls) == [] ==>
      VisitAttributeLists(ls, names, replacements).result == SubstituteAttributeLists(ls, names, replacements)
  {
    if ls != [] {
      var head := VisitAttributeList(ls[0], names, replacements);
      var tail := VisitAttributeLists(ls[1..], head.names, replacements);
      VisitAttributeListFacts(ls[0], names, replacements);
      VisitAttributeListsFacts(ls[1..], head.names, replacements);
      assert names + NamesInAttributeList(ls[0]) + NamesInAttributeLists(ls[1..]) == names + NamesInAttributeLists(ls);
      NothingToReplacePrefix(IdsAttributeLists(tail.result), names, NamesInAttributeList(ls[0]), replacements);
      if NamesInAttributeLists(ls) == [] {
        assert |NamesInAttributeList(ls[0])| == 0 && NamesInAttributeLists(ls[1..]) == [];
        assert head.names == names;
      }
      if head.result.Some? {
        ConsAttributeLists(head.result.value, tail.result);
        NothingToReplaceAppend(IdsAttributeList(head.result.value), IdsAttributeLists(tail.result), names, replacements);
      } else {
        assert [] + tail.result == tail.result;
      }
    }
  }

  // ----- Substitution leaves alone what it has nothing to do to -----

  /** A tree free of generic-only syntax in which no identifier would be replaced is its own substitution. */
  lemma {:induction false} SubstituteIdentity(n: Node, names: seq<string>, replacements: seq<string>)
    requires CleanNode(n) && NothingToReplace(IdsNode(n), names, replacements)
    ensures Substitute(n, names, replacements) == n
  {
    match n
    case IdentifierName(text) =>
      assert text in IdsNode(n);
    case TypeName(_) =>
    case Token(_) =>
    case Composite(kind, cs) => SubstituteChildrenIdentity(cs, names, replacements);
  }

  lemma {:induction false} SubstituteChildrenIdentity(cs: seq<Child>, names: seq<string>, replacements: seq<string>)
    requires CleanChildren(cs) && NothingToReplace(IdsChildren(cs), names, replacements)
    ensures SubstituteChildren(cs, names, replacements) == cs
  {
    if cs != [] {
      NothingToReplaceAppend(IdsChild(cs[0]), IdsChildren(cs[1..]), names, replacements);
      SubstituteChildIdentity(cs[0], names, replacements);
      SubstituteChildrenIdentity(cs[1..], names, replacements);
      assert [cs[0]] + cs[1..] == cs;
    }
  }

  lemma {:induction false} SubstituteChildIdentity(c: Child, names: seq<string>, replacements: seq<string>)
    requires CleanChild(c) && NothingToReplace(IdsChild(c), names, replacements)
    ensures SubstituteChild(c, names, replacements) == Some(c)
  {
    match c
    case Element(n) => SubstituteIdentity(n, names, replacements);
    case Attributes(l) => SubstituteAttributeListIdentity(l, names, replacements);
  }

  lemma {:induction false} SubstituteAttributeListIdentity(l: AttributeList, names: seq<string>, replacements: seq<string>)
    requires CleanAttributeList(l) && NothingToReplace(IdsAttributeList(l), names, replacements)
    ensures SubstituteAttributeList(l, names, replacements) == Some(l)
  {
    SubstituteAttributesIdentity(l.attributes, names, replacements);
  }

  lemma {:induction false} SubstituteAttributesIdentity(atts: seq<Attribute>, names: seq<string>, replacements: seq<string>)
    requires CleanAttributes(atts) && NothingToReplace(IdsAttributes(atts), names, replacements)
    ensures SubstituteAttributes(atts, names, replacements) == atts
  {
    if atts != [] {
      NothingToReplaceAppend(IdsAttribute(atts[0]), IdsAttributes(atts[1..]), names, replacements);
      SubstituteChildrenIdentity(atts[0].arguments, names, replacements);
      SubstituteAttributesIdentity(atts[1..], names, replacements);
      assert [atts[0]] + atts[1..] == atts;
    }
  }

  lemma {:induction false} SubstituteAttributeListsIdentity(ls: seq<AttributeList>, names: seq<string>, replacements: seq<string>)
    requires CleanAttributeLists(ls) && NothingToReplace(IdsAttributeLists(ls), names, replacements)
    ensures SubstituteAttributeLists(ls, names, replacements) == ls
  {
    if ls != [] {
      NothingToReplaceAppend(IdsAttributeList(ls[0]), IdsAttributeLists(ls[1..]), names, replacements);
      SubstituteAttributeListIdentity(ls[0], names, replacements);
      SubstituteAttributeListsIdentity(ls[1..], names, replacements);
      assert [ls[0]] + ls[1..] == ls;
    }
  }

  /** With no names recorded, or with no replacements, no identifier is replaced. */
  lemma NothingToReplaceTrivially(ids: seq<string>, names: seq<string>, replacements: seq<string>)
    requires names == [] || replacements == []
    ensures NothingToReplace(ids, names, replacements)
  {
    forall t | t in ids ensures ReplaceIdentifier(names, replacements, t) == None {
      if t in names {
        var i := IndexOf(names, t);
      }
    }
  }

  // ----- Attributes -----

  /** The attributes that are not the trigger, in order. */
  function NonTriggers(atts: seq<Attribute>): seq<Attribute>
  {
    if atts == [] then []
    else (if IsTrigger(atts[0]) then [] else [atts[0]]) + NonTriggers(atts[1..])
  }

  /**
   * Exactly the trigger attributes are removed: the attributes that remain are the others, in
   * order and with their names, so a list is left empty, and deleted, exactly when every
   * attribute in it is the trigger.
   */
  lemma {:induction false} VisitAttributesKeepsNonTriggers(atts: seq<Attribute>, names: seq<string>, replacements: seq<string>)
    ensures |VisitAttributes(atts, names, replacements).result| == |NonTriggers(atts)|
    ensures forall i :: 0 <= i < |NonTriggers(atts)| ==>
      VisitAttributes(atts, names, replacements).result[i].name == NonTriggers(atts)[i].name
    ensures |NonTriggers(atts)| == 0 <==> forall i :: 0 <= i < |atts| ==> IsTrigger(atts[i])
  {
    if atts != [] {
      var head := VisitAttribute(atts[0], names, replacements);
      VisitAttributesKeepsNonTriggers(atts[1..], head.names, replacements);
      if !IsTrigger(atts[0]) {
        assert NonTriggers(atts)[0] == atts[0];
      } else {
        assert forall i :: 1 <= i < |atts| ==> atts[1..][i - 1] == atts[i];
      }
    }
  }

  lemma VisitAttributeListDeletion(l: AttributeList, names: seq<string>, replacements: seq<string>)
    ensures VisitAttributeList(l, names, replacements).result == None <==>
      forall i :: 0 <= i < |l.attributes| ==> IsTrigger(l.attributes[i])
  {
    VisitAttributesKeepsNonTriggers(l.attributes, names, replacements);
  }

  // ----- Identifiers -----

  /**
   * An identifier becomes the replacement at the first index of its text among the recorded
   * names, as a type name, when there is a replacement at that index; otherwise it is kept.
   * Visiting it records nothing.
   */
  lemma VisitIdentifier(text: string, names: seq<string>, replacements: seq<string>)
    ensures VisitNode(IdentifierName(text), names, replacements).names == names
    ensures text !in names ==> VisitNode(IdentifierName(text), names, replacements).result == IdentifierName(text)
    ensures forall i :: 0 <= i < |names| && names[i] == text && text !in names[..i] ==>
      VisitNode(IdentifierName(text), names, replacements).result ==
        if i < |replacements| then TypeName(replacements[i]) else IdentifierName(text)
  {
  }

  // ----- Whole method declarations -----

  /** The names the method's own type-parameter list declares. */
  function TypeParameterNames(m: MethodDeclaration): seq<string>
  {
    match m.typeParameterList
    case None => []
    case Some(l) => l.parameters
  }

  /** The method declares type parameters only in its own type-parameter list. */
  predicate DeclaresTypeParametersOnlyAtTop(m: MethodDeclaration)
  {
    NamesInAttributeLists(m.attributeLists) == [] && NamesInNode(m.returnType) == [] &&
    NamesInChildren(m.parameters) == [] && NamesInNode(m.body) == []
  }

  /**
   * Rewriting any method: the names are recorded in the order the walk meets them (the method's
   * own type parameters after whatever the attribute lists and return type declare); the result
   * has no type-parameter list, no constraint clause, no trigger, no empty attribute list and
   * no nested generic-only syntax; and no identifier in the parameters or body is left that
   * the names known when they are visited would replace.
   */
  lemma VisitMethodFacts(m: MethodDeclaration, names: seq<string>, replacements: seq<string>)
    ensures var v := VisitMethodDeclaration(m, names, replacements);
      var before := names + NamesInAttributeLists(m.attributeLists) + NamesInNode(m.returnType);
      v.names == before + TypeParameterNames(m) + NamesInChildren(m.parameters) + NamesInNode(m.body) &&
      v.result.typeParameterList == None && v.result.constraintClauses == [] &&
      v.result.modifiers == m.modifiers && v.result.identifier == m.identifier &&
      CleanAttributeLists(v.result.attributeLists) && CleanNode(v.result.returnType) &&
      CleanChildren(v.result.parameters) && CleanNode(v.result.body) &&
      NothingToReplace(IdsChildren(v.result.parameters), before + TypeParameterNames(m), replacements) &&
      NothingToReplace(IdsNode(v.result.body), before + TypeParameterNames(m) + NamesInChildren(m.parameters), replacements)
  {
    var attributeLists := VisitAttributeLists(m.attributeLists, names, replacements);
    VisitAttributeListsFacts(m.attributeLists, names, replacements);
    var returnType := VisitNode(m.returnType, attributeLists.names, replacements);
    VisitNodeFacts(m.returnType, attributeLists.names, replacements);
    var before := names + NamesInAttributeLists(m.attributeLists) + NamesInNode(m.returnType);
    var typeParameterList :=
      match m.typeParameterList
      case None => Visited(None, returnType.names)
      case Some(l) => VisitTypeParameterList(l, returnType.names);
    assert typeParameterList.names == before + TypeParameterNames(m) by {
      if m.typeParameterList.None? {
        assert before + [] == before;
      }
    }
    VisitChildrenFacts(m.parameters, before + TypeParameterNames(m), replacements);
    var afterParameters := before + TypeParameterNames(m) + NamesInChildren(m.parameters);
    VisitNodeFacts(m.body, afterParameters, replacements);
  }

  /**
   * For a method that declares type parameters only in its own list, the walk is the two-phase
   * rewrite: everything before the type-parameter list is substituted with the names known at
   * the start, everything after it with those names followed by the method's type parameters.
   */
  lemma RewriteMethodTwoPhase(m: MethodDeclaration, names: seq<string>, replacements: seq<string>)
    requires DeclaresTypeParametersOnlyAtTop(m)
    ensures VisitMethodDeclaration(m, names, replacements) ==
      Visited(
        MethodDeclaration(
          SubstituteAttributeLists(m.attributeLists, names, replacements), m.modifiers,
          Substitute(m.returnType, names, replacements), m.identifier, None,
          SubstituteChildren(m.parameters, names + TypeParameterNames(m), replacements), [],
          Substitute(m.body, names + TypeParameterNames(m), replacements)),
        names + TypeParameterNames(m))
  {
    var inner := names + TypeParameterNames(m);
    VisitAttributeListsFacts(m.attributeLists, names, replacements);
    assert names + [] == names;
    var returnType := VisitNode(m.returnType, names, replacements);
    VisitNodeFacts(m.returnType, names, replacements);
    var typeParameterList :=
      match m.typeParameterList
      case None => Visited(None, returnType.names)
      case Some(l) => VisitTypeParameterList(l, returnType.names);
    assert typeParameterList.names == inner by {
      if m.typeParameterList.None? {
        assert names + [] == names;
      }
    }
    VisitChildrenFacts(m.parameters, inner, replacements);
    assert inner + [] == inner;
    VisitNodeFacts(m.body, inner, replacements);
  }

  /**
   * A fresh rewriter has recorded nothing when it reaches the return type, so a return type
   * free of generic-only syntax comes out unchanged even when it names a type parameter.
   */
  lemma FreshRewriterKeepsReturnType(m: MethodDeclaration, replacements: seq<string>)
    requires NamesInAttributeLists(m.attributeLists) == [] && CleanNode(m.returnType)
    ensures VisitMethodDeclaration(m, [], replacements).result.returnType == m.returnType
  {
    VisitAttributeListsFacts(m.attributeLists, [], replacements);
    VisitNodeFacts(m.returnType, [], replacements);
    CleanHasNoNames(m.returnType);
    NothingToReplaceTrivially(IdsNode(m.returnType), [], replacements);
    SubstituteIdentity(m.returnType, [], replacements);
  }

  /**
   * The neutral rewriter substitutes nothing, whatever the method and whatever it has recorded:
   * its result is the deletion-only substitution (no names, no replacements) of every part, so
   * the trigger attributes, emptied attribute lists, type-parameter lists and constraint clauses
   * still go, at the top and nested alike; parts free of generic-only syntax come out unchanged.
   */
  lemma NeutralRewriterOnlyDeletes(m: MethodDeclaration, names: seq<string>)
    ensures VisitMethodDeclaration(m, names, []).result ==
      MethodDeclaration(
        SubstituteAttributeLists(m.attributeLists, [], []), m.modifiers,
        Substitute(m.returnType, [], []), m.identifier, None,
        SubstituteChildren(m.parameters, [], []), [],
        Substitute(m.body, [], []))
    ensures (CleanAttributeLists(m.attributeLists) && CleanNode(m.returnType) &&
             CleanChildren(m.parameters) && CleanNode(m.body)) ==>
      VisitMethodDeclaration(m, names, []).result ==
        MethodDeclaration(m.attributeLists, m.modifiers, m.returnType, m.identifier, None, m.parameters, [], m.body)
  {
    var attributeLists := VisitAttributeLists(m.attributeLists, names, []);
    NeutralVisitAttributeLists(m.attributeLists, names);
    var returnType := VisitNode(m.returnType, attributeLists.names, []);
    NeutralVisitNode(m.returnType, attributeLists.names);
    var typeParameterList :=
      match m.typeParameterList
      case None => Visited(None, returnType.names)
      case Some(l) => VisitTypeParameterList(l, returnType.names);
    var parameters := VisitChildren(m.parameters, typeParameterList.names, []);
    NeutralVisitChildren(m.parameters, typeParameterList.names);
    var constraintClauses := VisitConstraintClauses(m.constraintClauses, parameters.names);
    NeutralVisitNode(m.body, constraintClauses.names);
    if CleanAttributeLists(m.attributeLists) && CleanNode(m.returnType) && CleanChildren(m.parameters) && CleanNode(m.body) {
      NothingToReplaceTrivially(IdsAttributeLists(m.attributeLists), [], []);
      NothingToReplaceTrivially(IdsNode(m.returnType), [], []);
      NothingToReplaceTrivially(IdsChildren(m.parameters), [], []);
      NothingToReplaceTrivially(IdsNode(m.body), [], []);
      SubstituteAttributeListsIdentity(m.attributeLists, [], []);
      SubstituteIdentity(m.returnType, [], []);
      SubstituteChildrenIdentity(m.parameters, [], []);
      SubstituteIdentity(m.body, [], []);
    }
  }

  // ----- With no replacements the recorded names do not matter -----

  /** Without replacements, the walk of a node is its deletion-only substitution, whatever names it starts with. */
  lemma {:induction false} NeutralVisitNode(n: Node, names: seq<string>)
    ensures VisitNode(n, names, []).result == Substitute(n, [], [])
  {
    match n
    case IdentifierName(text) =>
    case TypeName(_) =>
    case Token(_) =>
    case Composite(kind, cs) => NeutralVisitChildren(cs, names);
  }

  lemma {:induction false} NeutralVisitChildren(cs: seq<Child>, names: seq<string>)
    ensures VisitChildren(cs, names, []).result == SubstituteChildren(cs, [], [])
  {
    if cs != [] {
      var head := VisitChild(cs[0], names, []);
      NeutralVisitChild(cs[0], names);
      NeutralVisitChildren(cs[1..], head.names);
    }
  }

  lemma {:induction false} NeutralVisitChild(c: Child, names: seq<string>)
    ensures VisitChild(c, names, []).result == SubstituteChild(c, [], [])
  {
    match c
    case Element(n) => NeutralVisitNode(n, names);
    case Attributes(l) => NeutralVisitAttributes(l.attributes, names);
    case TypeParameters(_) =>
    case Constraint(_) =>
  }

  lemma {:induction false} NeutralVisitAttributes(atts: seq<Attribute>, names: seq<string>)
    ensures VisitAttributes(atts, names, []).result == SubstituteAttributes(atts, [], [])
  {
    if atts != [] {
      var head := VisitAttribute(atts[0], names, []);
      if !IsTrigger(atts[0]) {
        NeutralVisitChildren(atts[0].arguments, names);
      }
      NeutralVisitAttributes(atts[1..], head.names);
    }
  }

  lemma {:induction false} NeutralVisitAttributeLists(ls: seq<AttributeList>, names: seq<string>)
    ensures VisitAttributeLists(ls, names, []).result == SubstituteAttributeLists(ls, [], [])
  {
    if ls != [] {
      var head := VisitAttributeList(ls[0], names, []);
      NeutralVisitAttributes(ls[0].attributes, names);
      NeutralVisitAttributeLists(ls[1..], head.names);
    }
  }

  // ----- A tree free of generic-only syntax declares no type parameters -----

  lemma {:induction false} CleanHasNoNames(n: Node)
    requires CleanNode(n)
    ensures NamesInNode(n) == []
  {
    if n.Composite? {
      CleanChildrenHaveNoNames(n.children);
    }
  }

  lemma {:induction false} CleanChildrenHaveNoNames(cs: seq<Child>)
    requires CleanChildren(cs)
    ensures NamesInChildren(cs) == []
  {
    if cs != [] {
      CleanChildHasNoNames(cs[0]);
      CleanChildrenHaveNoNames(cs[1..]);
    }
  }

  lemma {:induction false} CleanChildHasNoNames(c: Child)
    requires CleanChild(c)
    ensures NamesInChild(c) == []
  {
    match c
    case Element(n) => CleanHasNoNames(n);
    case Attributes(l) => CleanAttributesHaveNoNames(l.attributes);
  }

  lemma {:induction false} CleanAttributesHaveNoNames(atts: seq<Attribute>)
    requires CleanAttributes(atts)
    ensures NamesInAttributes(atts) == []
  {
    if atts != [] {
      CleanChildrenHaveNoNames(atts[0].arguments);
      CleanAttributesHaveNoNames(atts[1..]);
    }
  }

  lemma {:induction false} CleanListsHaveNoNames(ls: seq<AttributeList>)
    requires CleanAttributeLists(ls)
    ensures NamesInAttributeLists(ls) == []
  {
    if ls != [] {
      CleanAttributesHaveNoNames(ls[0].attributes);
      CleanListsHaveNoNames(ls[1..]);
    }
  }
}
