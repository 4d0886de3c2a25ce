/**
 * What SpecializeMethodCodeGen generates, stated against the cartesian power of the candidates:
 * the error outcomes in the order the generator meets them, one copy per tuple in lexicographic
 * order when every candidate resolved, and the shape of every copy.
 */
module GenerationProperties {
  import opened Outcomes
  import opened Syntax
  import opened Extensions
  import opened Combinations
  import opened Rewriting
  import opened RewriterProperties
  import opened Specialization

  // ----- Specialize over a list of tuples -----

  lemma {:induction false} SpecializeAll(items: seq<seq<Symbol>>, token: FirstToken, m: MethodDeclaration)
    requires forall j :: 0 <= j < |items| ==> Resolved(items[j]).Some?
    ensures Specialize(items, token, m, false).Success?
    ensures |Specialize(items, token, m, false).value| == |items|
    ensures forall j :: 0 <= j < |items| ==>
      Specialize(items, token, m, false).value[j] == MemberDeclaration(CopiedTrivia(token), Rewrite(m, Resolved(items[j]).value))
  {
    if items != [] {
      SpecializeAll(items[1..], token, m);
      var rest := Specialize(items[1..], token, m, false).value;
      var head := MemberDeclaration(CopiedTrivia(token), Rewrite(m, Resolved(items[0]).value));
      assert Specialize(items, token, m, false).value == [head] + rest;
      forall j | 0 < j < |items|
        ensures ([head] + rest)[j] == MemberDeclaration(CopiedTrivia(token), Rewrite(m, Resolved(items[j]).value))
      {
        assert items[1..][j - 1] == items[j];
      }
    }
  }

  lemma {:induction false} SpecializeUnresolved(items: seq<seq<Symbol>>, token: FirstToken, m: MethodDeclaration, j: nat)
    requires j < |items| && Resolved(items[j]).None?
    ensures Specialize(items, token, m, false) == Failure(NullReferenceException)
  {
    var ts := Resolved(items[0]);
    if ts.Some? {
      assert j > 0 && items[1..][j - 1] == items[j];
      SpecializeUnresolved(items[1..], token, m, j - 1);
      var rest := Specialize(items[1..], token, m, false);
      assert Specialize(items, token, m, false) ==
        Prepend([MemberDeclaration(CopiedTrivia(token), Rewrite(m, ts.value))], rest);
    }
  }

  /** Every copy, however many there are, has the same shape. */
  lemma {:induction false} SpecializeShape(items: seq<seq<Symbol>>, token: FirstToken, m: MethodDeclaration, cancelled: bool)
    requires Specialize(items, token, m, cancelled).Success?
    ensures forall d :: d in Specialize(items, token, m, cancelled).value ==>
      d.leadingTrivia == CopiedTrivia(token) && exists ts :: d.declaration == Rewrite(m, ts)
  {
    if items != [] {
      var ts := Resolved(items[0]).value;
      SpecializeShape(items[1..], token, m, cancelled);
      assert Specialize(items, token, m, cancelled).value ==
        [MemberDeclaration(CopiedTrivia(token), Rewrite(m, ts))] + Specialize(items[1..], token, m, cancelled).value;
    }
  }

  /** Every tuple of the power of a fully resolved candidate list resolves. */
  lemma PowerResolves(types: seq<Symbol>, k: nat, j: nat)
    requires forall i :: 0 <= i < |types| ==> types[i].Some?
    requires j < |CartesianPower(types, k)|
    ensures Resolved(CartesianPower(types, k)[j]).Some?
  {
    if |types| == 0 {
      CartesianPowerShape(types, k);
      assert CartesianPower(types, k)[j] in CartesianPower(types, k);
    } else {
      CartesianPowerAt(types, k, j);
    }
  }

  /** With candidate i unresolved, the tuple that starts with it is candidate i's turn at position 0. */
  lemma UnresolvedTuple(types: seq<Symbol>, k: nat, i: nat)
    requires k >= 1 && i < |types| && types[i].None?
    ensures exists j :: 0 <= j < |CartesianPower(types, k)| && Resolved(CartesianPower(types, k)[j]).None?
  {
    var j := FirstPositionIndex(i, |types|, k);
    CartesianPowerShape(types, k);
    CartesianPowerAt(types, k, j);
    assert CartesianPower(types, k)[j][0].None?;
  }

  /** The number of the first tuple whose first position is candidate i. */
  lemma FirstPositionIndex(i: nat, m: nat, k: nat) returns (j: nat)
    requires k >= 1 && i < m
    ensures j < Pow(m, k) && Digits(j, m, k)[0] == i
  {
    var P := Pow(m, k - 1);
    PowPositive(m, k - 1);
    j := i * P;
    MulMono(i + 1, m, P);
    MulSucc(i, P);
    DivUnique(j, P, i, 0);
  }

  // ----- Generate -----

  /**
   * The outcomes other than success with copies, in the order the generator meets them:
   * a node that is not a method gives nothing; a method without a type-parameter list fails on
   * the null list; arity 0 fails in Partition; no candidates give nothing; a cancelled request
   * fails before the first copy; an unresolved candidate fails when its first tuple is reached.
   */
  lemma GenerateOutcomes(types: seq<Symbol>, node: ProcessingNode, cancelled: bool)
    ensures node.OtherNode? ==> Generate(types, node, cancelled) == Success([])
    ensures node.MethodNode? && node.declaration.typeParameterList.None? ==>
      Generate(types, node, cancelled) == Failure(NullReferenceException)
    ensures node.MethodNode? && node.declaration.typeParameterList == Some(TypeParameterList([])) ==>
      Generate(types, node, cancelled) == Failure(ArgumentException("partitionSize"))
    ensures node.MethodNode? && node.declaration.typeParameterList.Some? ==>
      var arity := |node.declaration.typeParameterList.value.parameters|;
      (arity >= 1 && |types| == 0 ==> Generate(types, node, cancelled) == Success([])) &&
      (arity >= 1 && |types| > 0 && cancelled ==> Generate(types, node, cancelled) == Failure(OperationCanceledException)) &&
      (arity >= 1 && !cancelled && (exists i :: 0 <= i < |types| && types[i].None?) ==>
        Generate(types, node, cancelled) == Failure(NullReferenceException))
  {
    if node.MethodNode? && node.declaration.typeParameterList.Some? {
      var arity := |node.declaration.typeParameterList.value.parameters|;
      TypeCombinationsArePower(types, arity);
      if arity >= 1 {
        var tuples := CartesianPower(types, arity);
        CartesianPowerShape(types, arity);
        if |types| > 0 {
          PowPositive(|types|, arity);
        }
        if !cancelled && exists i :: 0 <= i < |types| && types[i].None? {
          var i :| 0 <= i < |types| && types[i].None?;
          UnresolvedTuple(types, arity, i);
          var j :| 0 <= j < |tuples| && Resolved(tuples[j]).None?;
          SpecializeUnresolved(tuples, node.firstToken, node.declaration, j);
        }
      }
    }
  }

  /**
   * With every candidate resolved and no cancellation, a generic method of arity k gets
   * |candidates|^k copies, copy j being the method rewritten for tuple j of the cartesian power
   * and carrying the first token's structured leading trivia.
   */
  lemma GenerateCopies(types: seq<Symbol>, token: FirstToken, m: MethodDeclaration)
    requires m.typeParameterList.Some? && |m.typeParameterList.value.parameters| >= 1
    requires forall i :: 0 <= i < |types| ==> types[i].Some?
    ensures var k := |m.typeParameterList.value.parameters|;
      var g := Generate(types, MethodNode(token, m), false);
      var tuples := CartesianPower(types, k);
      g.Success? && |g.value| == |tuples| == Pow(|types|, k) &&
      forall j :: 0 <= j < |tuples| ==>
        Resolved(tuples[j]).Some? &&
        g.value[j] == MemberDeclaration(CopiedTrivia(token), Rewrite(m, Resolved(tuples[j]).value))
  {
    var k := |m.typeParameterList.value.parameters|;
    var tuples := CartesianPower(types, k);
    TypeCombinationsArePower(types, k);
    CartesianPowerShape(types, k);
    forall j | 0 <= j < |tuples|
      ensures Resolved(tuples[j]).Some?
    {
      PowerResolves(types, k, j);
    }
    SpecializeAll(tuples, token, m);
  }

  /**
   * Every copy is a non-generic method with the original name and modifiers, carrying the first
   * token's leading trivia when that token has structured trivia and none otherwise. No copy
   * keeps the trigger attribute, an emptied attribute list, a type-parameter list or a
   * constraint clause, anywhere in its attributes, return type, parameters or body.
   */
  lemma GeneratedCopiesAreSpecialized(types: seq<Symbol>, token: FirstToken, m: MethodDeclaration, cancelled: bool)
    requires Generate(types, MethodNode(token, m), cancelled).Success?
    ensures forall d :: d in Generate(types, MethodNode(token, m), cancelled).value ==>
      (HasStructuredTrivia(token) ==> d.leadingTrivia == token.leadingTrivia) &&
      (!HasStructuredTrivia(token) ==> d.leadingTrivia == []) &&
      d.declaration.typeParameterList == None && d.declaration.constraintClauses == [] &&
      d.declaration.identifier == m.identifier && d.declaration.modifiers == m.modifiers &&
      CleanAttributeLists(d.declaration.attributeLists) && CleanNode(d.declaration.returnType) &&
      CleanNode(d.declaration.body) && CleanChildren(d.declaration.parameters)
  {
    var items := TypeCombinations(types, |m.typeParameterList.value.parameters|).value;
    SpecializeShape(items, token, m, cancelled);
    forall d | d in Generate(types, MethodNode(token, m), cancelled).value
      ensures d.declaration.typeParameterList == None && d.declaration.constraintClauses == [] &&
        d.declaration.identifier == m.identifier && d.declaration.modifiers == m.modifiers &&
        CleanAttributeLists(d.declaration.attributeLists) && CleanNode(d.declaration.returnType) &&
        CleanNode(d.declaration.body) && CleanChildren(d.declaration.parameters)
    {
      var ts :| d.declaration == Rewrite(m, ts);
      VisitMethodFacts(m, [], Displays(ts));
    }
  }

  /**
   * For a method that declares type parameters only in its own list, a copy's parameters and
   * body are the original's with each type parameter replaced by the display string of the
   * candidate at the same position, while attributes and return type see no names at all.
   */
  lemma RewriteSubstitutes(m: MethodDeclaration, ts: seq<TypeId>)
    requires DeclaresTypeParametersOnlyAtTop(m)
    ensures Rewrite(m, ts) ==
      MethodDeclaration(
        SubstituteAttributeLists(m.attributeLists, [], Displays(ts)), m.modifiers,
        Substitute(m.returnType, [], Displays(ts)), m.identifier, None,
        SubstituteChildren(m.parameters, TypeParameterNames(m), Displays(ts)), [],
        Substitute(m.body, TypeParameterNames(m), Displays(ts)))
  {
    RewriteMethodTwoPhase(m, [], Displays(ts));
    assert [] + TypeParameterNames(m) == TypeParameterNames(m);
  }

  /** Two candidates A and B and a method of arity 2 give four copies: (A, A), (A, B), (B, A), (B, B). */
  lemma GenerateTwoByTwo(a: TypeId, b: TypeId, token: FirstToken, m: MethodDeclaration)
    requires m.typeParameterList.Some? && |m.typeParameterList.value.parameters| == 2
    ensures Generate([Some(a), Some(b)], MethodNode(token, m), false) == Success([
      MemberDeclaration(CopiedTrivia(token), Rewrite(m, [a, a])),
      MemberDeclaration(CopiedTrivia(token), Rewrite(m, [a, b])),
      MemberDeclaration(CopiedTrivia(token), Rewrite(m, [b, a])),
      MemberDeclaration(CopiedTrivia(token), Rewrite(m, [b, b]))])
  {
    var types := [Some(a), Some(b)];
    var trivia := CopiedTrivia(token);
    TwoByTwo(Some(a), Some(b));
    TypeCombinationsArePower(types, 2);
    var tuples := CartesianPower(types, 2);
    assert tuples == [[Some(a), Some(a)], [Some(a), Some(b)], [Some(b), Some(a)], [Some(b), Some(b)]];
    GenerateCopies(types, token, m);
    var g := Generate(types, MethodNode(token, m), false).value;
    assert |g| == 4;
    ResolvedPair(a, a);
    ResolvedPair(a, b);
    ResolvedPair(b, a);
    ResolvedPair(b, b);
    assert g[0] == MemberDeclaration(trivia, Rewrite(m, [a, a])) by { assert tuples[0] == [Some(a), Some(a)]; }
    assert g[1] == MemberDeclaration(trivia, Rewrite(m, [a, b])) by { assert tuples[1] == [Some(a), Some(b)]; }
    assert g[2] == MemberDeclaration(trivia, Rewrite(m, [b, a])) by { assert tuples[2] == [Some(b), Some(a)]; }
    assert g[3] == MemberDeclaration(trivia, Rewrite(m, [b, b])) by { assert tuples[3] == [Some(b), Some(b)]; }
    FourElements(g);
  }

  lemma FourElements<X>(g: seq<X>)
    requires |g| == 4
    ensures g == [g[0], g[1], g[2], g[3]]
  {
  }

  lemma ResolvedPair(a: TypeId, b: TypeId)
    ensures Resolved([Some(a), Some(b)]) == Some([a, b])
  {
    assert [Some(a), Some(b)][1..] == [Some(b)];
    assert [Some(b)][1..] == [];
    assert Resolved([Some(b)]) == Some([b] + []);
    assert [a] + ([b] + []) == [a, b];
  }

  // ----- A worked rewrite -----

  /** The declaration of [SpecializeMethod] [Description(nameof(T))] public static T Identity<T>(T value) where T : struct { return (T)value; } */
  function IdentityMethod(): MethodDeclaration
  {
    MethodDeclaration(
      IdentityAttributeLists(), ["public", "static"], IdentifierName("T"), "Identity", Some(TypeParameterList(["T"])),
      [Element(IdentityParameter(IdentifierName("T")))], [ConstraintClause("T", [Token("struct")])],
      IdentityBody(IdentifierName("T")))
  }

  function NameOfT(): Node { Composite("NameOfExpression", [Element(IdentifierName("T"))]) }

  function Description(): Attribute { Attribute(SimpleName("Description"), [Element(NameOfT())]) }

  function IdentityAttributeLists(): seq<AttributeList>
  {
    [AttributeList([Attribute(SimpleName(TriggerName), [])]), AttributeList([Description()])]
  }

  function IdentityParameter(parameterType: Node): Node
  {
    Composite("Parameter", [Element(parameterType), Element(Token("value"))])
  }

  function IdentityBody(castType: Node): Node
  {
    Composite("Block", [Element(Composite("ReturnStatement", [
      Element(Composite("CastExpression", [Element(castType), Element(IdentifierName("value"))]))]))])
  }

  /**
   * Rewritten for int: the trigger attribute, the type-parameter list and the constraint clause
   * go; the parameter type and the cast become int; the attribute argument and the return type,
   * visited before the type-parameter list, still say T.
   */
  lemma IdentityForInt(int32: TypeId)
    requires ToDisplayString(int32) == "int"
    ensures Rewrite(IdentityMethod(), [int32]) ==
      MethodDeclaration(
        [AttributeList([Description()])], ["public", "static"], IdentifierName("T"), "Identity", None,
        [Element(IdentityParameter(TypeName("int")))], [], IdentityBody(TypeName("int")))
  {
    var m := IdentityMethod();
    var repl := Displays([int32]);
    assert repl == ["int"];
    IdentityAttributesUnchanged(repl);
    IdentityParameterRewritten(repl);
    IdentityBodyRewritten(repl);
    assert DeclaresTypeParametersOnlyAtTop(m);
    RewriteSubstitutes(m, [int32]);
    assert TypeParameterNames(m) == ["T"];
    assert ReplaceIdentifier([], repl, "T") == None;
  }

  lemma IdentityAttributesUnchanged(repl: seq<string>)
    ensures NamesInAttributeLists(IdentityAttributeLists()) == []
    ensures SubstituteAttributeLists(IdentityAttributeLists(), [], repl) == [AttributeList([Description()])]
  {
    var t := IdentifierName("T");
    var trigger := Attribute(SimpleName(TriggerName), []);
    var description := Description();
    var lists := IdentityAttributeLists();
    NamesOne(t);
    NamesOne(NameOfT());
    SubstituteOne(t, [], repl);
    assert Substitute(t, [], repl) == t;
    SubstituteOne(NameOfT(), [], repl);
    assert [trigger][1..] == [] && [description][1..] == [] && lists[1..] == [AttributeList([description])];
    assert [AttributeList([description])][1..] == [];
    assert NamesInAttributes([trigger]) == [];
    assert NamesInAttribute(description) == [];
    assert NamesInAttributes([description]) == [];
    assert NamesInAttributeLists([AttributeList([description])]) == [];
    assert SubstituteAttribute(description, [], repl) == Some(description);
    assert SubstituteAttributes([description], [], repl) == [description];
    assert IsTrigger(trigger) && SubstituteAttribute(trigger, [], repl) == None;
    assert SubstituteAttributes([trigger], [], repl) == [];
    assert SubstituteAttributeList(AttributeList([trigger]), [], repl) == None;
    assert SubstituteAttributeLists([AttributeList([description])], [], repl) == [AttributeList([description])];
  }

  lemma IdentityParameterRewritten(repl: seq<string>)
    requires repl == ["int"]
    ensures NamesInChildren([Element(IdentityParameter(IdentifierName("T")))]) == []
    ensures SubstituteChildren([Element(IdentityParameter(IdentifierName("T")))], ["T"], repl) ==
      [Element(IdentityParameter(TypeName("int")))]
  {
    var t, value := IdentifierName("T"), Token("value");
    assert ReplaceIdentifier(["T"], repl, "T") == Some("int");
    NamesTwo(t, value);
    NamesOne(IdentityParameter(t));
    SubstituteTwo(t, value, ["T"], repl);
    SubstituteOne(IdentityParameter(t), ["T"], repl);
  }

  lemma IdentityBodyRewritten(repl: seq<string>)
    requires repl == ["int"]
    ensures NamesInNode(IdentityBody(IdentifierName("T"))) == []
    ensures Substitute(IdentityBody(IdentifierName("T")), ["T"], repl) == IdentityBody(TypeName("int"))
  {
    var t, v := IdentifierName("T"), IdentifierName("value");
    assert ReplaceIdentifier(["T"], repl, "T") == Some("int");
    assert ReplaceIdentifier(["T"], repl, "value") == None;
    var cast := Composite("CastExpression", [Element(t), Element(v)]);
    var ret := Composite("ReturnStatement", [Element(cast)]);
    NamesTwo(t, v);
    NamesOne(cast);
    NamesOne(ret);
    SubstituteTwo(t, v, ["T"], repl);
    SubstituteOne(cast, ["T"], repl);
    SubstituteOne(ret, ["T"], repl);
  }

  lemma NamesOne(x: Node)
    ensures NamesInChildren([Element(x)]) == NamesInNode(x)
  {
    assert [Element(x)][1..] == [];
    assert NamesInNode(x) + [] == NamesInNode(x);
  }

  lemma NamesTwo(x: Node, y: Node)
    ensures NamesInChildren([Element(x), Element(y)]) == NamesInNode(x) + NamesInNode(y)
  {
    NamesOne(y);
    assert [Element(x), Element(y)][1..] == [Element(y)];
  }

  lemma SubstituteOne(x: Node, names: seq<string>, replacements: seq<string>)
    ensures SubstituteChildren([Element(x)], names, replacements) == [Element(Substitute(x, names, replacements))]
  {
    assert [Element(x)][1..] == [];
  }

  lemma SubstituteTwo(x: Node, y: Node, names: seq<string>, replacements: seq<string>)
    ensures SubstituteChildren([Element(x), Element(y)], names, replacements) ==
      [Element(Substitute(x, names, replacements)), Element(Substitute(y, names, replacements))]
  {
    SubstituteOne(y, names, replacements);
    assert [Element(x), Element(y)][1..] == [Element(y)];
  }
}
