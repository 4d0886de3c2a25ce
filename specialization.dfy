/**
 * SpecializeMethodCodeGen: the code generator that, for a generic method marked with the
 * specialization attribute, emits one copy of the method per tuple of candidate types, each copy
 * rewritten by a fresh GenericMethodRewriter.
 */
module Specialization {
  import opened Outcomes
  import opened Syntax
  import opened Extensions
  import opened Combinations
  import opened Rewriting

  /** A type symbol as the compiler hands it out: None where a metadata name did not resolve. */
  type Symbol = Option<TypeId>

  /** The compilation the generator runs in, as far as it is consulted: metadata names to types. */
  datatype Compilation = Compilation(types: map<string, TypeId>)

  function GetTypeByMetadataName(c: Compilation, fullName: string): (s: Symbol)
    ensures s.Some? <==> fullName in c.types
    ensures s.Some? ==> s.value == c.types[fullName]
  {
    if fullName in c.types then Some(c.types[fullName]) else None
  }

  /** The full names of the thirteen default candidates, in order. */
  const DefaultTypeNames: seq<string> := [
    "System.Boolean", "System.SByte", "System.Byte", "System.Int16", "System.UInt16",
    "System.Int32", "System.UInt32", "System.Int64", "System.UInt64", "System.Single",
    "System.Double", "System.Decimal", "System.Guid"]

  /** The default candidates, each looked up in the compilation (None where it is missing). */
  function DefaultTypes(c: Compilation): (ds: seq<Symbol>)
    ensures |ds| == 13
    ensures forall i :: 0 <= i < 13 ==> ds[i] == GetTypeByMetadataName(c, DefaultTypeNames[i])
  {
    seq(|DefaultTypeNames|, i requires 0 <= i < |DefaultTypeNames| => GetTypeByMetadataName(c, DefaultTypeNames[i]))
  }

  /** The candidate list in force: the attribute's list if it gave one, otherwise the defaults. */
  function Candidates(specified: Option<seq<Symbol>>, c: Compilation): (cs: seq<Symbol>)
    ensures specified.Some? ==> cs == specified.value
    ensures specified.None? ==> |cs| == 13 && forall i :: 0 <= i < 13 ==> cs[i] == GetTypeByMetadataName(c, DefaultTypeNames[i])
  {
    if specified.Some? then specified.value else DefaultTypes(c)
  }

  // ----- Generation as values -----

  /** The generated copy of a method: its declaration and the leading trivia it is given. */
  datatype MemberDeclaration = MemberDeclaration(leadingTrivia: seq<Trivia>, declaration: MethodDeclaration)

  /** The node the generator is attached to: a method (with its first token) or something else. */
  datatype ProcessingNode =
    | MethodNode(firstToken: FirstToken, declaration: MethodDeclaration)
    | OtherNode(kind: string)

  datatype TransformationContext = TransformationContext(processingNode: ProcessingNode, compilation: Compilation)

  /** Leading trivia of every copy: the first token's, when that token has structured trivia. */
  function CopiedTrivia(token: FirstToken): (t: seq<Trivia>)
    ensures HasStructuredTrivia(token) ==> t == token.leadingTrivia
    ensures !HasStructuredTrivia(token) ==> t == []
  {
    if HasStructuredTrivia(token) then token.leadingTrivia else []
  }

  /** A tuple whose members all resolved; None if any is null. */
  function Resolved(tuple: seq<Symbol>): (r: Option<seq<TypeId>>)
    ensures r.Some? <==> forall i :: 0 <= i < |tuple| ==> tuple[i].Some?
    ensures r.Some? ==> |r.value| == |tuple| && forall i :: 0 <= i < |tuple| ==> r.value[i] == tuple[i].value
  {
    if tuple == [] then Some([])
    else if tuple[0].None? then None
    else
      var rest := Resolved(tuple[1..]);
      if rest.None? then
        assert exists i :: 0 <= i < |tuple| && tuple[i].None? by {
          var i :| 0 <= i < |tuple[1..]| && tuple[1..][i].None?;
          assert tuple[i + 1].None?;
        }
        None
      else
        Some([tuple[0].value] + rest.value)
  }

  function Displays(ts: seq<TypeId>): (ds: seq<string>)
    ensures |ds| == |ts| && forall i :: 0 <= i < |ts| ==> ds[i] == ToDisplayString(ts[i])
  {
    seq(|ts|, i requires 0 <= i < |ts| => ToDisplayString(ts[i]))
  }

  /** The method as a fresh rewriter built for the tuple returns it. */
  function Rewrite(m: MethodDeclaration, ts: seq<TypeId>): MethodDeclaration
  {
    VisitMethodDeclaration(m, [], Displays(ts)).result
  }

  /**
   * The copies for the remaining tuples; each tuple first checks for cancellation, then builds its
   * rewriter (a null candidate fails there), then rewrites.
   */
  function Specialize(items: seq<seq<Symbol>>, token: FirstToken, m: MethodDeclaration, cancelled: bool): Result<seq<MemberDeclaration>>
  {
    if items == [] then Success([])
    else if cancelled then Failure(OperationCanceledException)
    else
      var ts := Resolved(items[0]);
      if ts.None? then Failure(NullReferenceException)
      else Prepend([MemberDeclaration(CopiedTrivia(token), Rewrite(m, ts.value))], Specialize(items[1..], token, m, cancelled))
  }

  function Prepend(done: seq<MemberDeclaration>, rest: Result<seq<MemberDeclaration>>): Result<seq<MemberDeclaration>>
  {
    if rest.Success? then Success(done + rest.value) else rest
  }

  /**
   * What GenerateAsync produces for a candidate list: nothing for a node that is not a method; a
   * null dereference for a method without a type-parameter list; the argument error of Partition
   * for arity 0; otherwise one copy per tuple of the cartesian power.
   */
  function Generate(types: seq<Symbol>, node: ProcessingNode, cancelled: bool): Result<seq<MemberDeclaration>>
  {
    match node
    case OtherNode(_) => Success([])
    case MethodNode(token, m) =>
      if m.typeParameterList.None? then Failure(NullReferenceException)
      else
        var items := TypeCombinations(types, |m.typeParameterList.value.parameters|);
        if items.Failure? then Failure(items.error)
        else Specialize(items.value, token, m, cancelled)
  }

  // ----- The generator object -----

  class SpecializeMethodCodeGen {
    /** The candidate list; None until either the attribute gives one or GenerateAsync fills in the defaults. */
    var specializedTypes: Option<seq<Symbol>>

    /** Keeps the attribute's types when there are any; an empty list leaves the candidates unset. */
    constructor (attributeValues: seq<Symbol>)
      ensures specializedTypes == if |attributeValues| > 0 then Some(attributeValues) else None
    {
      specializedTypes := None;
      new;
      if |attributeValues| > 0 {
        specializedTypes := Some([]);
        for i := 0 to |attributeValues|
          invariant specializedTypes == Some(attributeValues[..i])
        {
          assert attributeValues[..i + 1] == attributeValues[..i] + [attributeValues[i]];
          specializedTypes := Some(specializedTypes.value + [attributeValues[i]]);
        }
        assert attributeValues[..|attributeValues|] == attributeValues;
      }
    }

    /** All tuples of typeArgCount candidates, in lexicographic order of candidate index. */
    method GetTypeCombinations(typeArgCount: nat) returns (r: Result<seq<seq<Symbol>>>)
      requires specializedTypes.Some?
      ensures typeArgCount == 0 ==> r == Failure(ArgumentException("partitionSize"))
      ensures typeArgCount > 0 ==> r == Success(CartesianPower(specializedTypes.value, typeArgCount))
    {
      var types := specializedTypes.value;
      var stream := if typeArgCount >= 1 then Flat(types, typeArgCount) else [];
      var partitioned := Partition(Some(stream), typeArgCount);
      if partitioned.Failure? {
        return Failure(partitioned.error);
      }
      var chunks := partitioned.value;
      var items: seq<seq<Symbol>> := [];
      for j := 0 to |chunks|
        invariant |items| == j && forall i :: 0 <= i < j ==> items[i] == chunks[i][..]
      {
        items := items + [chunks[j][..]];
      }
      assert items == Chunks(stream, typeArgCount);
      TypeCombinationsArePower(types, typeArgCount);
      r := Success(items);
    }

    /** Fills in the default candidates if none are set, then emits the copies for the context's node. */
    method GenerateAsync(context: TransformationContext, cancellationRequested: bool) returns (r: Result<seq<MemberDeclaration>>)
      modifies this
      ensures specializedTypes == Some(Candidates(old(specializedTypes), context.compilation))
      ensures old(specializedTypes).Some? ==> specializedTypes == old(specializedTypes)
      ensures old(specializedTypes).None? ==>
        |specializedTypes.value| == |DefaultTypeNames| == 13 &&
        forall i :: 0 <= i < 13 ==>
          (specializedTypes.value[i].Some? <==> DefaultTypeNames[i] in context.compilation.types) &&
          (specializedTypes.value[i].Some? ==> specializedTypes.value[i].value == context.compilation.types[DefaultTypeNames[i]])
      ensures r == Generate(specializedTypes.value, context.processingNode, cancellationRequested)
    {
      if specializedTypes.None? {
        specializedTypes := Some(DefaultTypes(context.compilation));
      }
      var def: seq<MemberDeclaration> := [];
      if context.processingNode.MethodNode? {
        var decl := context.processingNode.declaration;
        var token := context.processingNode.firstToken;
        if decl.typeParameterList.None? {
          return Failure(NullReferenceException);
        }
        var typeArgCount := |decl.typeParameterList.value.parameters|;
        var items := GetTypeCombinations(typeArgCount);
        if items.Failure? {
          TypeCombinationsArePower(specializedTypes.value, typeArgCount);
          return Failure(items.error);
        }
        ghost var spec := Generate(specializedTypes.value, context.processingNode, cancellationRequested);
        assert spec == Specialize(items.value, token, decl, cancellationRequested) by {
          TypeCombinationsArePower(specializedTypes.value, typeArgCount);
        }
        assert spec == Prepend(def, Specialize(items.value[0..], token, decl, cancellationRequested)) by {
          assert items.value[0..] == items.value;
          if spec.Success? {
            assert def + spec.value == spec.value;
          }
        }
        for i := 0 to |items.value|
          invariant specializedTypes == Some(Candidates(old(specializedTypes), context.compilation))
          invariant spec == Prepend(def, Specialize(items.value[i..], token, decl, cancellationRequested))
        {
          assert items.value[i..][0] == items.value[i] && items.value[i..][1..] == items.value[i + 1..];
          if cancellationRequested {
            return Failure(OperationCanceledException);
          }
          var trivia: seq<Trivia> := [];
          if HasStructuredTrivia(token) {
            trivia := token.leadingTrivia;
          }
          var ts := Resolved(items.value[i]);
          if ts.None? {
            return Failure(NullReferenceException);
          }
          var rewriter := new GenericMethodRewriter(ts.value);
          assert rewriter.genericReplacementTokens == Displays(ts.value);
          var rewritten := rewriter.Accept(decl);
          PrependAssoc(def, MemberDeclaration(trivia, rewritten), Specialize(items.value[i + 1..], token, decl, cancellationRequested));
          def := def + [MemberDeclaration(trivia, rewritten)];
        }
        assert items.value[|items.value|..] == [];
        assert def + [] == def;
        assert spec == Success(def);
      }
      r := Success(def);
    }
  }

  lemma PrependAssoc(done: seq<MemberDeclaration>, d: MemberDeclaration, rest: Result<seq<MemberDeclaration>>)
    ensures Prepend(done, Prepend([d], rest)) == Prepend(done + [d], rest)
  {
    if rest.Success? {
      assert done + ([d] + rest.value) == (done + [d]) + rest.value;
    }
  }
}
