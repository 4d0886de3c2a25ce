# Method specialization generator, modelled in Dafny

UnrealTools.CodeGen contains a source generator for C#. For a generic method marked
`[SpecializeMethod(typeof(A), typeof(B), ...)]` it emits one non-generic copy of the method per
tuple of candidate types: for a method of arity N and M candidates, M^N copies. Each copy has
its type parameters replaced by the tuple's types. This project models the three pieces that do
that work and proves what they compute:

- **`Extensions.Partition`** (`extensions.dfy`, module `Extensions`) cuts a sequence into arrays
  of a fixed length, plus a shorter final array for the leftovers. The model is a method over
  `array`s with the source's reusable buffer and counter, proved against the value-level
  specification `Chunks`.
- **The combination enumerator** of `SpecializeMethodCodeGen` (`combinations.dfy`, module
  `Combinations`). `Flat` mirrors the recursive flat token stream of `RecurseTypeCombinations`;
  `TypeCombinations` is the stream cut into chunks of the arity. Both are proved equal to the
  reference `CartesianPower`, in lexicographic order of candidate index.
- **The driver** `SpecializeMethodCodeGen` (`specialization.dfy`, module `Specialization`) is a
  class holding the candidate list. Its constructor captures the attribute's types, and
  `GetTypeCombinations` calls `Partition`. `GenerateAsync` fills in the 13 default candidates
  lazily and loops over the tuples, running a fresh rewriter on each. `GetTypeCombinations` is
  proved to return exactly `CartesianPower` of the candidates. `GenerateAsync` is proved to
  return the value-level `Generate` (one branch per case of the source), whose outcomes are
  proved in `generation_properties.dfy` (module `GenerationProperties`).
- **`GenericMethodRewriter`** (`rewriting.dfy`, module `Rewriting`) works over the small syntax
  datatype of `syntax.dfy`. The visit functions thread the rewriter's mutable list of recorded
  type-parameter names through a fixed child order, and the class `GenericMethodRewriter` holds
  that list as a field. `rewriter_properties.dfy` (module `RewriterProperties`) compares the walk
  with a two-phase reference: first a harvest of the declared names, then a substitution with a
  fixed name list.

`outcomes.dfy` holds `Option`, `Result` and the exceptions the source raises. A null reference
is `None`, and a thrown exception is a `Failure`.

### Traversal order

The rewriter learns the type-parameter names only while it visits the type-parameter list
(`GenericMethodRewriter.cs:68-71`). The C# visitor walks a method's children in source order:
attribute lists, modifiers, return type, name, type-parameter list, parameters, constraint
clauses, body. Everything visited before the type-parameter list therefore sees no recorded
names and is never substituted: the return type and the arguments of the method's own
attributes keep their type parameters. The model follows this order. `FreshRewriterKeepsReturnType`
and the worked example `IdentityForInt` state it: `T Identity<T>(T value)` specialized for `int`
becomes `T Identity(int value)`, with the parameter and the cast turned into `int` and the return
type still `T`.

## Model

| member | source | states |
|---|---|---|
| Extensions.Partition | src/UnrealTools.CodeGen/Extensions.cs:9-36 | A null sequence fails with ArgumentNullException("sequence"). A size of 0 or less fails with ArgumentException("partitionSize"). Otherwise there is one array per chunk of `Chunks`, with exactly that chunk's contents. Every array is newly allocated and no two are the same array. |
| Extensions.ChunksConcat | src/UnrealTools.CodeGen/Extensions.cs:18-33 | Joining the chunks in order gives back the input exactly. |
| Extensions.ChunksCount | src/UnrealTools.CodeGen/Extensions.cs:17-35 | There are ceil(L/K) chunks, and none exactly when the input is empty. |
| Extensions.ChunkAt | src/UnrealTools.CodeGen/Extensions.cs:20-33 | Chunk j starts inside the input and is input[j*K .. min((j+1)*K, L)]. |
| Extensions.ChunkLengths | src/UnrealTools.CodeGen/Extensions.cs:20-35 | No chunk is empty or longer than K, and every chunk but the last has length K. The last has length L mod K, or K when K divides L. It is short exactly when K does not divide L. |
| Extensions.ChunksOfPieces | src/UnrealTools.CodeGen/Extensions.cs:16-35 | Any pieces with Partition's output shape that join to the input are exactly its chunks. Those pieces are: all but the last of length K, the last of length 1 to K. |
| Combinations.FlatIsJoinedPower | src/UnrealTools.CodeGen/SpecializeMethodCodeGen.cs:39-61 | The recursive flat stream for arity k is the k-tuples of the cartesian power, joined in order. |
| Combinations.TypeCombinationsArePower | src/UnrealTools.CodeGen/SpecializeMethodCodeGen.cs:37-64 | Cutting the stream into chunks of the arity gives exactly the cartesian power. Arity 0 is Partition's ArgumentException("partitionSize"). |
| Combinations.CartesianPowerShape | src/UnrealTools.CodeGen/SpecializeMethodCodeGen.cs:43-63 | There are M^N tuples, each of length N. With no candidates and N ≥ 1 there are none. |
| Combinations.CartesianPowerAt | src/UnrealTools.CodeGen/SpecializeMethodCodeGen.cs:41-58 | Position p of tuple j is the candidate whose index is digit p of j in base M, most significant digit first. |
| Combinations.PowerSplit | src/UnrealTools.CodeGen/SpecializeMethodCodeGen.cs:51-58 | Tuple j of the k-th power is candidate j div M^(k-1), followed by tuple j mod M^(k-1) of the (k-1)-th power. |
| Combinations.DigitsOrdered | src/UnrealTools.CodeGen/SpecializeMethodCodeGen.cs:41-58 | Smaller tuple numbers have lexicographically smaller digit sequences. |
| Combinations.CartesianPowerLexicographic | src/UnrealTools.CodeGen/SpecializeMethodCodeGen.cs:41-58 | For tuples j < j', position p of each is the candidate at digit p of its number in base M, and the digits of j are lexicographically smaller: the tuples come in lexicographic order of candidate index, first position most significant. |
| Combinations.TwoByTwo | src/UnrealTools.CodeGen/SpecializeMethodCodeGen.cs:41-63 | Candidates [A, B] with arity 2 give (A,A), (A,B), (B,A), (B,B). |
| Specialization.SpecializeMethodCodeGen.constructor | src/UnrealTools.CodeGen/SpecializeMethodCodeGen.cs:24-35 | The candidate list is the attribute's types in order when there is at least one; otherwise it stays unset. |
| Specialization.SpecializeMethodCodeGen.GetTypeCombinations | src/UnrealTools.CodeGen/SpecializeMethodCodeGen.cs:37-64 | Arity 0 fails with ArgumentException("partitionSize"). Otherwise the result is exactly the cartesian power of the candidates, computed through Partition. |
| Specialization.SpecializeMethodCodeGen.GenerateAsync | src/UnrealTools.CodeGen/SpecializeMethodCodeGen.cs:73-118 | A candidate list that is set is kept. An unset one becomes the 13 defaults, System.Boolean through System.Guid in listed order: default i is null exactly when the compilation does not know its metadata name, and otherwise the compilation's type for it. The result is `Generate` of the candidates, the node and the cancellation flag, built by a loop that runs a fresh rewriter per tuple. |
| Specialization.Resolved | src/UnrealTools.CodeGen/GenericMethodRewriter.cs:37-43 | A tuple yields a rewriter exactly when none of its symbols is null, and then its symbols in order. |
| GenerationProperties.GenerateOutcomes | src/UnrealTools.CodeGen/SpecializeMethodCodeGen.cs:97-117 | A node that is not a method gives an empty list. A method without a type-parameter list fails with a null reference. Arity 0 fails with ArgumentException. No candidates give an empty list. Cancellation fails before the first copy. An unresolved candidate fails with a null reference. |
| GenerationProperties.GenerateCopies | src/UnrealTools.CodeGen/SpecializeMethodCodeGen.cs:101-114 | With all candidates resolved and no cancellation there are M^N copies. Copy j is the method rewritten for tuple j of the cartesian power and carries the copied trivia. |
| GenerationProperties.GeneratedCopiesAreSpecialized | src/UnrealTools.CodeGen/SpecializeMethodCodeGen.cs:103-114 | Every copy carries the first token's leading trivia when that token has structured trivia, and no trivia otherwise. It has no type-parameter list and no constraint clauses, and keeps the name and modifiers. Its attribute lists, return type, parameters and body hold no generic-only syntax: no trigger attribute, no emptied attribute list, no type-parameter list, no constraint clause. |
| GenerationProperties.SpecializeAll | src/UnrealTools.CodeGen/SpecializeMethodCodeGen.cs:103-114 | The tuple loop yields one copy per tuple, in tuple order, each from a fresh rewriter for that tuple. |
| GenerationProperties.SpecializeUnresolved | src/UnrealTools.CodeGen/SpecializeMethodCodeGen.cs:103-112 | Without cancellation, any tuple with a null symbol makes the loop fail with a null reference. |
| GenerationProperties.UnresolvedTuple | src/UnrealTools.CodeGen/SpecializeMethodCodeGen.cs:51-58 | An unresolved candidate appears in some tuple (at its turn in the first position). |
| GenerationProperties.PowerResolves | src/UnrealTools.CodeGen/SpecializeMethodCodeGen.cs:51-58 | Tuples are made only of candidates, so they all resolve when the candidates do. |
| GenerationProperties.RewriteSubstitutes | src/UnrealTools.CodeGen/GenericMethodRewriter.cs:61-78 | For a method that declares type parameters only in its own list, a copy substitutes the method's type parameters in its parameters and body. Its attributes and return type are substituted with no names. |
| GenerationProperties.GenerateTwoByTwo | src/UnrealTools.CodeGen/SpecializeMethodCodeGen.cs:101-114 | Candidates A and B with arity 2 give four copies, rewritten for (A,A), (A,B), (B,A), (B,B) in that order. |
| GenerationProperties.IdentityForInt | src/UnrealTools.CodeGen/GenericMethodRewriter.cs:46-78 | `[SpecializeMethod][Description(nameof(T))] T Identity<T>(T value) where T : struct` for int: the trigger attribute, type-parameter list and constraint go; the parameter and cast become int; the attribute argument and return type stay T. |
| Rewriting.IndexOf | src/UnrealTools.CodeGen/GenericMethodRewriter.cs:17 | The index is -1 exactly when the text is absent, and otherwise the first index of the text. |
| Rewriting.ReplaceIdentifier | src/UnrealTools.CodeGen/GenericMethodRewriter.cs:15-28 | An absent text has no replacement. Otherwise, with i its first index, the replacement is replacement i if there is one, and none otherwise. |
| Rewriting.VisitTypeParameterList | src/UnrealTools.CodeGen/GenericMethodRewriter.cs:61-67 | The list is deleted after its parameter names are appended to the recorded names. |
| Rewriting.VisitTypeParameters | src/UnrealTools.CodeGen/GenericMethodRewriter.cs:68-74 | The parameters append their names in declaration order. |
| Rewriting.VisitConstraintClauses | src/UnrealTools.CodeGen/GenericMethodRewriter.cs:60 | Constraint clauses are all deleted and record nothing. |
| Rewriting.GenericMethodRewriter.constructor | src/UnrealTools.CodeGen/GenericMethodRewriter.cs:37-43 | No names recorded; one replacement per symbol, its display string, in order. |
| Rewriting.GenericMethodRewriter.Neutral | src/UnrealTools.CodeGen/GenericMethodRewriter.cs:44 | No names recorded and no replacements. |
| Rewriting.GenericMethodRewriter.Accept | src/UnrealTools.CodeGen/GenericMethodRewriter.cs:12-13 | The result is the walk from the current recorded names. The recorded names become the walk's final names, and the replacements are unchanged. |
| RewriterProperties.VisitIdentifier | src/UnrealTools.CodeGen/GenericMethodRewriter.cs:75-78 | An identifier becomes type name replacement i when i is the first index of its text and a replacement exists there; otherwise it is unchanged. It records nothing. |
| RewriterProperties.VisitNodeFacts | src/UnrealTools.CodeGen/GenericMethodRewriter.cs:61-78 | Visiting a node records exactly its declared names and leaves no generic-only syntax. No identifier is left that the starting names would replace. With no declared names, the visit equals the substitution. |
| RewriterProperties.VisitChildrenFacts | src/UnrealTools.CodeGen/GenericMethodRewriter.cs:46-78 | The same four facts for a list of children visited left to right. |
| RewriterProperties.VisitChildFacts | src/UnrealTools.CodeGen/GenericMethodRewriter.cs:46-78 | The same four facts for one child, which is deleted when it is a type-parameter list or a constraint. |
| RewriterProperties.VisitAttributeListFacts | src/UnrealTools.CodeGen/GenericMethodRewriter.cs:46-53 | The same four facts for an attribute list. |
| RewriterProperties.VisitAttributesFacts | src/UnrealTools.CodeGen/GenericMethodRewriter.cs:54-59 | The same four facts for the attributes of a list. |
| RewriterProperties.VisitAttributeFacts | src/UnrealTools.CodeGen/GenericMethodRewriter.cs:54-59 | The same four facts for one attribute; the trigger records nothing. |
| RewriterProperties.VisitAttributeListsFacts | src/UnrealTools.CodeGen/GenericMethodRewriter.cs:46-59 | The same four facts for a method's attribute lists. |
| RewriterProperties.SubstituteIdentity | src/UnrealTools.CodeGen/GenericMethodRewriter.cs:75-78 | Substitution leaves a tree unchanged when it is free of generic-only syntax and has no identifier to replace. |
| RewriterProperties.SubstituteChildrenIdentity | src/UnrealTools.CodeGen/GenericMethodRewriter.cs:75-78 | The same for a list of children. |
| RewriterProperties.NothingToReplaceTrivially | src/UnrealTools.CodeGen/GenericMethodRewriter.cs:18 | With no recorded names or no replacements, no identifier has a replacement. |
| RewriterProperties.VisitAttributesKeepsNonTriggers | src/UnrealTools.CodeGen/GenericMethodRewriter.cs:54-59 | Exactly the trigger attributes are removed: the rest remain in order with their names. None remains exactly when every attribute is the trigger. |
| RewriterProperties.VisitAttributeListDeletion | src/UnrealTools.CodeGen/GenericMethodRewriter.cs:46-53 | An attribute list is deleted exactly when every attribute in it is the trigger. |
| RewriterProperties.VisitMethodFacts | src/UnrealTools.CodeGen/GenericMethodRewriter.cs:46-78 | Names are recorded in walk order, the method's own type parameters after those of its attribute lists and return type. The output has no type-parameter list, no constraint clause and no generic-only syntax, and keeps the name and modifiers. Parameters and body keep nothing the names known at their visit would replace. |
| RewriterProperties.RewriteMethodTwoPhase | src/UnrealTools.CodeGen/GenericMethodRewriter.cs:61-78 | For a method declaring type parameters only in its own list, the walk is a two-phase rewrite. Parts before the list are substituted with the starting names; parts after it with those names plus the method's type parameters. |
| RewriterProperties.FreshRewriterKeepsReturnType | src/UnrealTools.CodeGen/GenericMethodRewriter.cs:68-78 | A fresh rewriter leaves a return type free of generic-only syntax unchanged, even when it names a type parameter. |
| RewriterProperties.NeutralRewriterOnlyDeletes | src/UnrealTools.CodeGen/GenericMethodRewriter.cs:44-78 | For any method and any recorded names, the neutral rewriter's result is the deletion-only substitution of each part: nothing is substituted, while trigger attributes, emptied attribute lists, type-parameter lists and constraint clauses still go. Parts free of generic-only syntax come out unchanged. |
| RewriterProperties.NeutralVisitNode | src/UnrealTools.CodeGen/GenericMethodRewriter.cs:15-28 | With no replacements, visiting a node gives its deletion-only substitution whatever names are recorded. |
| RewriterProperties.NeutralVisitChildren | src/UnrealTools.CodeGen/GenericMethodRewriter.cs:15-28 | The same for a list of children. |
| RewriterProperties.NeutralVisitAttributes | src/UnrealTools.CodeGen/GenericMethodRewriter.cs:54-59 | The same for the attributes of a list. |
| RewriterProperties.NeutralVisitAttributeLists | src/UnrealTools.CodeGen/GenericMethodRewriter.cs:46-53 | The same for a method's attribute lists. |
| RewriterProperties.CleanHasNoNames | src/UnrealTools.CodeGen/GenericMethodRewriter.cs:61-74 | A tree without type-parameter lists declares no names. |

## Left out

- `EnumUpdaterCodeGen.cs` is not part of this model. It consists of an HTTP fetch, HTML
  scraping, parsing of the scraped text and doc-comment construction: I/O and foreign-library work.
- The attribute declarations in `UnrealTools.CodeGen.Attributes` hold no logic.
- `GenericMethodRewriter.ResolveType` is never called. It is a lookup in the compiler, so it is
  not modelled.
- The compiler API is abstract:
  - a type symbol is a `TypeId` with a display string;
  - `ParseTypeName` makes a `TypeName` node from that string;
  - `GetTypeByMetadataName` is a map lookup;
  - `ToDisplayString` on a null symbol is a null-reference failure.
- The visitor framework and full C# syntax are replaced by a minimal datatype. Nodes are
  identifiers, type names, tokens and composites of children.
- Attribute names are not visited for substitution. Only the trigger check reads them.
- The visitor casts each rewritten child back to the type of its slot. A recorded name standing
  where only a simple name is allowed (the member name of `x.T`, the name of a named argument
  `T: v`, the right side of a qualified name `A.T`) comes back from `ParseTypeName` as a
  predefined or qualified type name (`int`, `System.Guid`), and that cast throws
  InvalidCastException. The model's nodes carry no slot types, so `VisitIdentifierName`
  substitutes in every slot and this failure is not modelled.
- Only the first token's leading trivia is modelled. Other trivia and the
  `visitIntoStructuredTrivia` flag of the neutral constructor are not.
- `Task`, async wrapping and progress reporting are not modelled. The cancellation token is a
  boolean input, checked before each copy as the source does. With no tuples, cancellation
  therefore raises nothing.
- Iterators are enumerated eagerly. The argument checks of `Partition` are lazy in the source,
  and the model keeps their observable result: arity 0 fails with
  ArgumentException("partitionSize") from the outer call. The input of `Partition` is a finite
  sequence.
- The constructor's cast of attribute values to type symbols is not modelled. Attribute values
  arrive as symbols, with null as `None`, so a value that is not a type cannot occur.
- Counts are unbounded integers. An overflow of the tuple count M^N in a 32-bit `int`, or of
  memory, is not modelled.
