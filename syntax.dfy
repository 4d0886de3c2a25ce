/**
 * A small syntax tree for C# method declarations: just enough structure for the
 * specializing rewriter to act on (attribute lists, type-parameter lists, constraint
 * clauses and identifier names), with every other node kept as an opaque composite.
 */
module Syntax {
  import opened Outcomes

  /** A resolved type symbol; `displayString` is what the compiler's display formatter prints for it. */
  datatype TypeId = TypeId(metadataName: string, displayString: string)

  function ToDisplayString(t: TypeId): string { t.displayString }

  /** Trivia attached to a token. Documentation comments and directives carry structure. */
  datatype Trivia =
    | Whitespace(text: string)
    | EndOfLine
    | Comment(text: string)
    | DocumentationComment(text: string)
    | Directive(text: string)

  predicate IsStructured(t: Trivia) { t.DocumentationComment? || t.Directive? }

  /** The first token of a declaration, as far as its trivia goes. */
  datatype FirstToken = FirstToken(leadingTrivia: seq<Trivia>, trailingTrivia: seq<Trivia>)

  /** A token has structured trivia when any of its leading or trailing trivia is structured. */
  predicate HasStructuredTrivia(t: FirstToken)
  {
    exists x :: x in t.leadingTrivia + t.trailingTrivia && IsStructured(x)
  }

  /** Nodes that can stand in a single slot of their parent; none of them is ever deleted. */
  datatype Node =
    | IdentifierName(text: string)      // a simple name: the leaf the rewriter may substitute
    | TypeName(display: string)         // a type parsed from a display string
    | Token(text: string)               // keywords, literals, punctuation
    | Composite(kind: string, children: seq<Child>)

  /** An element of a list of children; the last three kinds may be deleted by the rewriter. */
  datatype Child =
    | Element(node: Node)
    | Attributes(attributeList: AttributeList)
    | TypeParameters(typeParameterList: TypeParameterList)
    | Constraint(clause: ConstraintClause)

  datatype AttributeList = AttributeList(attributes: seq<Attribute>)

  datatype Attribute = Attribute(name: AttributeName, arguments: seq<Child>)

  /** An attribute's name: a simple identifier, or any other name form (qualified, generic, aliased). */
  datatype AttributeName = SimpleName(text: string) | OtherName(text: string)

  datatype TypeParameterList = TypeParameterList(parameters: seq<string>)

  datatype ConstraintClause = ConstraintClause(typeParameter: string, constraints: seq<Node>)

  /** A method declaration, its parts in source order. */
  datatype MethodDeclaration = MethodDeclaration(
    attributeLists: seq<AttributeList>,
    modifiers: seq<string>,
    returnType: Node,
    identifier: string,
    typeParameterList: Option<TypeParameterList>,
    parameters: seq<Child>,
    constraintClauses: seq<ConstraintClause>,
    body: Node)
}
