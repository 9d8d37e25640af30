/**
 * The part of an ESTree syntax tree that the rule looks at.
 *
 * Every node carries `src`, its verbatim source text as the host's
 * `getText` returns it (without surrounding parentheses).
 */
module Estree {

  /** Node types whose inside the rule never inspects, plus non-expression parents. */
  datatype OtherKind =
    | ConditionalExpression
    | AssignmentExpression
    | CallExpression
    | MemberExpression
    | Identifier
    | Literal
    | IfStatement
    | ExpressionStatement
    | Unlisted

  /** The `type` tag of an ESTree node. */
  datatype NodeType =
    | UnaryExpression
    | BinaryExpression
    | LogicalExpression
    | Other(kind: OtherKind)

  datatype Node =
    | UnaryNode(op: string, argument: Node, src: string)
    | BinaryNode(op: string, left: Node, right: Node, src: string)
    | LogicalNode(op: string, left: Node, right: Node, src: string)
    | OtherNode(kind: OtherKind, src: string)

  /** `node.type` */
  function TypeOf(n: Node): (t: NodeType)
    ensures t == UnaryExpression <==> n.UnaryNode?
    ensures t == BinaryExpression <==> n.BinaryNode?
    ensures t == LogicalExpression <==> n.LogicalNode?
  {
    match n
    case UnaryNode(_, _, _) => UnaryExpression
    case BinaryNode(_, _, _, _) => BinaryExpression
    case LogicalNode(_, _, _, _) => LogicalExpression
    case OtherNode(k, _) => Other(k)
  }

  /** A `LogicalExpression` whose operator is `||`. */
  predicate IsOr(n: Node) {
    n.LogicalNode? && n.op == "||"
  }
}
