/**
 * The `prefer-de-morgan-law` rule: on a `||` chain whose every operand is a
 * negation (`!x` or `a !== b`) it reports once, at the outermost link, and
 * offers the replacement `!(p1 && p2 && ...)` built from each operand's
 * positive text.
 */
module PreferDeMorganLaw {
  import opened Wrappers
  import opened Estree
  import opened Text

  const MessageId: string := "preferDeMorgan"

  /** `isNegationExpression`: a `!` unary expression or a `!==` comparison. */
  predicate IsNegationExpression(n: Node) {
    match n
    case UnaryNode(op, _, _) => op == "!"
    case BinaryNode(op, _, _, _) => op == "!=="
    case _ => false
  }

  /** `needsParentheses`: membership of the node's type in the list of complex types. */
  predicate NeedsParentheses(n: Node) {
    TypeOf(n) in {LogicalExpression, Other(ConditionalExpression), Other(AssignmentExpression),
                  BinaryExpression, Other(CallExpression), Other(MemberExpression)}
  }

  /** What `formatOperand` returns, case by case. */
  function FormatOperandText(n: Node): (text: string)
  {
    match n
    case UnaryNode(op, argument, src) =>
      if op == "!" && NeedsParentheses(argument) && !argument.UnaryNode? then "(" + DropFirst(src) + ")"
      else src
    case BinaryNode(op, left, right, src) =>
      if op == "!==" then left.src + " === " + right.src else src
    case _ => n.src
  }

  /** `formatOperand`: start from the verbatim text and overwrite it in the two special cases. */
  method FormatOperand(node: Node) returns (operandText: string)
    ensures operandText == FormatOperandText(node)
    ensures !(node.UnaryNode? && node.op == "!") && !(node.BinaryNode? && node.op == "!==") ==> operandText == node.src
  {
    operandText := node.src;
    if node.UnaryNode? && node.op == "!" {
      var operand := node.argument;
      if NeedsParentheses(operand) && TypeOf(operand) != UnaryExpression {
        operandText := "(" + DropFirst(operandText) + ")";
      }
    }
    if node.BinaryNode? && node.op == "!==" {
      operandText := node.left.src + " === " + node.right.src;
    }
  }

  /** The operands of a `||` chain in source order: the leaves of its `||` skeleton. */
  function Flatten(n: Node): (operands: seq<Node>)
    ensures |operands| >= 1
    ensures !IsOr(n) ==> operands == [n]
    ensures IsOr(n) ==> |operands| >= 2
    ensures forall i :: 0 <= i < |operands| ==> !IsOr(operands[i])
  {
    if IsOr(n) then Flatten(n.left) + Flatten(n.right) else [n]
  }

  /** The `flatten` closure: push the leaves below `subNode` onto `operands`. */
  method FlattenInto(subNode: Node, operands: seq<Node>) returns (pushed: seq<Node>)
    ensures pushed == operands + Flatten(subNode)
    decreases subNode
  {
    if subNode.LogicalNode? && subNode.op == "||" {
      var afterLeft := FlattenInto(subNode.left, operands);
      pushed := FlattenInto(subNode.right, afterLeft);
    } else {
      pushed := operands + [subNode];
    }
  }

  /** `flattenOrOperands`: start from an empty array and run the closure on the node. */
  method FlattenOrOperands(node: Node) returns (operands: seq<Node>)
    ensures operands == Flatten(node)
  {
    operands := [];
    operands := FlattenInto(node, operands);
  }

  /** `areAllOperandsNegated`: every flattened operand is a negation. */
  predicate AreAllOperandsNegated(n: Node) {
    forall op | op in Flatten(n) :: IsNegationExpression(op)
  }

  /** The text one operand contributes: `formatOperand` of the argument of a unary, of the operand otherwise. */
  function PositiveOperand(op: Node): string {
    FormatOperandText(if op.UnaryNode? then op.argument else op)
  }

  /** `operands.map(...)` */
  function PositiveOperands(operands: seq<Node>): (texts: seq<string>)
    ensures |texts| == |operands|
    ensures forall i :: 0 <= i < |operands| ==> texts[i] == PositiveOperand(operands[i])
  {
    if |operands| == 0 then [] else [PositiveOperand(operands[0])] + PositiveOperands(operands[1..])
  }

  /** The `data` of a report: the texts interpolated into the message. */
  datatype MessageData = MessageData(left: string, right: string, original: string)

  /** A fix that replaces the whole text of `target` with `text`. */
  datatype Fix = ReplaceText(target: Node, text: string)

  datatype Diagnostic = Diagnostic(node: Node, messageId: string, data: MessageData, fix: Fix)

  /** The positive texts of the flattened operands joined by ` && `. */
  function Conjunction(node: Node): string {
    Join(PositiveOperands(Flatten(node)), " && ")
  }

  /** The replacement text offered for a chain: the conjunction, negated and parenthesised. */
  function Replacement(node: Node): string {
    "!(" + Conjunction(node) + ")"
  }

  /** The `LogicalExpression` handler, given the node and the type of its parent. */
  function HandleLogicalExpression(node: Node, parentType: NodeType): (r: Option<Diagnostic>)
    requires node.LogicalNode?
    ensures r.Some? <==> node.op == "||" && AreAllOperandsNegated(node) && parentType != LogicalExpression
    ensures r.Some? ==> r.value.node == node && r.value.messageId == MessageId
    ensures r.Some? ==> r.value.data == MessageData(node.left.src, node.right.src, node.src)
    ensures r.Some? ==> r.value.fix.target == node
    ensures r.Some? ==> |r.value.fix.text| >= 3 && r.value.fix.text[..2] == "!(" && r.value.fix.text[|r.value.fix.text| - 1] == ')'
  {
    if node.op == "||" && AreAllOperandsNegated(node) && parentType != LogicalExpression then
      var replacement := Replacement(node);
      Some(Diagnostic(node, MessageId,
                      MessageData(node.left.src, node.right.src, node.src),
                      ReplaceText(node, replacement)))
    else
      None
  }
}
