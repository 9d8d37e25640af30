/**
 * What the rule promises, stated over the model: the classification, the
 * flattening of parser-built chains, one report per chain, the text each
 * operand contributes, and the cases the rule's test file pins down.
 */
module DeMorganProperties {
  import opened Wrappers
  import opened Estree
  import opened Text
  import opened PreferDeMorganLaw

  // ---------------------------------------------------------------------------
  // Classification

  /** Only `!` on a unary and `!==` on a binary are negations; every other operator and node type is not. */
  lemma NegationClassification(n: Node)
    ensures IsNegationExpression(n) <==>
              (TypeOf(n) == UnaryExpression && n.op == "!") || (TypeOf(n) == BinaryExpression && n.op == "!==")
  {
  }

  /** No unary expression needs parentheses, so the extra `type !== 'UnaryExpression'` guard never decides anything. */
  lemma NeedsParenthesesExcludesUnary(n: Node)
    ensures NeedsParentheses(n) ==> TypeOf(n) != UnaryExpression
    ensures NeedsParentheses(n) <==>
              n.LogicalNode? || n.BinaryNode? ||
              (n.OtherNode? && n.kind in {ConditionalExpression, AssignmentExpression, CallExpression, MemberExpression})
  {
  }

  // ---------------------------------------------------------------------------
  // Chains as a parser builds them

  /** The source texts of a list of nodes. */
  function Sources(ops: seq<Node>): (srcs: seq<string>)
    ensures |srcs| == |ops|
    ensures forall i :: 0 <= i < |ops| ==> srcs[i] == ops[i].src
  {
    if |ops| == 0 then [] else [ops[0].src] + Sources(ops[1..])
  }

  /** `o1 || o2 || ... || on` as a JavaScript parser builds it: `||` associates to the left. */
  function OrChain(ops: seq<Node>): Node
    requires |ops| >= 1
  {
    if |ops| == 1 then ops[0]
    else
      var init := OrChain(ops[..|ops| - 1]);
      LogicalNode("||", init, ops[|ops| - 1], init.src + " || " + ops[|ops| - 1].src)
  }

  /** The same operands grouped to the right: `o1 || (o2 || (... || on))`. */
  function RightOrChain(ops: seq<Node>): Node
    requires |ops| >= 1
  {
    if |ops| == 1 then ops[0]
    else
      var rest := RightOrChain(ops[1..]);
      LogicalNode("||", ops[0], rest, ops[0].src + " || " + rest.src)
  }

  predicate NoOr(ops: seq<Node>) {
    forall i :: 0 <= i < |ops| ==> !IsOr(ops[i])
  }

  /** Flattening undoes the parser: the operands come back in source order. */
  lemma {:induction false} FlattenOrChain(ops: seq<Node>)
    requires |ops| >= 1 && NoOr(ops)
    ensures Flatten(OrChain(ops)) == ops
  {
    if |ops| > 1 {
      var init := ops[..|ops| - 1];
      FlattenOrChain(init);
      assert init + [ops[|ops| - 1]] == ops;
    }
  }

  /** The same holds for a right-grouped chain, so flattening ignores grouping. */
  lemma {:induction false} FlattenRightOrChain(ops: seq<Node>)
    requires |ops| >= 1 && NoOr(ops)
    ensures Flatten(RightOrChain(ops)) == ops
  {
    if |ops| > 1 {
      FlattenRightOrChain(ops[1..]);
      assert [ops[0]] + ops[1..] == ops;
    }
  }

  /** The text of a parser-built chain is its operands' texts joined by ` || `. */
  lemma {:induction false} OrChainSource(ops: seq<Node>)
    requires |ops| >= 1
    ensures OrChain(ops).src == Join(Sources(ops), " || ")
  {
    if |ops| > 1 {
      var init := ops[..|ops| - 1];
      OrChainSource(init);
      JoinAppend(Sources(init), [ops[|ops| - 1].src], " || ");
      assert Sources(init) + [ops[|ops| - 1].src] == Sources(ops);
    }
  }

  // ---------------------------------------------------------------------------
  // The all-negated test

  /** The test on a `||` node is the test on both sides. */
  lemma AllNegatedSplit(n: Node)
    requires IsOr(n)
    ensures AreAllOperandsNegated(n) <==> AreAllOperandsNegated(n.left) && AreAllOperandsNegated(n.right)
  {
    assert Flatten(n) == Flatten(n.left) + Flatten(n.right);
  }

  /** On an operand that is not a `||` node, the test is the classification itself. */
  lemma AllNegatedLeaf(n: Node)
    requires !IsOr(n)
    ensures AreAllOperandsNegated(n) <==> IsNegationExpression(n)
  {
    assert Flatten(n) == [n];
  }

  /** A chain with one operand that is not a negation produces nothing, whatever its parent. */
  lemma MixedChainIsSilent(n: Node, parentType: NodeType, i: nat)
    requires n.LogicalNode? && i < |Flatten(n)| && !IsNegationExpression(Flatten(n)[i])
    ensures HandleLogicalExpression(n, parentType) == None
  {
    assert Flatten(n)[i] in Flatten(n);
  }

  // ---------------------------------------------------------------------------
  // One report per chain

  /** What the handler reports on each link of a chain's `||` skeleton, root first. */
  function ChainReports(n: Node, parentType: NodeType): seq<Diagnostic> {
    if IsOr(n) then
      (match HandleLogicalExpression(n, parentType) case Some(d) => [d] case None => [])
      + ChainReports(n.left, LogicalExpression) + ChainReports(n.right, LogicalExpression)
    else []
  }

  /** Below the root every link has a `LogicalExpression` parent, so none of them reports. */
  lemma {:induction false} InnerLinksAreSilent(n: Node)
    ensures ChainReports(n, LogicalExpression) == []
  {
    if IsOr(n) {
      InnerLinksAreSilent(n.left);
      InnerLinksAreSilent(n.right);
    }
  }

  /** A whole chain yields exactly the root's report: one if the root reports, none otherwise. */
  lemma ReportedOncePerChain(n: Node, parentType: NodeType)
    requires IsOr(n)
    ensures ChainReports(n, parentType) ==
              (match HandleLogicalExpression(n, parentType) case Some(d) => [d] case None => [])
    ensures |ChainReports(n, parentType)| <= 1
  {
    InnerLinksAreSilent(n.left);
    InnerLinksAreSilent(n.right);
  }

  // ---------------------------------------------------------------------------
  // The text each operand contributes

  /** `a !== b` contributes `a === b`, both sides verbatim. */
  lemma PositiveOfComparison(l: Node, r: Node, src: string)
    ensures PositiveOperand(BinaryNode("!==", l, r, src)) == l.src + " === " + r.src
  {
  }

  /**
   * `!x` contributes the verbatim text of `x` unless `x` is itself `!y` or
   * `a !== b`: member accesses and calls get no parentheses.
   */
  lemma PositiveOfPlainNegation(x: Node, src: string)
    requires !(x.UnaryNode? && x.op == "!") && !(x.BinaryNode? && x.op == "!==")
    ensures PositiveOperand(UnaryNode("!", x, src)) == x.src
  {
  }

  /** `!(a !== b)` also contributes `a === b`: the inner comparison is flipped, not kept. */
  lemma PositiveOfNegatedComparison(l: Node, r: Node, xsrc: string, src: string)
    ensures PositiveOperand(UnaryNode("!", BinaryNode("!==", l, r, xsrc), src)) == l.src + " === " + r.src
  {
  }

  /**
   * `!!y` contributes the text of `!y` when `y` needs no parentheses, and
   * otherwise that text minus its first character, in parentheses.
   */
  lemma PositiveOfDoubleNegation(y: Node, xsrc: string, src: string)
    ensures PositiveOperand(UnaryNode("!", UnaryNode("!", y, xsrc), src)) ==
              if NeedsParentheses(y) then "(" + DropFirst(xsrc) + ")" else xsrc
  {
  }

  /** So the parenthesised form drops the inner `!` itself: `!!(a && b)` contributes `((a && b))`. */
  lemma DoubleNegationDropsInnerBang()
    ensures
      var y := LogicalNode("&&", OtherNode(Identifier, "a"), OtherNode(Identifier, "b"), "a && b");
      PositiveOperand(UnaryNode("!", UnaryNode("!", y, "!(a && b)"), "!!(a && b)")) == "((a && b))"
  {
  }

  /** Parentheses are added only for a double negation: in every other case the text is verbatim or a flipped comparison. */
  lemma {:induction false} ParenthesesOnlyForDoubleNegation(op: Node)
    requires IsNegationExpression(op)
    ensures op.BinaryNode? ==> PositiveOperand(op) == op.left.src + " === " + op.right.src
    ensures op.UnaryNode? && !(op.argument.UnaryNode? && op.argument.op == "!") ==>
              PositiveOperand(op) == op.argument.src ||
              (op.argument.BinaryNode? && PositiveOperand(op) == op.argument.left.src + " === " + op.argument.right.src)
  {
    if op.UnaryNode? && !op.argument.BinaryNode? && !(op.argument.UnaryNode? && op.argument.op == "!") {
      PositiveOfPlainNegation(op.argument, op.src);
    }
  }

  // ---------------------------------------------------------------------------
  // The replacement text

  lemma {:induction false} PositiveOperandsAppend(a: seq<Node>, b: seq<Node>)
    ensures PositiveOperands(a + b) == PositiveOperands(a) + PositiveOperands(b)
  {
    var l, r := PositiveOperands(a + b), PositiveOperands(a) + PositiveOperands(b);
    assert |l| == |r|;
    forall i | 0 <= i < |l| ensures l[i] == r[i] {
      if i < |a| {
        assert (a + b)[i] == a[i];
      } else {
        assert (a + b)[i] == b[i - |a|];
      }
    }
  }

  /** The conjunction of `l || r` is the conjunction of `l`, then ` && `, then that of `r`. */
  lemma ConjunctionOfOr(n: Node)
    requires IsOr(n)
    ensures Conjunction(n) == Conjunction(n.left) + " && " + Conjunction(n.right)
  {
    PositiveOperandsAppend(Flatten(n.left), Flatten(n.right));
    JoinAppend(PositiveOperands(Flatten(n.left)), PositiveOperands(Flatten(n.right)), " && ");
  }

  /** Regrouping a chain leaves the replacement unchanged. */
  lemma ReplacementIgnoresGrouping(ops: seq<Node>)
    requires |ops| >= 1 && NoOr(ops)
    ensures Replacement(OrChain(ops)) == Replacement(RightOrChain(ops))
  {
    FlattenOrChain(ops);
    FlattenRightOrChain(ops);
  }

  /**
   * On a parser-built chain of two or more negations under a non-logical
   * parent, the handler reports once with the texts of the last link's two
   * sides and of the whole chain, and replaces the chain by
   * `!(p1 && ... && pn)` in source order.
   */
  lemma ReportOnChain(ops: seq<Node>, parentType: NodeType)
    requires |ops| >= 2 && NoOr(ops)
    requires forall i :: 0 <= i < |ops| ==> IsNegationExpression(ops[i])
    requires parentType != LogicalExpression
    ensures
      var chain := OrChain(ops);
      HandleLogicalExpression(chain, parentType) ==
        Some(Diagnostic(chain, MessageId,
                        MessageData(OrChain(ops[..|ops| - 1]).src, ops[|ops| - 1].src, Join(Sources(ops), " || ")),
                        ReplaceText(chain, "!(" + Join(PositiveOperands(ops), " && ") + ")")))
  {
    FlattenOrChain(ops);
    OrChainSource(ops);
  }

  /** Any parent other than a logical expression will do; under a logical one, of any operator, nothing is reported. */
  lemma LogicalParentSuppresses(n: Node, op: string, sibling: Node, src: string)
    requires n.LogicalNode?
    ensures HandleLogicalExpression(n, TypeOf(LogicalNode(op, n, sibling, src))) == None
    ensures HandleLogicalExpression(n, TypeOf(LogicalNode(op, sibling, n, src))) == None
  {
  }
}
