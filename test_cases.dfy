/**
 * The cases of the rule's test file, as trees the parser would hand over,
 * with the report (or its absence) the rule gives for each.
 */
module RuleTestCases {
  import opened Wrappers
  import opened Estree
  import opened Text
  import opened PreferDeMorganLaw
  import opened DeMorganProperties

  function Id(name: string): Node { OtherNode(Identifier, name) }

  /** `!x`, given the source text of the whole negation. */
  function Not(x: Node, src: string): Node { UnaryNode("!", x, src) }

  /** The fix text the handler offers, or the empty string when it reports nothing. */
  function FixText(node: Node, parentType: NodeType): string
    requires node.LogicalNode?
  {
    match HandleLogicalExpression(node, parentType)
    case Some(d) => d.fix.text
    case None => ""
  }

  /** `if (!isAdmin || !isEnabled)` reports and becomes `if (!(isAdmin && isEnabled))`. */
  lemma SimpleCase()
    ensures HandleLogicalExpression(OrChain([Not(Id("isAdmin"), "!isAdmin"), Not(Id("isEnabled"), "!isEnabled")]),
                                    Other(IfStatement)).Some?
    ensures FixText(OrChain([Not(Id("isAdmin"), "!isAdmin"), Not(Id("isEnabled"), "!isEnabled")]),
                    Other(IfStatement)) == "!(isAdmin && isEnabled)"
  {
    var ops := [Not(Id("isAdmin"), "!isAdmin"), Not(Id("isEnabled"), "!isEnabled")];
    ReportOnChain(ops, Other(IfStatement));
    var r := HandleLogicalExpression(OrChain(ops), Other(IfStatement));
    assert r.Some? && r.value.fix.text == "!(" + Join(PositiveOperands(ops), " && ") + ")";
    assert PositiveOperands(ops) == [PositiveOperand(ops[0]), PositiveOperand(ops[1])] == ["isAdmin", "isEnabled"];
    JoinTwo("isAdmin", "isEnabled", " && ");
    assert r.value.fix.text == "!(" + ("isAdmin" + " && " + "isEnabled") + ")";
    assert r.value.fix.text == "!(isAdmin && isEnabled)";
  }

  /** `!a || !b || !c` becomes `!(a && b && c)`, reported at the outer link only. */
  lemma MultipleConditions()
    ensures HandleLogicalExpression(OrChain([Not(Id("a"), "!a"), Not(Id("b"), "!b"), Not(Id("c"), "!c")]),
                                    Other(IfStatement)).Some?
    ensures FixText(OrChain([Not(Id("a"), "!a"), Not(Id("b"), "!b"), Not(Id("c"), "!c")]),
                    Other(IfStatement)) == "!(a && b && c)"
    ensures |ChainReports(OrChain([Not(Id("a"), "!a"), Not(Id("b"), "!b"), Not(Id("c"), "!c")]), Other(IfStatement))| == 1
  {
    var ops := [Not(Id("a"), "!a"), Not(Id("b"), "!b"), Not(Id("c"), "!c")];
    ReportOnChain(ops, Other(IfStatement));
    var r := HandleLogicalExpression(OrChain(ops), Other(IfStatement));
    assert r.Some? && r.value.fix.text == "!(" + Join(PositiveOperands(ops), " && ") + ")";
    assert PositiveOperands(ops) == [PositiveOperand(ops[0]), PositiveOperand(ops[1]), PositiveOperand(ops[2])]
        == ["a", "b", "c"];
    JoinThree("a", "b", "c", " && ");
    assert r.value.fix.text == "!(" + ("a" + " && " + "b" + " && " + "c") + ")";
    assert r.value.fix.text == "!(a && b && c)";
    ReportedOncePerChain(OrChain(ops), Other(IfStatement));
  }

  /** `x !== 0 || y !== 10` becomes `!(x === 0 && y === 10)`. */
  lemma Comparisons()
    ensures HandleLogicalExpression(OrChain([BinaryNode("!==", Id("x"), OtherNode(Literal, "0"), "x !== 0"),
                                             BinaryNode("!==", Id("y"), OtherNode(Literal, "10"), "y !== 10")]),
                                    Other(IfStatement)).Some?
    ensures FixText(OrChain([BinaryNode("!==", Id("x"), OtherNode(Literal, "0"), "x !== 0"),
                             BinaryNode("!==", Id("y"), OtherNode(Literal, "10"), "y !== 10")]),
                    Other(IfStatement)) == "!(x === 0 && y === 10)"
  {
    var x := BinaryNode("!==", Id("x"), OtherNode(Literal, "0"), "x !== 0");
    var y := BinaryNode("!==", Id("y"), OtherNode(Literal, "10"), "y !== 10");
    ReportOnChain([x, y], Other(IfStatement));
    var r := HandleLogicalExpression(OrChain([x, y]), Other(IfStatement));
    assert r.Some? && r.value.fix.text == "!(" + Join(PositiveOperands([x, y]), " && ") + ")";
    assert PositiveOperands([x, y]) == [PositiveOperand(x), PositiveOperand(y)];
    assert PositiveOperand(x) == "x === 0";
    assert PositiveOperand(y) == "y === 10";
    assert PositiveOperands([x, y]) == ["x === 0", "y === 10"];
    JoinTwo("x === 0", "y === 10", " && ");
    assert r.value.fix.text == "!(" + ("x === 0" + " && " + "y === 10") + ")";
    assert r.value.fix.text == "!(x === 0 && y === 10)";
  }

  /** The expected output of the member/call case, assembled from its two operands. */
  lemma ExpectedMemberCallOutput()
    ensures "!(" + ("user.isLoggedIn" + " && " + "user.hasPermission('edit')") + ")"
            == "!(user.isLoggedIn && user.hasPermission('edit'))"
  {
    assert "!(" + "user.isLoggedIn" + " && " == "!(user.isLoggedIn && ";
    assert "user.hasPermission('edit')" + ")" == "user.hasPermission('edit'))";
    assert "!(user.isLoggedIn && " + "user.hasPermission('edit'))" == "!(user.isLoggedIn && user.hasPermission('edit'))";
  }

  /** `!user.isLoggedIn || !user.hasPermission('edit')` keeps the member access and the call unparenthesised. */
  lemma ComplexObjectConditions()
    ensures HandleLogicalExpression(OrChain([Not(OtherNode(MemberExpression, "user.isLoggedIn"), "!user.isLoggedIn"),
                                             Not(OtherNode(CallExpression, "user.hasPermission('edit')"),
                                                 "!user.hasPermission('edit')")]),
                                    Other(IfStatement)).Some?
    ensures FixText(OrChain([Not(OtherNode(MemberExpression, "user.isLoggedIn"), "!user.isLoggedIn"),
                             Not(OtherNode(CallExpression, "user.hasPermission('edit')"),
                                 "!user.hasPermission('edit')")]),
                    Other(IfStatement)) == "!(user.isLoggedIn && user.hasPermission('edit'))"
  {
    var m := Not(OtherNode(MemberExpression, "user.isLoggedIn"), "!user.isLoggedIn");
    var c := Not(OtherNode(CallExpression, "user.hasPermission('edit')"), "!user.hasPermission('edit')");
    ReportOnChain([m, c], Other(IfStatement));
    var r := HandleLogicalExpression(OrChain([m, c]), Other(IfStatement));
    assert r.Some? && r.value.fix.text == "!(" + Join(PositiveOperands([m, c]), " && ") + ")";
    assert PositiveOperands([m, c]) == [PositiveOperand(m), PositiveOperand(c)]
        == ["user.isLoggedIn", "user.hasPermission('edit')"];
    JoinTwo("user.isLoggedIn", "user.hasPermission('edit')", " && ");
    assert r.value.fix.text == "!(" + ("user.isLoggedIn" + " && " + "user.hasPermission('edit')") + ")";
    ExpectedMemberCallOutput();
    assert r.value.fix.text == "!(user.isLoggedIn && user.hasPermission('edit'))";
  }

  /** `isAdmin || isEnabled`, `a && b` and the `&&` inside `!(isAdmin && isEnabled)` report nothing. */
  lemma ValidCases()
    ensures HandleLogicalExpression(OrChain([Id("isAdmin"), Id("isEnabled")]), Other(IfStatement)) == None
    ensures HandleLogicalExpression(LogicalNode("&&", Id("a"), Id("b"), "a && b"), Other(IfStatement)) == None
    ensures HandleLogicalExpression(LogicalNode("&&", Id("isAdmin"), Id("isEnabled"), "isAdmin && isEnabled"),
                                    UnaryExpression) == None
  {
    MixedChainIsSilent(OrChain([Id("isAdmin"), Id("isEnabled")]), Other(IfStatement), 0);
  }

  /** `isAdmin || !isEnabled`: one plain operand is enough to stay silent. */
  lemma OneOperandNotNegated()
    ensures HandleLogicalExpression(OrChain([Id("isAdmin"), Not(Id("isEnabled"), "!isEnabled")]),
                                    Other(IfStatement)) == None
  {
    MixedChainIsSilent(OrChain([Id("isAdmin"), Not(Id("isEnabled"), "!isEnabled")]), Other(IfStatement), 0);
  }
}
