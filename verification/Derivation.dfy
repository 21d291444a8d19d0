/** Proof trees read from atoms: the row grammar, its recursive reading, and the parser
    that keeps its own stack. */
module ProofTrees {
  import opened Atoms

  /** How an atom and a carried value are written as text. */
  datatype Spelling = Spelling(show: Atom -> string, value: Payload -> string)

  datatype Node =
    | Step(call: Atom, answer: Atom, equation: Atom, children: seq<Node>)
    | Fact(space: string, atom: Atom)
    | Builtin(text: string)
    | Truncated(text: string)

  datatype Derivation = Derivation(call: Atom, answer: Atom, children: seq<Node>)

  /** A refusal names the row that was expected and the atom found there; an atom that
      starts no row at all is reported as it is. */
  datatype Error = MalformedRow(head: string, atom: Atom) | UnknownNode(atom: Atom)

  datatype Result<+T> = Ok(value: T) | Err(error: Error)

  // -------------------------------------------------------------------- the grammar

  predicate Headed(e: Atom, name: string) {
    e.Expression? && e.children != [] && e.children[0] == Symbol(name)
  }

  /** A field written as a symbol is its name, any other its text. */
  function NameOf(part: Atom, say: Spelling): string {
    if part.Symbol? then part.name else say.show(part)
  }

  function TextOf(part: Atom, say: Spelling): string {
    if part.Grounded? then say.value(part.payload) else say.show(part)
  }

  /** A nested row of two parts, such as `(call Call Answer)`. */
  function PairOf(part: Atom, head: string): Result<(Atom, Atom)> {
    if Headed(part, head) && |part.children| == 3 then Ok((part.children[1], part.children[2]))
    else Err(MalformedRow(head, part))
  }

  /** A step's own row, its children left aside. */
  function StepRow(e: Atom): Result<(Atom, Atom, Atom)> {
    if !Headed(e, "step") || |e.children| < 3 then Err(MalformedRow("step", e))
    else
      match PairOf(e.children[1], "call")
      case Ok((call, answer)) => Ok((call, answer, e.children[2]))
      case Err(error) => Err(error)
  }

  function LeafOf(e: Atom, say: Spelling): Result<Node> {
    if Headed(e, "fact") then
      if |e.children| != 3 then Err(MalformedRow("fact", e))
      else Ok(Fact(NameOf(e.children[1], say), e.children[2]))
    else if Headed(e, "builtin") then
      if |e.children| != 2 then Err(MalformedRow("builtin", e)) else Ok(Builtin(TextOf(e.children[1], say)))
    else if Headed(e, "truncated") then
      if |e.children| != 2 then Err(MalformedRow("truncated", e)) else Ok(Truncated(TextOf(e.children[1], say)))
    else Err(UnknownNode(e))
  }

  /** The atoms a step's row leaves for its child nodes. */
  function ChildAtoms(e: Atom): (r: seq<Atom>)
    ensures SizeAll(r) < Size(e)
  {
    if Headed(e, "step") && |e.children| >= 3 then
      SizeAllFrom(e.children, 3);
      e.children[3..]
    else []
  }

  lemma {:induction false} SizeAllFrom(xs: seq<Atom>, k: nat)
    requires k <= |xs|
    ensures SizeAll(xs[k..]) <= SizeAll(xs)
    decreases k
  {
    if k > 0 {
      SizeAllFrom(xs[1..], k - 1);
      assert xs[1..][k - 1..] == xs[k..];
    }
  }

  // -------------------------------------------------------------- the recursive reading

  function ReadNode(e: Atom, say: Spelling): Result<Node>
    decreases Size(e), 1
  {
    if !Headed(e, "step") then LeafOf(e, say)
    else
      match StepRow(e)
      case Err(error) => Err(error)
      case Ok((call, answer, equation)) =>
        match ReadAll(ChildAtoms(e), say)
        case Err(error) => Err(error)
        case Ok(children) => Ok(Step(call, answer, equation, children))
  }

  function ReadAll(es: seq<Atom>, say: Spelling): Result<seq<Node>>
    decreases SizeAll(es), 2
  {
    if es == [] then Ok([])
    else
      match ReadNode(es[0], say)
      case Err(error) => Err(error)
      case Ok(node) =>
        match ReadAll(es[1..], say)
        case Err(error) => Err(error)
        case Ok(nodes) => Ok([node] + nodes)
  }

  function FromAtom(tree: Atom, say: Spelling): Result<Derivation> {
    if !Headed(tree, "derivation") || |tree.children| < 2 then Err(MalformedRow("derivation", tree))
    else
      match PairOf(tree.children[1], "answer")
      case Err(error) => Err(error)
      case Ok((call, answer)) =>
        match ReadAll(tree.children[2..], say)
        case Err(error) => Err(error)
        case Ok(children) => Ok(Derivation(call, answer, children))
  }

  // ------------------------------------------------- what a failure reports

  function Fault<T>(r: Result<T>): Option<Error> {
    match r
    case Ok(_) => None
    case Err(error) => Some(error)
  }

  /** What is wrong with an atom's own row, its child nodes aside. */
  function OwnError(e: Atom, say: Spelling): Option<Error> {
    if Headed(e, "step") then Fault(StepRow(e)) else Fault(LeafOf(e, say))
  }

  /** Every node's atom, each before its children. */
  function AtomsBelow(e: Atom): seq<Atom>
    decreases Size(e), 1
  {
    [e] + AllAtoms(ChildAtoms(e))
  }

  function AllAtoms(es: seq<Atom>): seq<Atom>
    decreases SizeAll(es), 2
  {
    if es == [] then [] else AtomsBelow(es[0]) + AllAtoms(es[1..])
  }

  function FirstError(es: seq<Atom>, say: Spelling): Option<Error> {
    if es == [] then None
    else if OwnError(es[0], say).Some? then OwnError(es[0], say)
    else FirstError(es[1..], say)
  }

  lemma {:induction false} FirstErrorJoin(a: seq<Atom>, b: seq<Atom>, say: Spelling)
    ensures FirstError(a + b, say) == if FirstError(a, say).Some? then FirstError(a, say) else FirstError(b, say)
    decreases |a|
  {
    hide OwnError;
    if a == [] {
      assert a + b == b;
    } else {
      assert (a + b)[1..] == a[1..] + b;
      FirstErrorJoin(a[1..], b, say);
    }
  }

  lemma {:induction false} FirstErrorIs(es: seq<Atom>, say: Spelling)
    ensures FirstError(es, say) == None <==> forall i | 0 <= i < |es| :: OwnError(es[i], say) == None
    ensures FirstError(es, say).Some? ==>
              exists i :: 0 <= i < |es| && OwnError(es[i], say) == FirstError(es, say)
                          && forall j | 0 <= j < i :: OwnError(es[j], say) == None
    decreases |es|
  {
    hide OwnError;
    if es != [] {
      FirstErrorIs(es[1..], say);
      assert forall i | 0 <= i < |es| - 1 :: es[1..][i] == es[i + 1];
      if OwnError(es[0], say) == None {
        if FirstError(es[1..], say).Some? {
          var i :| 0 <= i < |es[1..]| && OwnError(es[1..][i], say) == FirstError(es[1..], say)
                   && forall j | 0 <= j < i :: OwnError(es[1..][j], say) == None;
          assert OwnError(es[i + 1], say) == FirstError(es, say);
          forall j | 0 <= j < i + 1 ensures OwnError(es[j], say) == None {
            if j > 0 { assert es[1..][j - 1] == es[j]; }
          }
        } else {
          forall i | 0 <= i < |es| ensures OwnError(es[i], say) == None {
            if i > 0 { assert es[1..][i - 1] == es[i]; }
          }
        }
      }
    }
  }

  lemma {:induction false} NodeFailure(e: Atom, say: Spelling)
    ensures FirstError(AtomsBelow(e), say) == Fault(ReadNode(e, say))
    decreases Size(e), 1
  {
    NodesFailure(ChildAtoms(e), say);
    FirstErrorJoin([e], AllAtoms(ChildAtoms(e)), say);
  }

  lemma {:induction false} NodesFailure(es: seq<Atom>, say: Spelling)
    ensures FirstError(AllAtoms(es), say) == Fault(ReadAll(es, say))
    decreases SizeAll(es), 2
  {
    if es != [] {
      NodeFailure(es[0], say);
      NodesFailure(es[1..], say);
      FirstErrorJoin(AtomsBelow(es[0]), AllAtoms(es[1..]), say);
    }
  }

  /** Reading fails exactly when some node's own row is broken, and reports the first
      such node in pre-order. */
  lemma FailsAtFirstBrokenRow(es: seq<Atom>, say: Spelling)
    ensures ReadAll(es, say).Ok? <==> forall i | 0 <= i < |AllAtoms(es)| :: OwnError(AllAtoms(es)[i], say) == None
    ensures ReadAll(es, say).Err? ==>
              exists i :: 0 <= i < |AllAtoms(es)| && OwnError(AllAtoms(es)[i], say) == Some(ReadAll(es, say).error)
                          && forall j | 0 <= j < i :: OwnError(AllAtoms(es)[j], say) == None
  {
    hide OwnError, ReadAll, AllAtoms, FirstError;
    NodesFailure(es, say);
    FirstErrorIs(AllAtoms(es), say);
  }

  // --------------------------------------------- the grammar as a relation, not a reading

  /** A space is named by a symbol, or by what any other atom shows. */
  predicate Names(part: Atom, space: string, say: Spelling) {
    part == Symbol(space) || (!part.Symbol? && say.show(part) == space)
  }

  /** A text is a carried value, or what any other atom shows. */
  predicate Tells(part: Atom, text: string, say: Spelling) {
    match part
    case Grounded(payload) => say.value(payload) == text
    case _ => say.show(part) == text
  }

  /** The atom is a row of the grammar that spells the node. */
  predicate Spells(e: Atom, node: Node, say: Spelling)
    decreases node
  {
    match node
    case Step(call, answer, equation, children) =>
      && e.Expression? && |e.children| == 3 + |children|
      && e.children[..3] == [Symbol("step"), Expression([Symbol("call"), call, answer]), equation]
      && forall i | 0 <= i < |children| :: Spells(e.children[3 + i], children[i], say)
    case Fact(space, atom) =>
      e.Expression? && |e.children| == 3 && e.children[0] == Symbol("fact") && e.children[2] == atom
      && Names(e.children[1], space, say)
    case Builtin(text) =>
      e.Expression? && |e.children| == 2 && e.children[0] == Symbol("builtin") && Tells(e.children[1], text, say)
    case Truncated(text) =>
      e.Expression? && |e.children| == 2 && e.children[0] == Symbol("truncated") && Tells(e.children[1], text, say)
  }

  predicate SpellsAll(es: seq<Atom>, nodes: seq<Node>, say: Spelling) {
    |es| == |nodes| && forall i | 0 <= i < |es| :: Spells(es[i], nodes[i], say)
  }

  lemma LeafExactly(e: Atom, node: Node, say: Spelling)
    requires !Headed(e, "step")
    ensures LeafOf(e, say) == Ok(node) <==> Spells(e, node, say)
  {
  }

  lemma StepExactly(e: Atom, call: Atom, answer: Atom, equation: Atom)
    ensures StepRow(e) == Ok((call, answer, equation)) <==>
            && e.Expression? && |e.children| >= 3
            && e.children[..3] == [Symbol("step"), Expression([Symbol("call"), call, answer]), equation]
  {
    if e.Expression? && |e.children| >= 3 {
      var pair := e.children[1];
      assert pair == Expression([Symbol("call"), call, answer]) <==> PairOf(pair, "call") == Ok((call, answer)) by {
        PairExactly(pair, "call", call, answer);
      }
      hide PairOf;
      assert e.children[..3] == [e.children[0], e.children[1], e.children[2]];
    }
  }

  lemma PairExactly(part: Atom, head: string, a: Atom, b: Atom)
    ensures PairOf(part, head) == Ok((a, b)) <==> part == Expression([Symbol(head), a, b])
  {
    if Headed(part, head) && |part.children| == 3 {
      assert part.children == [part.children[0], part.children[1], part.children[2]];
    }
  }

  /** An atom is read as a node exactly when it is a row that spells it. */
  lemma {:induction false} ReadExactly(e: Atom, node: Node, say: Spelling)
    ensures ReadNode(e, say) == Ok(node) <==> Spells(e, node, say)
    decreases Size(e), 1
  {
    if !Headed(e, "step") {
      LeafExactly(e, node, say);
    } else {
      match node
      case Step(call, answer, equation, children) =>
        StepExactly(e, call, answer, equation);
        hide StepRow, Spells;
        ReadAllExactly(ChildAtoms(e), children, say);
        StepSpells(e, call, answer, equation, children, say);
      case _ =>
    }
  }

  lemma StepSpells(e: Atom, call: Atom, answer: Atom, equation: Atom, children: seq<Node>, say: Spelling)
    ensures Spells(e, Step(call, answer, equation, children), say) <==>
            && e.Expression? && |e.children| >= 3
            && e.children[..3] == [Symbol("step"), Expression([Symbol("call"), call, answer]), equation]
            && SpellsAll(e.children[3..], children, say)
  {
    if e.Expression? && |e.children| == 3 + |children| {
      assert forall i | 0 <= i < |children| :: e.children[3..][i] == e.children[3 + i];
      forall i | 0 <= i < |children| && SpellsAll(e.children[3..], children, say)
        ensures Spells(e.children[3 + i], children[i], say)
      {
        assert Spells(e.children[3..][i], children[i], say);
      }
    }
  }

  lemma {:induction false} ReadAllExactly(es: seq<Atom>, nodes: seq<Node>, say: Spelling)
    ensures ReadAll(es, say) == Ok(nodes) <==> SpellsAll(es, nodes, say)
    decreases SizeAll(es), 2
  {
    hide Spells, ReadNode;
    if es != [] && nodes != [] {
      ReadExactly(es[0], nodes[0], say);
      ReadAllExactly(es[1..], nodes[1..], say);
      assert nodes == [nodes[0]] + nodes[1..];
      SpellsFirst(es, nodes, say);
    }
  }

  lemma SpellsFirst(es: seq<Atom>, nodes: seq<Node>, say: Spelling)
    requires es != [] && nodes != []
    ensures SpellsAll(es, nodes, say) <==> Spells(es[0], nodes[0], say) && SpellsAll(es[1..], nodes[1..], say)
  {
    hide Spells;
    if |es| == |nodes| {
      assert forall i | 0 < i < |es| :: es[i] == es[1..][i - 1] && nodes[i] == nodes[1..][i - 1];
      forall i | 0 <= i < |es[1..]| && SpellsAll(es, nodes, say) ensures Spells(es[1..][i], nodes[1..][i], say) {
        assert Spells(es[i + 1], nodes[i + 1], say);
      }
    }
  }

  /** A tree is read as a derivation exactly when it is a row that spells it. */
  lemma FromAtomExactly(tree: Atom, d: Derivation, say: Spelling)
    ensures FromAtom(tree, say) == Ok(d) <==>
            && tree.Expression? && |tree.children| >= 2
            && tree.children[..2] == [Symbol("derivation"), Expression([Symbol("answer"), d.call, d.answer])]
            && SpellsAll(tree.children[2..], d.children, say)
  {
    hide Spells, SpellsAll, ReadAll, PairOf;
    if tree.Expression? && |tree.children| >= 2 {
      PairExactly(tree.children[1], "answer", d.call, d.answer);
      ReadAllExactly(tree.children[2..], d.children, say);
      assert tree.children[..2] == [tree.children[0], tree.children[1]];
    }
  }

  /** Which row is named by a refusal of an atom's own row, and which atom. */
  lemma OwnErrorExactly(e: Atom, say: Spelling)
    ensures OwnError(e, say) == Some(UnknownNode(e)) <==>
            !(Headed(e, "step") || Headed(e, "fact") || Headed(e, "builtin") || Headed(e, "truncated"))
    ensures forall head :: OwnError(e, say) == Some(MalformedRow(head, e)) <==>
              (head == "step" && Headed(e, head) && |e.children| < 3)
              || (head == "fact" && Headed(e, head) && |e.children| != 3)
              || ((head == "builtin" || head == "truncated") && Headed(e, head) && |e.children| != 2)
    ensures Headed(e, "step") && |e.children| >= 3 ==>
              (OwnError(e, say).Some? <==> OwnError(e, say) == Some(MalformedRow("call", e.children[1])))
              && (OwnError(e, say).Some? <==> !(Headed(e.children[1], "call") && |e.children[1].children| == 3))
  {
    if Headed(e, "step") && |e.children| >= 3 { assert e.children[1] != e by { SizeAllAt(e.children, 1); } }
  }

  lemma {:induction false} SizeAllAt(xs: seq<Atom>, k: nat)
    requires k < |xs|
    ensures Size(xs[k]) <= SizeAll(xs)
    decreases k
  {
    if k > 0 { SizeAllAt(xs[1..], k - 1); }
  }

  // ---------------------------------------------------------------------- round trip

  function Row(head: string, parts: seq<Atom>): Atom {
    Expression([Symbol(head)] + parts)
  }

  /** The atom that spells a node. */
  function Write(node: Node): Atom
    decreases node, 1
  {
    match node
    case Step(call, answer, equation, children) =>
      Row("step", [Row("call", [call, answer]), equation] + WriteAll(children))
    case Fact(space, atom) => Row("fact", [Symbol(space), atom])
    case Builtin(text) => Row("builtin", [Grounded(Text(text))])
    case Truncated(text) => Row("truncated", [Grounded(Text(text))])
  }

  function WriteAll(nodes: seq<Node>): seq<Atom>
    decreases nodes, 0
  {
    if nodes == [] then [] else [Write(nodes[0])] + WriteAll(nodes[1..])
  }

  lemma {:induction false} ReadWrite(node: Node, say: Spelling)
    requires forall t :: say.value(Text(t)) == t
    ensures ReadNode(Write(node), say) == Ok(node)
    decreases node, 1
  {
    if node.Step? {
      ReadWriteAll(node.children, say);
      assert Write(node).children[3..] == WriteAll(node.children);
    }
  }

  lemma {:induction false} ReadWriteAll(nodes: seq<Node>, say: Spelling)
    requires forall t :: say.value(Text(t)) == t
    ensures ReadAll(WriteAll(nodes), say) == Ok(nodes)
    decreases nodes, 0
  {
    if nodes != [] {
      ReadWrite(nodes[0], say);
      ReadWriteAll(nodes[1..], say);
      assert WriteAll(nodes)[1..] == WriteAll(nodes[1..]);
      assert [nodes[0]] + nodes[1..] == nodes;
    }
  }

  /** Whatever tree is written is read back as it was. */
  lemma DerivationRoundTrip(d: Derivation, say: Spelling)
    requires forall t :: say.value(Text(t)) == t
    ensures FromAtom(Row("derivation", [Row("answer", [d.call, d.answer])] + WriteAll(d.children)), say) == Ok(d)
  {
    ReadWriteAll(d.children, say);
    var tree := Row("derivation", [Row("answer", [d.call, d.answer])] + WriteAll(d.children));
    assert tree.children[2..] == WriteAll(d.children);
  }

  // ------------------------------------------------------------------ the stack form

  datatype Item = Enter(atom: Atom) | Pending(call: Atom, answer: Atom, equation: Atom, width: nat)

  /** The atoms put so that the first stands last. */
  function Todo(es: seq<Atom>): (r: seq<Item>)
    ensures |r| == |es|
  {
    if es == [] then [] else Todo(es[1..]) + [Enter(es[0])]
  }

  predicate Ready(stack: seq<Item>, built: nat) {
    if stack == [] then true
    else
      var rest := stack[..|stack| - 1];
      match stack[|stack| - 1]
      case Enter(_) => Ready(rest, built + 1)
      case Pending(_, _, _, w) => w <= built && Ready(rest, built - w + 1)
  }

  /** What working off the stack would answer, by the recursive reading. */
  function Finish(stack: seq<Item>, built: seq<Node>, say: Spelling): Result<seq<Node>>
    requires Ready(stack, |built|)
  {
    if stack == [] then Ok(built)
    else
      var rest := stack[..|stack| - 1];
      match stack[|stack| - 1]
      case Pending(call, answer, equation, w) =>
        Finish(rest, built[..|built| - w] + [Step(call, answer, equation, built[|built| - w..])], say)
      case Enter(e) =>
        match ReadNode(e, say)
        case Err(error) => Err(error)
        case Ok(node) => Finish(rest, built + [node], say)
  }

  /** Going on with what was read, or stopping with its error. */
  function Onward(read: Result<Node>, rest: seq<Item>, built: seq<Node>, say: Spelling): Result<seq<Node>>
    requires Ready(rest, |built| + 1)
  {
    match read
    case Err(error) => Err(error)
    case Ok(node) => Finish(rest, built + [node], say)
  }

  function OnwardAll(read: Result<seq<Node>>, rest: seq<Item>, built: seq<Node>, say: Spelling): Result<seq<Node>>
    requires read.Ok? ==> Ready(rest, |built| + |read.value|)
  {
    match read
    case Err(error) => Err(error)
    case Ok(nodes) => Finish(rest, built + nodes, say)
  }

  function Load(stack: seq<Item>): nat {
    if stack == [] then 0
    else Load(stack[..|stack| - 1]) + match stack[|stack| - 1] case Enter(e) => 2 * Size(e) case Pending(_, _, _, _) => 1
  }

  lemma Pushed(rest: seq<Item>, e: Atom, built: seq<Node>, say: Spelling)
    ensures var stack := rest + [Enter(e)];
            && (Ready(stack, |built|) <==> Ready(rest, |built| + 1))
            && (Ready(rest, |built| + 1) ==>
                  Finish(stack, built, say) == Onward(ReadNode(e, say), rest, built, say))
            && Load(stack) == Load(rest) + 2 * Size(e)
  {
    hide ReadNode;
    var stack := rest + [Enter(e)];
    assert stack[..|stack| - 1] == rest;
  }

  /** Pushing child atoms is the same as reading them all and going on. */
  lemma {:induction false} TodoMeans(rest: seq<Item>, es: seq<Atom>, built: seq<Node>, say: Spelling)
    ensures Ready(rest + Todo(es), |built|) <==> Ready(rest, |built| + |es|)
    ensures ReadAll(es, say).Ok? ==> |ReadAll(es, say).value| == |es|
    ensures Ready(rest, |built| + |es|) ==>
              Finish(rest + Todo(es), built, say) == OnwardAll(ReadAll(es, say), rest, built, say)
    ensures Load(rest + Todo(es)) == Load(rest) + 2 * SizeAll(es)
    decreases |es|
  {
    hide Ready, Finish, Load, ReadNode, Size;
    if es == [] {
      assert rest + Todo(es) == rest && built + [] == built;
    } else {
      assert rest + Todo(es) == rest + Todo(es[1..]) + [Enter(es[0])];
      Pushed(rest + Todo(es[1..]), es[0], built, say);
      match ReadNode(es[0], say) {
        case Err(_) =>
          TodoMeans(rest, es[1..], built + [Builtin("")], say);
        case Ok(node) =>
          TodoMeans(rest, es[1..], built + [node], say);
          match ReadAll(es[1..], say) {
            case Err(_) =>
            case Ok(nodes) => assert built + [node] + nodes == built + ([node] + nodes);
          }
      }
    }
  }

  lemma Expands(rest: seq<Item>, e: Atom, built: seq<Node>, say: Spelling)
    requires Headed(e, "step") && StepRow(e).Ok? && Ready(rest, |built| + 1)
    ensures var row := StepRow(e).value;
            var stack := rest + [Pending(row.0, row.1, row.2, |ChildAtoms(e)|)] + Todo(ChildAtoms(e));
            && Ready(stack, |built|) && Load(stack) < Load(rest) + 2 * Size(e)
            && Finish(stack, built, say) == Onward(ReadNode(e, say), rest, built, say)
  {
    var row, es := StepRow(e).value, ChildAtoms(e);
    var under := rest + [Pending(row.0, row.1, row.2, |es|)];
    assert under[..|under| - 1] == rest;
    TodoMeans(under, es, built, say);
    match ReadAll(es, say) {
      case Err(_) =>
      case Ok(nodes) =>
        var all := built + nodes;
        assert all[..|all| - |es|] == built && all[|all| - |es|..] == nodes;
    }
  }

  lemma Pops(stack: seq<Item>, built: seq<Node>, say: Spelling)
    requires stack != [] && Ready(stack, |built|)
    ensures var rest := stack[..|stack| - 1];
            match stack[|stack| - 1]
            case Enter(e) =>
              && Ready(rest, |built| + 1) && Load(stack) == Load(rest) + 2 * Size(e) && Load(rest) < Load(stack)
              && Finish(stack, built, say) == Onward(ReadNode(e, say), rest, built, say)
            case Pending(call, answer, equation, w) =>
              && w <= |built| && Ready(rest, |built| - w + 1) && Load(rest) < Load(stack)
              && Finish(stack, built, say) ==
                 Finish(rest, built[..|built| - w] + [Step(call, answer, equation, built[|built| - w..])], say)
  {
    hide ReadNode;
  }

  lemma Starts(es: seq<Atom>, say: Spelling)
    ensures Ready(Todo(es), 0) && Finish(Todo(es), [], say) == ReadAll(es, say)
  {
    TodoMeans([], es, [], say);
    assert [] + Todo(es) == Todo(es);
    if ReadAll(es, say).Ok? { assert [] + ReadAll(es, say).value == ReadAll(es, say).value; }
  }

  lemma Stops(built: seq<Node>, say: Spelling)
    ensures Ready([], |built|) && Finish([], built, say) == Ok(built)
  {
  }

  /** The parser: post-order over an explicit stack, the same answer as the reading. */
  method Nodes(es: seq<Atom>, say: Spelling) returns (r: Result<seq<Node>>)
    ensures r == ReadAll(es, say)
  {
    hide Ready, Finish, Load, ReadAll, Size, Todo, StepRow, LeafOf, ChildAtoms, Headed;
    var stack, built: seq<Node> := Todo(es), [];
    Starts(es, say);
    while stack != []
      invariant Ready(stack, |built|) && Finish(stack, built, say) == ReadAll(es, say)
      decreases Load(stack)
    {
      Pops(stack, built, say);
      var rest := stack[..|stack| - 1];
      match stack[|stack| - 1] {
        case Pending(call, answer, equation, w) =>
          built := built[..|built| - w] + [Step(call, answer, equation, built[|built| - w..])];
          stack := rest;
        case Enter(e) =>
          if Headed(e, "step") {
            match StepRow(e) {
              case Err(error) => return Err(error);
              case Ok((call, answer, equation)) =>
                Expands(rest, e, built, say);
                stack := rest + [Pending(call, answer, equation, |ChildAtoms(e)|)] + Todo(ChildAtoms(e));
            }
          } else {
            match LeafOf(e, say) {
              case Err(error) => return Err(error);
              case Ok(node) =>
                built := built + [node];
                stack := rest;
            }
          }
      }
    }
    Stops(built, say);
    return Ok(built);
  }

  // -------------------------------------------------- the former recursive conversion

  /** The reading without the rows' checks: None where it would raise. */
  function Unchecked(e: Atom, say: Spelling): Option<Node>
    decreases Size(e), 1
  {
    if e.Expression? && e.children != [] && AtomEq(e.children[0], Symbol("step")) then
      if |e.children| < 3 || !e.children[1].Expression? || |e.children[1].children| < 3 then None
      else
        SizeAllFrom(e.children, 3);
        match UncheckedAll(e.children[3..], say)
        case None => None
        case Some(children) =>
          Some(Step(e.children[1].children[1], e.children[1].children[2], e.children[2], children))
    else
      match LeafOf(e, say)
      case Err(_) => None
      case Ok(node) => Some(node)
  }

  function UncheckedAll(es: seq<Atom>, say: Spelling): Option<seq<Node>>
    decreases SizeAll(es), 2
  {
    if es == [] then Some([])
    else
      match Unchecked(es[0], say)
      case None => None
      case Some(node) =>
        match UncheckedAll(es[1..], say)
        case None => None
        case Some(nodes) => Some([node] + nodes)
  }

  /** Where every row is well formed, the former conversion builds the same tree. */
  lemma {:induction false} UncheckedAgrees(e: Atom, say: Spelling)
    requires ReadNode(e, say).Ok?
    ensures Unchecked(e, say) == Some(ReadNode(e, say).value)
    decreases Size(e), 1
  {
    if Headed(e, "step") { UncheckedAgreesAll(ChildAtoms(e), say); }
  }

  lemma {:induction false} UncheckedAgreesAll(es: seq<Atom>, say: Spelling)
    requires ReadAll(es, say).Ok?
    ensures UncheckedAll(es, say) == Some(ReadAll(es, say).value)
    decreases SizeAll(es), 2
  {
    if es != [] {
      UncheckedAgrees(es[0], say);
      UncheckedAgreesAll(es[1..], say);
    }
  }

  /** It also accepts rows the grammar refuses: here a call pair of three parts. */
  lemma UncheckedAcceptsMore(say: Spelling)
    ensures var x := Symbol("x");
            var e := Row("step", [Row("call", [x, x, x]), x]);
            ReadNode(e, say) == Err(MalformedRow("call", Row("call", [x, x, x]))) && Unchecked(e, say) == Some(Step(x, x, x, []))
  {
  }
}
