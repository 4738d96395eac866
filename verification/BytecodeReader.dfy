/**
 The readers of the interpreter that only move through bytecode: `skip_next`, `read_name`,
 `read_names` and `read_function_stub`. They stop exactly where the compiler's code ends.
 */
module BytecodeReader {
  import opened Bytes
  import opened BitStream
  import opened Bytecode

  // What the readers do, on the bytes that are still to be read.

  /** One thing that skip_next passes over; a count is followed by that many runs of `body`. */
  datatype Step =
    | OneWord
    | OneText
    | OneNode
    | Names
    | Counted(body: seq<Step>)

  /** The cases of skip_next: what follows a tag. */
  function Steps(tag: nat): Option<seq<Step>> {
    if tag in {PASS, BREAK, CONTINUE} then Some([])
    else if tag == NAME || tag == STRING then Some([OneText])
    else if tag == INTEGER then Some([OneWord])
    else if tag == FOR_LOOP then Some([Names, OneNode, OneNode])
    else if tag in {WHILE_LOOP, IF, ATTRIBUTE, SUBSCRIPT} then Some([OneNode, OneNode])
    else if tag == IF_ELSE then Some([OneNode, OneNode, OneNode])
    else if tag == INDEX || tag == RETURN then Some([OneNode])
    else if tag == ASSIGN || tag == CALL then Some([OneNode, Counted([OneNode])])
    else if tag in {STATEMENT_LIST, LIST, TUPLE} then Some([Counted([OneNode])])
    else if tag == DICTIONARY then Some([Counted([OneNode, OneNode])])
    else if tag == COMPARE then Some([OneNode, Counted([OneWord, OneNode])])
    else if tag == UNARY_OP then Some([OneWord, OneNode])
    else if tag == BOOL_OP then Some([OneWord, Counted([OneNode])])
    else if tag == AUGMENTED_ASSIGN || tag == BINARY_OP then Some([OneWord, OneNode, OneNode])
    else None
  }

  /** skip_next has no case for list comprehensions, imports, functions and declarations. */
  lemma StepsExactly(tag: nat)
    ensures Steps(tag).Some? <==> tag <= 26 && tag != 17 && tag != 18
  {
  }

  /** read_name: a name or a string, and what follows it. */
  function ReadName(s: seq<byte>): (r: Option<(seq<byte>, seq<byte>)>) {
    match ReadU32(s)
    case None => None
    case Some((tag, rest)) => if tag == NAME || tag == STRING then ReadText(rest) else None
  }

  /** read_names: a name or a pair of names. */
  function ReadNames(s: seq<byte>): (r: Option<(seq<seq<byte>>, seq<byte>)>) {
    match ReadU32(s)
    case None => None
    case Some((tag, rest)) =>
      if tag == NAME || tag == STRING then
        match ReadText(rest)
        case None => None
        case Some((name, after)) => Some(([name], after))
      else if tag == TUPLE then
        match ReadU32(rest)
        case None => None
        case Some((count, first)) =>
          if count != 2 then None
          else match ReadName(first)
            case None => None
            case Some((a, second)) =>
              match ReadName(second)
              case None => None
              case Some((b, after)) => Some(([a, b], after))
      else None
  }

  /** Names and strings take at least a word. */
  lemma ReadersAdvance(s: seq<byte>)
    ensures ReadU32(s).Some? ==> |ReadU32(s).value.1| + 4 == |s|
    ensures ReadText(s).Some? ==> |ReadText(s).value.1| + 4 <= |s|
    ensures ReadName(s).Some? ==> |ReadName(s).value.1| + 8 <= |s|
    ensures ReadNames(s).Some? ==> |ReadNames(s).value.1| + 8 <= |s|
  {
    hide WordOf;
  }

  /** skip_next: what follows the node at the start of s; None where it throws. */
  ghost function Skip(s: seq<byte>): (r: Option<seq<byte>>)
    ensures r.Some? ==> |r.value| + 4 <= |s|
    decreases |s|, 0, 0
  {
    ReadersAdvance(s);
    match ReadU32(s)
    case None => None
    case Some((tag, rest)) =>
      match Steps(tag)
      case None => None
      case Some(steps) => SkipSteps(steps, rest)
  }

  ghost function SkipSteps(steps: seq<Step>, s: seq<byte>): (r: Option<seq<byte>>)
    ensures r.Some? ==> |r.value| <= |s|
    decreases |s|, 2, |steps|
  {
    if steps == [] then Some(s)
    else match SkipStep(steps[0], s)
      case None => None
      case Some(rest) => SkipSteps(steps[1..], rest)
  }

  ghost function SkipStep(step: Step, s: seq<byte>): (r: Option<seq<byte>>)
    ensures r.Some? ==> |r.value| <= |s|
    decreases |s|, 1, 0
  {
    ReadersAdvance(s);
    match step
    case OneWord => (match ReadU32(s) case None => None case Some((_, rest)) => Some(rest))
    case OneText => (match ReadText(s) case None => None case Some((_, rest)) => Some(rest))
    case OneNode => Skip(s)
    case Names => (match ReadNames(s) case None => None case Some((_, rest)) => Some(rest))
    case Counted(body) => (match ReadU32(s) case None => None case Some((n, rest)) => SkipMany(body, n, rest))
  }

  ghost function SkipMany(body: seq<Step>, n: nat, s: seq<byte>): (r: Option<seq<byte>>)
    ensures r.Some? ==> |r.value| <= |s|
    decreases |s|, 3, n
  {
    if n == 0 then Some(s)
    else match SkipSteps(body, s)
      case None => None
      case Some(rest) => SkipMany(body, n - 1, rest)
  }

  // What the compiler writes and skip_next handles.

  predicate IsName(ast: Ast) {
    ast.Name? || ast.Str?
  }

  /** The node whose code this is: an expression statement has the code of its expression. */
  function Bare(ast: Ast): (r: Ast)
    ensures !r.ExpressionStatement?
  {
    if ast.ExpressionStatement? then Bare(ast.expr) else ast
  }

  /** What a loop may run over: a name or a pair of names. */
  predicate IsTarget(ast: Ast) {
    var a := Bare(ast);
    IsName(a) || (a.Tuple? && |a.elements| == 2 && IsName(Bare(a.elements[0])) && IsName(Bare(a.elements[1])))
  }

  /** The kinds of node that skip_next has a case for. */
  predicate Handled(ast: Ast) {
    match ast
    case Pass => true
    case Continue => true
    case Break => true
    case Name(_) => true
    case Str(_) => true
    case Integer(_) => true
    case Assign(_, _) => true
    case Suite(_) => true
    case Return(_) => true
    case Dict(_) => true
    case Compare(_, _) => true
    case If(_, _, _) => true
    case Call(_, _) => true
    case Attribute(_, _) => true
    case UnaryOp(_, _) => true
    case BoolOp(_, _) => true
    case BinOp(_, _, _) => true
    case List(_) => true
    case Tuple(_) => true
    case Subscript(_, _) => true
    case Index(_) => true
    case For(_, _, _) => true
    case While(_, _) => true
    case AugAssign(_, _, _) => true
    case ExpressionStatement(_) => true
    case _ => false
  }

  /** The node and everything below it is of those kinds, and loops run over names. */
  ghost predicate Skippable(ast: Ast)
    decreases ast, 1
  {
    Handled(ast) && forall i :: 0 <= i < |Cells(ast)| ==> SkippableCell(ast, i)
  }

  ghost predicate SkippableCell(ast: Ast, i: nat)
    requires i < |Cells(ast)|
    decreases ast, 0
  {
    if ast.For? && i == 1 then IsTarget(ast.target)
    else match Cells(ast)[i]
      case Child(a) => CellSmaller(ast, i); Skippable(a)
      case Slot(a) => CellSmaller(ast, i); a == Null || Skippable(a)
      case _ => true
  }

  /** The cells from i to j are skippable. */
  ghost predicate SkippableRange(ast: Ast, i: nat, j: nat)
    requires i <= j <= |Cells(ast)|
  {
    forall k :: i <= k < j ==> SkippableCell(ast, k)
  }

  /** The cell is written as what the step passes over. */
  ghost predicate CellFits(ast: Ast, i: nat, step: Step)
    requires i < |Cells(ast)|
  {
    match step
    case OneWord => Cells(ast)[i].Word?
    case OneText => Cells(ast)[i].Text?
    case OneNode => (Cells(ast)[i].Child? || Cells(ast)[i].Slot?) && !(ast.For? && i == 1)
    case Names => ast.For? && i == 1
    case Counted(_) => false
  }

  /** From index i on, the cells come in the order of the steps. */
  ghost predicate Fits(ast: Ast, i: nat, steps: seq<Step>)
    requires i <= |Cells(ast)|
    decreases |steps|
  {
    if steps == [] then i == |Cells(ast)|
    else if i == |Cells(ast)| then false
    else match steps[0]
      case Counted(body) => |steps| == 1 && FitsMany(ast, i, body)
      case step => CellFits(ast, i, step) && Fits(ast, i + 1, steps[1..])
  }

  /** A count at index i and then that many runs of cells. */
  ghost predicate FitsMany(ast: Ast, i: nat, body: seq<Step>)
    requires i < |Cells(ast)|
  {
    && Cells(ast)[i].Word? && 1 <= |body| <= 2
    && |Cells(ast)| - (i + 1) == (if |body| == 1 then Cells(ast)[i].n else 2 * Cells(ast)[i].n)
    && (|body| == 1 ==> forall c :: i < c < |Cells(ast)| ==> CellFits(ast, c, body[0]))
    && (|body| == 2 ==> forall t: nat :: i + 2 + 2 * t < |Cells(ast)| ==>
          CellFits(ast, i + 1 + 2 * t, body[0]) && CellFits(ast, i + 2 + 2 * t, body[1]))
  }

  /** A node's tag, and the steps after it. */
  ghost predicate Tagged(ast: Ast) {
    && |Cells(ast)| > 0 && Cells(ast)[0].Word? && Cells(ast)[0].n < 0x1_0000_0000
    && Steps(Cells(ast)[0].n).Some? && Fits(ast, 1, Steps(Cells(ast)[0].n).value)
  }

  lemma LeafTagged(ast: Ast)
    requires ast.Pass? || ast.Continue? || ast.Break? || ast.Name? || ast.Str? || ast.Integer?
    ensures Tagged(ast)
  {
  }

  lemma BranchTagged(ast: Ast)
    requires ast.Return? || ast.If? || ast.Attribute? || ast.Subscript? || ast.Index?
    ensures Tagged(ast)
  {
  }

  lemma LoopTagged(ast: Ast)
    requires ast.For? || ast.While?
    ensures Tagged(ast)
  {
  }

  lemma OperatorTagged(ast: Ast)
    requires ast.UnaryOp? || ast.BinOp? || ast.AugAssign?
    ensures Tagged(ast)
  {
  }

  /** A count and that many trees, up to the last cell. */
  lemma ListRuns(ast: Ast, i: nat)
    requires !ast.For? && i < |Cells(ast)| && Cells(ast)[i].Word? && |Cells(ast)| == i + 1 + Cells(ast)[i].n
    requires forall c :: i < c < |Cells(ast)| ==> Cells(ast)[c].Child? || Cells(ast)[c].Slot?
    ensures Fits(ast, i, [Counted([OneNode])])
  {
    hide Cells;
  }

  lemma TaggedIs(ast: Ast)
    requires |Cells(ast)| > 0 && Cells(ast)[0].Word? && Cells(ast)[0].n < 0x1_0000_0000
    requires Steps(Cells(ast)[0].n).Some? && Fits(ast, 1, Steps(Cells(ast)[0].n).value)
    ensures Tagged(ast)
  {
    hide Cells, Fits, Steps;
  }

  lemma PlainListCells(ast: Ast)
    requires ast.Suite? || ast.List? || ast.Tuple?
    ensures var cells := Cells(ast);
      && |cells| >= 2 && cells[0].Word? && cells[0].n < 0x1_0000_0000
      && Steps(cells[0].n) == Some([Counted([OneNode])])
      && cells[1].Word? && |cells| == 2 + cells[1].n
      && forall c :: 1 < c < |cells| ==> cells[c].Child? || cells[c].Slot?
  {
  }

  /** Suites and lists: the tag and the list. */
  lemma PlainListTagged(ast: Ast)
    requires ast.Suite? || ast.List? || ast.Tuple?
    ensures Tagged(ast)
  {
    hide *;
    PlainListCells(ast);
    ListRuns(ast, 1);
    TaggedIs(ast);
  }

  lemma NodeAndListCells(ast: Ast)
    requires ast.Assign? || ast.Call?
    ensures var cells := Cells(ast);
      && |cells| >= 3 && cells[0].Word? && cells[0].n < 0x1_0000_0000
      && Steps(cells[0].n) == Some([OneNode, Counted([OneNode])])
      && cells[1].Child? && cells[2].Word? && |cells| == 3 + cells[2].n
      && forall c :: 2 < c < |cells| ==> cells[c].Child? || cells[c].Slot?
  {
  }

  lemma NodeFits(ast: Ast, i: nat)
    requires i < |Cells(ast)| && Cells(ast)[i].Child? && !ast.For?
    ensures CellFits(ast, i, OneNode)
  {
    hide Cells;
  }

  /** Assignments and calls: the tag, a node and the list. */
  lemma NodeAndListTagged(ast: Ast)
    requires ast.Assign? || ast.Call?
    ensures Tagged(ast)
  {
    hide *;
    NodeAndListCells(ast);
    NodeFits(ast, 1);
    ListRuns(ast, 2);
    FitsOneMore(ast, 1, [OneNode, Counted([OneNode])]);
    TaggedIs(ast);
  }

  /** A bare boolean operator: the tag, the operator and an empty list. */
  lemma BareOperatorTagged(ast: Ast)
    requires ast.BoolOp? && ast.values == []
    ensures Tagged(ast)
  {
    OperandCells(ast);
    ListRuns(ast, 2);
    var steps := [OneWord, Counted([OneNode])];
    assert Cells(ast)[..3][0] == Cells(ast)[0] && Cells(ast)[..3][1] == Cells(ast)[1];
    assert Steps(BOOL_OP) == Some(steps);
    FitsOneMore(ast, 1, steps);
    hide Fits, Cells;
  }

  lemma FitsOneMore(ast: Ast, i: nat, steps: seq<Step>)
    requires steps != [] && i < |Cells(ast)| && CellFits(ast, i, steps[0]) && Fits(ast, i + 1, steps[1..])
    ensures Fits(ast, i, steps)
  {
    hide Cells;
  }

  lemma ListTagged(ast: Ast)
    requires ast.Assign? || ast.Suite? || ast.Call? || ast.List? || ast.Tuple? || (ast.BoolOp? && ast.values == [])
    ensures Tagged(ast)
  {
    hide *;
    if ast.BoolOp? {
      BareOperatorTagged(ast);
    } else if ast.Assign? || ast.Call? {
      NodeAndListTagged(ast);
    } else {
      PlainListTagged(ast);
    }
  }

  lemma DictTagged(ast: Ast)
    requires ast.Dict?
    ensures Tagged(ast)
  {
  }

  /** Where the operators and operands of a comparison are. */
  lemma CompareCells(ast: Ast)
    requires ast.Compare?
    ensures var cells, n := Cells(ast), |ast.comparisons|;
      && |cells| == 3 + 2 * n && cells[0] == Word(COMPARE) && cells[1].Child? && cells[2] == Word(n)
      && forall t: nat :: t < n ==> cells[3 + 2 * t].Word? && cells[4 + 2 * t].Child?
  {
    var n, list := |ast.comparisons|, Comparisons(ast.comparisons);
    assert Cells(ast) == [Word(COMPARE), Child(ast.left), Word(n)] + list;
    hide Cells, Comparisons;
    forall t: nat | t < n ensures Cells(ast)[3 + 2 * t].Word? && Cells(ast)[4 + 2 * t].Child? {
      assert list[2 * t].Word? && list[2 * t + 1].Child?;
    }
  }

  lemma CompareSteps()
    ensures Steps(COMPARE) == Some([OneNode, Counted([OneWord, OneNode])]) && COMPARE < 0x1_0000_0000
  {
  }

  /** The operators and operands come in runs of two. */
  lemma CompareRuns(ast: Ast)
    requires ast.Compare? && |Cells(ast)| > 2
    ensures FitsMany(ast, 2, [OneWord, OneNode])
  {
    CompareCells(ast);
    hide Cells, Steps;
    forall t: nat | 4 + 2 * t < |Cells(ast)|
      ensures CellFits(ast, 3 + 2 * t, OneWord) && CellFits(ast, 4 + 2 * t, OneNode)
    {
      assert t < |ast.comparisons|;
    }
  }

  lemma CompareTagged(ast: Ast)
    requires ast.Compare?
    ensures Tagged(ast)
  {
    CompareCells(ast);
    CompareSteps();
    CompareRuns(ast);
    hide Cells, Steps, FitsMany;
    var steps := [OneNode, Counted([OneWord, OneNode])];
    assert CellFits(ast, 1, steps[0]);
    assert Fits(ast, 2, steps[1..]);
    assert Fits(ast, 1, steps);
  }

  /** Every kind of node that skip_next handles is written as its cases expect, if it is. */
  lemma HandledIsTagged(ast: Ast)
    requires Handled(ast) && !ast.ExpressionStatement? && (ast.BoolOp? ==> ast.values == [])
    ensures Tagged(ast)
  {
    hide Tagged;
    match ast {
      case Pass => LeafTagged(ast);
      case Continue => LeafTagged(ast);
      case Break => LeafTagged(ast);
      case Name(_) => LeafTagged(ast);
      case Str(_) => LeafTagged(ast);
      case Integer(_) => LeafTagged(ast);
      case Assign(_, _) => ListTagged(ast);
      case Suite(_) => ListTagged(ast);
      case Call(_, _) => ListTagged(ast);
      case BoolOp(_, _) => ListTagged(ast);
      case List(_) => ListTagged(ast);
      case Tuple(_) => ListTagged(ast);
      case Dict(_) => DictTagged(ast);
      case Compare(_, _) => CompareTagged(ast);
      case UnaryOp(_, _) => OperatorTagged(ast);
      case BinOp(_, _, _) => OperatorTagged(ast);
      case AugAssign(_, _, _) => OperatorTagged(ast);
      case For(_, _, _) => LoopTagged(ast);
      case While(_, _) => LoopTagged(ast);
      case _ => BranchTagged(ast);
    }
  }

  // Code is at least a word for every cell.

  lemma {:induction false} RangeMinimum(ast: Ast, i: nat, j: nat)
    requires i <= j <= |Cells(ast)| && EmitsRange(ast, i, j)
    ensures |CodeRange(ast, i, j)| >= 4 * (j - i)
    decreases ast, 1, j
  {
    hide *;
    NoRange(ast, i);
    if i < j {
      RangeNext(ast, i, j - 1);
      RangeMinimum(ast, i, j - 1);
      CellMinimum(ast, j - 1);
    }
  }

  lemma CellMinimum(ast: Ast, i: nat)
    requires i < |Cells(ast)| && EmitsCell(ast, i)
    ensures |CellCode(ast, i)| >= 4
    decreases ast, 0, 0
  {
    hide *;
    CellCodeIs(ast, i);
    match Cells(ast)[i] {
      case Word(n) =>
      case Text(t) => TextMinimum(t);
      case Child(a) => CellSmaller(ast, i); TreeIs(Cells(ast)[i]); CodeMinimum(a);
      case Slot(a) =>
        CellSmaller(ast, i);
        TreeIs(Cells(ast)[i]);
        if a != Null {
          CodeMinimum(a);
        }
      case LengthOf(a) =>
      case Misread(a) =>
    }
  }

  lemma TextMinimum(t: seq<byte>)
    ensures |TextCode(t)| == 4 + |t|
  {
  }

  lemma CodeMinimum(ast: Ast)
    requires Emits(ast)
    ensures |Code(ast)| >= 4 && |Code(ast)| >= 4 * |Cells(ast)|
    decreases ast, 2, 0
  {
    hide *;
    CodeIs(ast);
    SomeCell(ast);
    RangeMinimum(ast, 0, |Cells(ast)|);
  }

  lemma SomeCell(ast: Ast)
    requires ast != Null && ast != Unsupported && ast != OtherNumber
    ensures |Cells(ast)| > 0
  {
  }

  // Skipping.

  lemma SkipStepsNone(s: seq<byte>)
    ensures SkipSteps([], s) == Some(s)
  {
  }

  /** What a reader that either succeeds or throws comes to. */
  ghost function Verdict(ok: bool, rest: seq<byte>): Option<seq<byte>> {
    if ok then Some(rest) else None
  }

  lemma SkipStepsNext(steps: seq<Step>, s: seq<byte>, ok: bool, rest: seq<byte>)
    requires steps != [] && SkipStep(steps[0], s) == Verdict(ok, rest)
    ensures SkipSteps(steps, s) == if ok then SkipSteps(steps[1..], rest) else None
  {
    hide SkipStep;
  }

  lemma SkipTagged(tag: nat, rest: seq<byte>)
    requires tag < 0x1_0000_0000
    ensures Skip(U32(tag) + rest) == match Steps(tag) { case None => None case Some(steps) => SkipSteps(steps, rest) }
  {
    hide Steps, U32, SkipSteps;
    ReadWritten(tag, rest);
  }

  lemma SkipNodeIs(s: seq<byte>)
    ensures SkipStep(OneNode, s) == Skip(s)
  {
  }

  /** A node that is emitted, and not too large. */
  ghost predicate Sound(ast: Ast) {
    Emits(ast) && |Code(ast)| < 0x1_0000_0000
  }

  lemma CellSize(ast: Ast, i: nat)
    requires i < |Cells(ast)| && Emits(ast)
    ensures |CellCode(ast, i)| <= |Code(ast)| && EmitsCell(ast, i)
  {
    hide *;
    CodeIs(ast);
    NoRange(ast, i);
    RangeNext(ast, i, i);
    RangeSplits(ast, 0, i, |Cells(ast)|);
    RangeSplits(ast, i, i + 1, |Cells(ast)|);
  }

  /** What follows for a cell of a sound node. */
  lemma CellFacts(ast: Ast, i: nat, step: Step)
    requires i < |Cells(ast)| && CellFits(ast, i, step) && Sound(ast)
    ensures |CellCode(ast, i)| < 0x1_0000_0000 && EmitsCell(ast, i) && !step.Counted?
    ensures step == OneWord ==> Cells(ast)[i].Word?
    ensures step == OneText ==> Cells(ast)[i].Text?
    ensures step == OneWord || step == OneText ==> SkippableCell(ast, i)
    ensures step == Names ==> Cells(ast)[i].Child? && (SkippableCell(ast, i) <==> IsTarget(Cells(ast)[i].ast))
    ensures step == OneNode ==> Cells(ast)[i].Child? || Cells(ast)[i].Slot?
    ensures step == OneNode ==>
      (SkippableCell(ast, i) <==>
        (Cells(ast)[i].Slot? && Cells(ast)[i].ast == Null) || Skippable(Cells(ast)[i].ast))
  {
    hide *;
    SoundFacts(ast);
    CellSize(ast, i);
    FitFacts(ast, i, step);
    SkippableCellIs(ast, i);
    if ast.For? {
      ForTarget(ast);
    }
  }

  lemma FitFacts(ast: Ast, i: nat, step: Step)
    requires i < |Cells(ast)| && CellFits(ast, i, step)
    ensures !step.Counted?
    ensures step == OneWord ==> Cells(ast)[i].Word?
    ensures step == OneText ==> Cells(ast)[i].Text?
    ensures step == Names ==> ast.For? && i == 1
    ensures step == OneNode ==> (Cells(ast)[i].Child? || Cells(ast)[i].Slot?) && !(ast.For? && i == 1)
  {
    hide Cells;
  }

  lemma SkippableCellIs(ast: Ast, i: nat)
    requires i < |Cells(ast)|
    ensures ast.For? && i == 1 ==> (SkippableCell(ast, i) <==> IsTarget(ast.target))
    ensures !(ast.For? && i == 1) ==>
      match Cells(ast)[i]
      case Child(a) => SkippableCell(ast, i) <==> Skippable(a)
      case Slot(a) => SkippableCell(ast, i) <==> a == Null || Skippable(a)
      case _ => SkippableCell(ast, i)
  {
    hide Cells, Skippable, IsTarget;
  }

  lemma ForTarget(ast: Ast)
    requires ast.For?
    ensures |Cells(ast)| == 4 && Cells(ast)[1] == Child(ast.target)
  {
  }

  /** A child of a sound node is sound, or is an absent expression. */
  lemma ChildSound(ast: Ast, i: nat)
    requires i < |Cells(ast)| && (Cells(ast)[i].Child? || Cells(ast)[i].Slot?)
    requires EmitsCell(ast, i) && |CellCode(ast, i)| < 0x1_0000_0000
    ensures Cells(ast)[i].ast == Null ==> Cells(ast)[i].Slot? && CellCode(ast, i) == U32(PASS)
    ensures Cells(ast)[i].ast != Null ==> Sound(Cells(ast)[i].ast) && CellCode(ast, i) == Code(Cells(ast)[i].ast)
  {
    hide Cells, Code, U32;
    CellCodeIs(ast, i);
    NullFails();
    hide CellCode, EmitsCell, Emits;
  }

  lemma SkipWord(n: nat, rest: seq<byte>)
    ensures SkipStep(OneWord, U32(n) + rest) == Some(rest)
  {
    hide U32, ReadU32;
    ReadWritten(n, rest);
  }

  lemma SkipText(text: seq<byte>, rest: seq<byte>)
    requires |TextCode(text)| < 0x1_0000_0000
    ensures SkipStep(OneText, TextCode(text) + rest) == Some(rest)
  {
    TextMinimum(text);
    hide TextCode, ReadText;
    ReadWrittenText(text, rest);
  }

  function NameTag(ast: Ast): nat {
    if ast.Name? then NAME else STRING
  }

  /** The string that a name or a string is written as. */
  function NameText(ast: Ast): seq<byte>
    requires IsName(ast)
  {
    if ast.Name? then CStr(ast.id) else CStr(ast.text)
  }

  lemma NameCode(ast: Ast)
    requires IsName(ast)
    ensures Code(ast) == U32(NameTag(ast)) + TextCode(NameText(ast)) && Emits(ast)
  {
    assert |Cells(ast)| == 2 && Cells(ast)[0] == Word(NameTag(ast)) && Cells(ast)[1] == Text(NameText(ast));
    var tag, text := NameTag(ast), NameText(ast);
    hide *;
    TwoCells(ast);
    CellCodeIs(ast, 0);
    CellCodeIs(ast, 1);
    NotNull(ast);
  }

  lemma NotNull(ast: Ast)
    requires IsName(ast)
    ensures ast != Null && ast != Unsupported && ast != OtherNumber
  {
  }

  lemma TwoCells(ast: Ast)
    requires |Cells(ast)| == 2
    ensures Code(ast) == CellCode(ast, 0) + CellCode(ast, 1)
    ensures Emits(ast) <==>
      ast != Null && ast != Unsupported && ast != OtherNumber && EmitsCell(ast, 0) && EmitsCell(ast, 1)
  {
    hide *;
    CodeIs(ast);
    NoRange(ast, 0);
    RangeNext(ast, 0, 0);
    RangeNext(ast, 0, 1);
    assert [] + CellCode(ast, 0) == CellCode(ast, 0);
  }

  // Tags.

  /** The word that a node's code starts with. */
  function Tag(ast: Ast): nat {
    if Cells(ast) != [] && Cells(ast)[0].Word? then Cells(ast)[0].n else 0
  }

  lemma TagValues(ast: Ast)
    requires ast != Null && ast != Unsupported && ast != OtherNumber && !ast.ExpressionStatement?
    ensures |Cells(ast)| > 0 && Cells(ast)[0] == Word(Tag(ast)) && Tag(ast) < 0x1_0000_0000
    ensures Tag(ast) == NAME <==> ast.Name?
    ensures Tag(ast) == STRING <==> ast.Str?
    ensures Tag(ast) == TUPLE <==> ast.Tuple?
    ensures ast.Tuple? ==> |Cells(ast)| > 1 && Cells(ast)[1] == Word(|ast.elements|)
  {
    TagCell(ast);
    hide Cells;
  }

  lemma TagCell(ast: Ast)
    requires ast != Null && ast != Unsupported && ast != OtherNumber && !ast.ExpressionStatement?
    ensures |Cells(ast)| > 0 && Cells(ast)[0] == Word(Tag(ast))
    ensures ast.Tuple? ==> |Cells(ast)| > 1 && Cells(ast)[1] == Word(|ast.elements|)
  {
  }

  lemma HandledTags(ast: Ast)
    requires ast != Null && ast != Unsupported && ast != OtherNumber && !ast.ExpressionStatement?
    ensures Steps(Tag(ast)).Some? <==> Handled(ast)
  {
  }

  /** What is known of a node that is emitted and is no expression statement. */
  lemma EmittedFacts(ast: Ast, rest: seq<byte>)
    requires Emits(ast) && !ast.ExpressionStatement?
    ensures ast != Null && ast != Unsupported && ast != OtherNumber && (ast.BoolOp? ==> ast.values == [])
    ensures |Cells(ast)| > 0 && Cells(ast)[0] == Word(Tag(ast)) && Tag(ast) < 0x1_0000_0000
    ensures Code(ast) + rest == U32(Tag(ast)) + (CodeRange(ast, 1, |Cells(ast)|) + rest)
  {
    hide *;
    CodeIs(ast);
    TagValues(ast);
    CellCodeIs(ast, 0);
    FirstOfRange(ast, 0, rest);
    if ast.BoolOp? {
      OnlyBareEmitted(ast);
    }
  }

  /** An expression statement has the code of its expression. */
  lemma {:induction false} BareCode(ast: Ast)
    ensures Code(Bare(ast)) == Code(ast) && (Emits(Bare(ast)) <==> Emits(ast))
  {
    if ast.ExpressionStatement? {
      assert Cells(ast) == [Child(ast.expr)];
      hide *;
      BareIs(ast);
      BareCode(ast.expr);
      CodeIs(ast);
      NoRange(ast, 0);
      RangeNext(ast, 0, 0);
      CellCodeIs(ast, 0);
      assert [] + Code(ast.expr) == Code(ast.expr);
    }
  }

  lemma BareIs(ast: Ast)
    ensures Bare(ast) == if ast.ExpressionStatement? then Bare(ast.expr) else ast
  {
  }

  /** read_name reads back what is a name, and throws on anything else. */
  lemma ReadNameVerdict(ast: Ast, rest: seq<byte>)
    requires Sound(ast)
    ensures ReadName(Code(ast) + rest) == if IsName(Bare(ast)) then Some((NameText(Bare(ast)), rest)) else None
  {
    hide *;
    SoundFacts(ast);
    BareCode(ast);
    var a := Bare(ast);
    if IsName(a) {
      ReadNameCode(a, rest);
    } else {
      EmittedFacts(a, rest);
      TagValues(a);
      NotName(a);
      var after := CodeRange(a, 1, |Cells(a)|) + rest;
      ReadWritten(Tag(a), after);
      ReadNameFails(U32(Tag(a)) + after, Tag(a), after);
    }
  }

  lemma NotName(ast: Ast)
    requires !IsName(ast)
    ensures !ast.Name? && !ast.Str?
  {
  }

  lemma ReadNameFails(s: seq<byte>, tag: nat, rest: seq<byte>)
    requires ReadU32(s) == Some((tag, rest)) && tag != NAME && tag != STRING
    ensures ReadName(s) == None
  {
    hide ReadU32;
  }

  /** read_name reads back a name. */
  lemma ReadNameCode(ast: Ast, rest: seq<byte>)
    requires IsName(ast) && |Code(ast)| < 0x1_0000_0000
    ensures ReadName(Code(ast) + rest) == Some((NameText(ast), rest))
  {
    NameTagValue(ast);
    hide IsName, NameTag, NameText, Code, U32, TextCode, ReadU32, ReadText;
    NameCode(ast);
    var tag, text := NameTag(ast), NameText(ast);
    TextMinimum(text);
    ConcatAssociative(U32(tag), TextCode(text), rest);
    ReadWritten(tag, TextCode(text) + rest);
    ReadWrittenText(text, rest);
  }

  lemma NameTagValue(ast: Ast)
    ensures NameTag(ast) == NAME || NameTag(ast) == STRING
  {
  }

  lemma TupleCode(ast: Ast)
    requires ast.Tuple? && |ast.elements| == 2
    ensures Code(ast) == ((U32(TUPLE) + U32(2)) + Code(ast.elements[0])) + Code(ast.elements[1])
    ensures Emits(ast) ==> Emits(ast.elements[0]) && Emits(ast.elements[1])
  {
    var cells := Cells(ast);
    assert |cells| == 4 && cells[0] == Word(TUPLE) && cells[1] == Word(2);
    assert cells[2] == Child(ast.elements[0]) && cells[3] == Child(ast.elements[1]);
    hide *;
    CodeIs(ast);
    NoRange(ast, 0);
    RangeNext(ast, 0, 0);
    RangeNext(ast, 0, 1);
    RangeNext(ast, 0, 2);
    RangeNext(ast, 0, 3);
    CellCodeIs(ast, 0);
    CellCodeIs(ast, 1);
    CellCodeIs(ast, 2);
    CellCodeIs(ast, 3);
    assert [] + U32(TUPLE) == U32(TUPLE);
  }

  lemma NamesOfOne(s: seq<byte>)
    requires ReadName(s).Some?
    ensures ReadNames(s) == Some(([ReadName(s).value.0], ReadName(s).value.1))
  {
    hide ReadU32, ReadText;
  }

  lemma NamesOfTuple(s: seq<byte>, count: nat, s1: seq<byte>, s2: seq<byte>)
    requires ReadU32(s) == Some((TUPLE, s1)) && ReadU32(s1) == Some((count, s2))
    ensures count != 2 || ReadName(s2) == None ==> ReadNames(s) == None
    ensures count == 2 && ReadName(s2).Some? ==>
      var (a, s3) := ReadName(s2).value;
      ReadNames(s) == match ReadName(s3) { case None => None case Some((b, s4)) => Some(([a, b], s4)) }
  {
    hide ReadU32, ReadText, ReadName;
  }

  lemma NamesOfOther(s: seq<byte>, tag: nat, rest: seq<byte>)
    requires ReadU32(s) == Some((tag, rest)) && tag !in {NAME, STRING, TUPLE}
    ensures ReadNames(s) == None
  {
    hide ReadU32;
  }

  /** The names that a target stands for. */
  function TargetNames(ast: Ast): seq<seq<byte>>
    requires IsTarget(ast)
  {
    var a := Bare(ast);
    if IsName(a) then [NameText(a)] else [NameText(Bare(a.elements[0])), NameText(Bare(a.elements[1]))]
  }

  lemma TargetIs(ast: Ast)
    ensures !Bare(ast).ExpressionStatement?
    ensures IsName(Bare(ast)) ==> IsTarget(ast) && TargetNames(ast) == [NameText(Bare(ast))]
    ensures !IsName(Bare(ast)) && IsTarget(ast) ==> Bare(ast).Tuple? && |Bare(ast).elements| == 2
    ensures !IsName(Bare(ast)) && Bare(ast).Tuple? && |Bare(ast).elements| == 2 ==>
      var (a, b) := (Bare(Bare(ast).elements[0]), Bare(Bare(ast).elements[1]));
      && (IsTarget(ast) <==> IsName(a) && IsName(b))
      && (IsTarget(ast) ==> TargetNames(ast) == [NameText(a), NameText(b)])
  {
    hide IsName, NameText;
  }

  /** read_names reads back the target of a loop, and throws on anything else. */
  lemma ReadNamesCode(ast: Ast, rest: seq<byte>)
    requires Sound(ast)
    ensures ReadNames(Code(ast) + rest) == if IsTarget(ast) then Some((TargetNames(ast), rest)) else None
  {
    hide *;
    SoundFacts(ast);
    BareCode(ast);
    TargetIs(ast);
    var a := Bare(ast);
    if IsName(a) {
      ReadNameVerdict(ast, rest);
      NamesOfOne(Code(ast) + rest);
    } else if a.Tuple? && |a.elements| == 2 {
      ReadPair(a, rest);
    } else {
      NoNames(a, rest);
    }
  }

  /** Neither a name nor a pair. */
  lemma NoNames(ast: Ast, rest: seq<byte>)
    requires Emits(ast) && |Code(ast)| < 0x1_0000_0000 && !ast.ExpressionStatement?
    requires !IsName(ast) && !(ast.Tuple? && |ast.elements| == 2)
    ensures ReadNames(Code(ast) + rest) == None
  {
    hide *;
    EmittedFacts(ast, rest);
    TagValues(ast);
    NotName(ast);
    var after := CodeRange(ast, 1, |Cells(ast)|) + rest;
    ReadWritten(Tag(ast), after);
    if ast.Tuple? {
      FirstOfRange(ast, 1, rest);
      CellCodeIs(ast, 1);
      TupleCount(ast);
      ReadWritten(|ast.elements|, CodeRange(ast, 2, |Cells(ast)|) + rest);
      NamesOfTuple(Code(ast) + rest, |ast.elements|, after, CodeRange(ast, 2, |Cells(ast)|) + rest);
    } else {
      NamesOfOther(Code(ast) + rest, Tag(ast), after);
    }
  }

  /** A tuple has fewer elements than its code has bytes. */
  lemma TupleCount(ast: Ast)
    requires ast.Tuple? && Emits(ast) && |Code(ast)| < 0x1_0000_0000
    ensures |ast.elements| < 0x1_0000_0000
  {
    assert |Cells(ast)| == 2 + |ast.elements|;
    hide *;
    CodeMinimum(ast);
  }

  /** The two names of a pair, or the place where it is none. */
  lemma ReadPair(ast: Ast, rest: seq<byte>)
    requires ast.Tuple? && |ast.elements| == 2 && Emits(ast) && |Code(ast)| < 0x1_0000_0000
    ensures var a, b := ast.elements[0], ast.elements[1];
      ReadNames(Code(ast) + rest) ==
        if IsName(Bare(a)) && IsName(Bare(b)) then Some(([NameText(Bare(a)), NameText(Bare(b))], rest)) else None
  {
    hide *;
    TupleCode(ast);
    var x, y := ast.elements[0], ast.elements[1];
    var a, b := Code(x), Code(y);
    SoundIs(x);
    SoundIs(y);
    PairParts(U32(TUPLE), U32(2), a, b, rest);
    MarkerTuple();
    ReadWritten(TUPLE, U32(2) + (a + (b + rest)));
    ReadWritten(2, a + (b + rest));
    ReadNameVerdict(x, b + rest);
    ReadNameVerdict(y, rest);
    NamesOfTuple(Code(ast) + rest, 2, U32(2) + (a + (b + rest)), a + (b + rest));
  }

  lemma MarkerTuple()
    ensures TUPLE < 0x1_0000_0000
  {
  }

  lemma SoundIs(ast: Ast)
    requires Emits(ast) && |Code(ast)| < 0x1_0000_0000
    ensures Sound(ast)
  {
  }

  lemma PairParts(tag: seq<byte>, n: seq<byte>, a: seq<byte>, b: seq<byte>, rest: seq<byte>)
    ensures (((tag + n) + a) + b) + rest == tag + (n + (a + (b + rest)))
  {
  }

  lemma SkipNames(ast: Ast, rest: seq<byte>)
    requires Sound(ast)
    ensures SkipStep(Names, Code(ast) + rest) == Verdict(IsTarget(ast), rest)
  {
    hide Code, IsTarget, ReadNames, TargetNames, Sound;
    ReadNamesCode(ast, rest);
  }

  lemma PassSteps()
    ensures Steps(PASS) == Some([]) && PASS < 0x1_0000_0000
  {
  }

  /** A cell that fits a step is passed over by it, if it can be. */
  lemma {:induction false} SkipCell(ast: Ast, i: nat, step: Step, rest: seq<byte>)
    requires i < |Cells(ast)| && CellFits(ast, i, step) && Sound(ast)
    ensures SkipStep(step, CellCode(ast, i) + rest) == Verdict(SkippableCell(ast, i), rest)
    decreases ast, 0, 0
  {
    hide *;
    CellFacts(ast, i, step);
    CellCodeIs(ast, i);
    var cell := Cells(ast)[i];
    VerdictIs(SkippableCell(ast, i), rest);
    match step {
      case OneWord => SkipWord(cell.n, rest);
      case OneText => SkipText(cell.text, rest);
      case Names => ChildSound(ast, i); SkipNames(cell.ast, rest);
      case OneNode =>
        SkipNodeIs(CellCode(ast, i) + rest);
        ChildSound(ast, i);
        CellSmaller(ast, i);
        TreeIs(cell);
        if cell.ast == Null {
          PassSteps();
          SkipTagged(PASS, rest);
          SkipStepsNone(rest);
        } else {
          SkipCode(cell.ast, rest);
        }
      case Counted(_) =>
    }
  }

  lemma VerdictIs(ok: bool, rest: seq<byte>)
    ensures Verdict(ok, rest) == if ok then Some(rest) else None
  {
  }

  lemma FitsNext(ast: Ast, i: nat, steps: seq<Step>)
    requires i <= |Cells(ast)| && Fits(ast, i, steps)
    ensures steps == [] ==> i == |Cells(ast)|
    ensures steps != [] ==> i < |Cells(ast)|
    ensures steps != [] && !steps[0].Counted? ==> CellFits(ast, i, steps[0]) && Fits(ast, i + 1, steps[1..])
    ensures steps != [] && steps[0].Counted? ==> steps[1..] == [] && FitsMany(ast, i, steps[0].body)
  {
    hide Cells, CellFits, FitsMany;
  }

  lemma RangeSkippable(ast: Ast, i: nat, k: nat, j: nat)
    requires i <= k <= j <= |Cells(ast)|
    ensures SkippableRange(ast, i, j) <==> SkippableRange(ast, i, k) && SkippableRange(ast, k, j)
    ensures SkippableRange(ast, i, i)
    ensures j == i + 1 ==> (SkippableRange(ast, i, j) <==> SkippableCell(ast, i))
  {
    hide Cells, SkippableCell;
  }

  /** Cells that come in the order of the steps are passed over by them, if they can be. */
  lemma {:induction false} SkipCells(ast: Ast, i: nat, steps: seq<Step>, rest: seq<byte>)
    requires i <= |Cells(ast)| && Fits(ast, i, steps) && Sound(ast)
    ensures SkipSteps(steps, CodeRange(ast, i, |Cells(ast)|) + rest)
      == Verdict(SkippableRange(ast, i, |Cells(ast)|), rest)
    decreases ast, 2, |steps|
  {
    hide *;
    FitsNext(ast, i, steps);
    var n := |Cells(ast)|;
    VerdictIs(SkippableRange(ast, i, n), rest);
    if steps == [] {
      NoRange(ast, n);
      RangeSkippable(ast, n, n, n);
      assert [] + rest == rest;
      SkipStepsNone(rest);
    } else {
      FirstOfRange(ast, i, rest);
      var s := CodeRange(ast, i, n) + rest;
      if steps[0].Counted? {
        SkipCounted(ast, i, steps[0].body, rest);
        SkipStepsNext(steps, s, SkippableRange(ast, i, n), rest);
        SkipStepsNone(rest);
      } else {
        SkipCell(ast, i, steps[0], CodeRange(ast, i + 1, n) + rest);
        SkipStepsNext(steps, s, SkippableCell(ast, i), CodeRange(ast, i + 1, n) + rest);
        SkipCells(ast, i + 1, steps[1..], rest);
        VerdictIs(SkippableRange(ast, i + 1, n), rest);
        RangeSkippable(ast, i, i + 1, n);
        RangeSkippable(ast, i, i, i + 1);
      }
    }
  }

  lemma FirstOfRange(ast: Ast, i: nat, rest: seq<byte>)
    requires i < |Cells(ast)|
    ensures CodeRange(ast, i, |Cells(ast)|) + rest == CellCode(ast, i) + (CodeRange(ast, i + 1, |Cells(ast)|) + rest)
  {
    hide *;
    NoRange(ast, i);
    RangeNext(ast, i, i);
    RangeSplits(ast, i, i + 1, |Cells(ast)|);
    assert [] + CellCode(ast, i) == CellCode(ast, i);
    ConcatAssociative(CellCode(ast, i), CodeRange(ast, i + 1, |Cells(ast)|), rest);
  }

  /** A count and its runs of cells. */
  lemma {:induction false} SkipCounted(ast: Ast, i: nat, body: seq<Step>, rest: seq<byte>)
    requires i < |Cells(ast)| && FitsMany(ast, i, body) && Sound(ast)
    ensures SkipStep(Counted(body), CodeRange(ast, i, |Cells(ast)|) + rest)
      == Verdict(SkippableRange(ast, i, |Cells(ast)|), rest)
    decreases ast, 1, |Cells(ast)| + 1
  {
    hide *;
    FitsManyFacts(ast, i, body);
    SoundFacts(ast);
    CodeMinimum(ast);
    FirstOfRange(ast, i, rest);
    CellCodeIs(ast, i);
    var n := Cells(ast)[i].n;
    RunsAre(body, n);
    var s := CodeRange(ast, i + 1, |Cells(ast)|) + rest;
    ReadWritten(n, s);
    SkipCountIs(body, n, U32(n) + s, s);
    SkipRuns(ast, i, body, 0, rest);
    RangeSkippable(ast, i, i + 1, |Cells(ast)|);
    RangeSkippable(ast, i, i, i + 1);
    CountSkippable(ast, i);
  }

  lemma CountSkippable(ast: Ast, i: nat)
    requires i < |Cells(ast)| && Cells(ast)[i].Word?
    ensures SkippableCell(ast, i)
  {
    hide IsTarget, Skippable;
    if ast.For? {
      ForTarget(ast);
    }
  }

  lemma SoundFacts(ast: Ast)
    requires Sound(ast)
    ensures Emits(ast) && |Code(ast)| < 0x1_0000_0000
  {
  }

  lemma SkipCountIs(body: seq<Step>, n: nat, s: seq<byte>, rest: seq<byte>)
    requires ReadU32(s) == Some((n, rest))
    ensures SkipStep(Counted(body), s) == SkipMany(body, n, rest)
  {
    hide SkipMany, ReadU32;
  }

  lemma FitsManyFacts(ast: Ast, i: nat, body: seq<Step>)
    requires i < |Cells(ast)| && FitsMany(ast, i, body)
    ensures Cells(ast)[i].Word? && 1 <= |body| <= 2
    ensures |Cells(ast)| == i + 1 + Runs(body, Cells(ast)[i].n)
  {
    hide Cells, CellFits;
  }

  /** The number of cells in t runs. */
  function Runs(body: seq<Step>, t: nat): nat {
    if |body| == 1 then t else 2 * t
  }

  /** The runs from the one numbered t on. */
  lemma {:induction false} SkipRuns(ast: Ast, i: nat, body: seq<Step>, t: nat, rest: seq<byte>)
    requires i < |Cells(ast)| && FitsMany(ast, i, body) && Sound(ast)
    requires Cells(ast)[i].Word? && t <= Cells(ast)[i].n && i + 1 + Runs(body, t) <= |Cells(ast)|
    ensures var at, n := i + 1 + Runs(body, t), |Cells(ast)|;
      SkipMany(body, Cells(ast)[i].n - t, CodeRange(ast, at, n) + rest) == Verdict(SkippableRange(ast, at, n), rest)
    decreases ast, 1, Cells(ast)[i].n - t
  {
    hide *;
    FitsManyFacts(ast, i, body);
    RunsAre(body, t);
    var at, n := i + 1 + Runs(body, t), |Cells(ast)|;
    VerdictIs(SkippableRange(ast, at, n), rest);
    if t == Cells(ast)[i].n {
      NoRange(ast, at);
      RangeSkippable(ast, at, at, at);
      assert [] + rest == rest;
      SkipManyNone(body, rest);
    } else {
      RunFits(ast, i, body, t);
      SkipRun(ast, at, body, rest);
      var next := at + |body|;
      SkipManyNext(body, Cells(ast)[i].n - t, CodeRange(ast, at, n) + rest,
                   SkippableRange(ast, at, next), CodeRange(ast, next, n) + rest);
      SkipRuns(ast, i, body, t + 1, rest);
      VerdictIs(SkippableRange(ast, next, n), rest);
      RangeSkippable(ast, at, next, n);
    }
  }

  /** One run of cells, from index `at` on. */
  lemma {:induction false} SkipRun(ast: Ast, at: nat, body: seq<Step>, rest: seq<byte>)
    requires 1 <= |body| <= 2 && at + |body| <= |Cells(ast)| && Sound(ast)
    requires CellFits(ast, at, body[0]) && (|body| == 2 ==> CellFits(ast, at + 1, body[1]))
    ensures SkipSteps(body, CodeRange(ast, at, |Cells(ast)|) + rest)
      == Verdict(SkippableRange(ast, at, at + |body|), CodeRange(ast, at + |body|, |Cells(ast)|) + rest)
    decreases ast, 0, 1
  {
    hide *;
    var n := |Cells(ast)|;
    var s, s1 := CodeRange(ast, at, n) + rest, CodeRange(ast, at + 1, n) + rest;
    FirstOfRange(ast, at, rest);
    SkipCell(ast, at, body[0], s1);
    SkipStepsNext(body, s, SkippableCell(ast, at), s1);
    RangeSkippable(ast, at, at, at + 1);
    VerdictIs(SkippableRange(ast, at, at + |body|), CodeRange(ast, at + |body|, n) + rest);
    if |body| == 1 {
      SkipStepsNone(s1);
      assert body[1..] == [];
    } else {
      var s2 := CodeRange(ast, at + 2, n) + rest;
      FirstOfRange(ast, at + 1, rest);
      SkipCell(ast, at + 1, body[1], s2);
      assert body[1..][1..] == [] && body[1..][0] == body[1];
      SkipStepsNext(body[1..], s1, SkippableCell(ast, at + 1), s2);
      SkipStepsNone(s2);
      RangeSkippable(ast, at, at + 1, at + 2);
      RangeSkippable(ast, at + 1, at + 1, at + 2);
    }
  }

  lemma RunsAre(body: seq<Step>, t: nat)
    ensures Runs(body, t) == if |body| == 1 then t else 2 * t
    ensures Runs(body, t + 1) == Runs(body, t) + if |body| == 1 then 1 else 2
    ensures Runs(body, 0) == 0
  {
  }

  lemma RunFits(ast: Ast, i: nat, body: seq<Step>, t: nat)
    requires i < |Cells(ast)| && FitsMany(ast, i, body) && Cells(ast)[i].Word? && t < Cells(ast)[i].n
    ensures i + 1 + Runs(body, t) + |body| <= |Cells(ast)|
    ensures CellFits(ast, i + 1 + Runs(body, t), body[0])
    ensures |body| == 2 ==> CellFits(ast, i + 2 + Runs(body, t), body[1])
  {
    hide Cells, CellFits;
    if |body| == 2 {
      assert i + 2 + 2 * t < |Cells(ast)|;
    }
  }

  lemma SkipManyNone(body: seq<Step>, s: seq<byte>)
    ensures SkipMany(body, 0, s) == Some(s)
  {
  }

  lemma SkipManyNext(body: seq<Step>, n: nat, s: seq<byte>, ok: bool, rest: seq<byte>)
    requires n > 0 && SkipSteps(body, s) == Verdict(ok, rest)
    ensures SkipMany(body, n, s) == if ok then SkipMany(body, n - 1, rest) else None
  {
    hide SkipSteps;
  }

  /**
     skip_next matches the compiler: started at the first byte of a node's code, it stops right
     after its last if the node can be skipped, and throws if it can not.
   */
  lemma {:induction false} SkipCode(ast: Ast, rest: seq<byte>)
    requires Sound(ast)
    ensures Skip(Code(ast) + rest) == Verdict(Skippable(ast), rest)
    decreases ast, 3, 0
  {
    hide *;
    SoundFacts(ast);
    SkippableIs(ast);
    VerdictIs(Skippable(ast), rest);
    var n := |Cells(ast)|;
    if ast.ExpressionStatement? {
      OnlyChild(ast);
      CellSize(ast, 0);
      ChildSound(ast, 0);
      CellCodeIs(ast, 0);
      NullFails();
      CellSmaller(ast, 0);
      TreeIs(Cells(ast)[0]);
      CodeIs(ast);
      NoRange(ast, 0);
      RangeNext(ast, 0, 0);
      assert [] + Code(ast.expr) == Code(ast.expr);
      SkipCode(ast.expr, rest);
    } else {
      EmittedFacts(ast, rest);
      HandledTags(ast);
      SkipTagged(Tag(ast), CodeRange(ast, 1, n) + rest);
      if Handled(ast) {
        HandledIsTagged(ast);
        TaggedFacts(ast);
        SkipCells(ast, 1, Steps(Tag(ast)).value, rest);
        VerdictIs(SkippableRange(ast, 1, n), rest);
        RangeSkippable(ast, 0, 1, n);
        RangeSkippable(ast, 0, 0, 1);
        CountSkippable(ast, 0);
      }
    }
  }

  lemma SkippableIs(ast: Ast)
    ensures Skippable(ast) <==> Handled(ast) && SkippableRange(ast, 0, |Cells(ast)|)
  {
    hide Cells, Handled, SkippableCell;
  }

  lemma OnlyChild(ast: Ast)
    requires ast.ExpressionStatement?
    ensures Cells(ast) == [Child(ast.expr)]
    ensures Skippable(ast) <==> Skippable(ast.expr)
  {
    assert Cells(ast) == [Child(ast.expr)];
    SkippableCellIs(ast, 0);
  }

  lemma TaggedFacts(ast: Ast)
    requires Tagged(ast)
    ensures |Cells(ast)| > 0 && Cells(ast)[0].Word? && Cells(ast)[0].n < 0x1_0000_0000
    ensures Steps(Cells(ast)[0].n).Some? && Fits(ast, 1, Steps(Cells(ast)[0].n).value)
  {
    hide Cells, Steps, Fits;
  }

  /** The code is prefix-free: what a node's code is can be told without looking past it. */
  lemma PrefixFree(a: Ast, b: Ast, r: seq<byte>, q: seq<byte>)
    requires Sound(a) && Sound(b) && Skippable(a) && Code(a) + r == Code(b) + q
    ensures Skippable(b) && Code(a) == Code(b) && r == q
  {
    hide Sound, Code, Skip, Skippable;
    SkipCode(a, r);
    SkipCode(b, q);
    assert Code(a) == (Code(a) + r)[..|Code(a)|];
    assert Code(b) == (Code(b) + q)[..|Code(b)|];
  }

  /** A function that is defined inside a branch can be compiled, but the branch not be skipped. */
  lemma BranchWithDefinition(test: Ast, def: Ast, orelse: Ast, rest: seq<byte>)
    requires def.FunctionDef? && Sound(If(test, Suite([def]), orelse))
    ensures Skip(Code(If(test, Suite([def]), orelse)) + rest) == None
  {
    var suite := Suite([def]);
    var ast := If(test, suite, orelse);
    assert Cells(ast)[2] == Child(suite) && Cells(suite)[2] == Child(def);
    SkippableCellIs(ast, 2);
    SkippableCellIs(suite, 2);
    assert !Skippable(def) && !Skippable(suite) && !Skippable(ast);
    hide Sound, Code, Skip, Skippable;
    SkipCode(ast, rest);
  }

  // Functions.

  /** What read_function_stub does with its input. */
  datatype StubOutcome =
    | Stub(arguments: seq<seq<byte>>, body: seq<byte>, rest: seq<byte>)
    | Throws
    /** A default is an expression, which would be executed. */
    | Executes

  /** The argument names, one read_name after the other. */
  function ReadArguments(n: nat, s: seq<byte>): (r: Option<(seq<seq<byte>>, seq<byte>)>)
    decreases n
  {
    if n == 0 then Some(([], s))
    else match ReadName(s)
      case None => None
      case Some((name, rest)) =>
        match ReadArguments(n - 1, rest)
        case None => None
        case Some((names, after)) => Some(([name] + names, after))
  }

  datatype DefaultsOutcome = Absent(rest: seq<byte>) | NoMore | Expression

  /** Defaults, as long as they are placeholders. */
  function ReadDefaults(n: nat, s: seq<byte>): DefaultsOutcome
    decreases n
  {
    if n == 0 then Absent(s)
    else match ReadU32(s)
      case None => NoMore
      case Some((tag, rest)) => if tag == PASS then ReadDefaults(n - 1, rest) else Expression
  }

  /** A word that must be there and have this value. */
  function Expect(tag: nat, s: seq<byte>): (r: Option<seq<byte>>) {
    match ReadU32(s)
    case None => None
    case Some((n, rest)) => if n == tag then Some(rest) else None
  }

  /** The part of a stub after its defaults: marker, body, marker. */
  function ReadBody(length: nat, arguments: seq<seq<byte>>, s: seq<byte>): StubOutcome {
    match Expect(FUNCTION_START_STUB, s)
    case None => Throws
    case Some(rest) =>
      if |rest| < length then Throws
      else match Expect(FUNCTION_END, rest[length..])
        case None => Throws
        case Some(after) => Stub(arguments, rest[..length], after)
  }

  function ReadDefaultsAndBody(length: nat, arguments: seq<seq<byte>>, s: seq<byte>): StubOutcome {
    match Expect(FUNCTION_START_DEFAULTS, s)
    case None => Throws
    case Some(s1) =>
      match ReadU32(s1)
      case None => Throws
      case Some((n, s2)) =>
        if n != |arguments| then Throws
        else match ReadDefaults(n, s2)
          case NoMore => Throws
          case Expression => Executes
          case Absent(s3) => ReadBody(length, arguments, s3)
  }

  /** read_function_stub */
  function ReadStub(s: seq<byte>): StubOutcome {
    match ReadU32(s)
    case None => Throws
    case Some((length, s1)) =>
      match Expect(FUNCTION_START, s1)
      case None => Throws
      case Some(s2) =>
        match ReadU32(s2)
        case None => Throws
        case Some((n, s3)) =>
          match ReadArguments(n, s3)
          case None => Throws
          case Some((arguments, s4)) => ReadDefaultsAndBody(length, arguments, s4)
  }

  function NameTexts(list: seq<Ast>): (names: seq<seq<byte>>)
    requires forall i :: 0 <= i < |list| ==> IsName(list[i])
    ensures |names| == |list|
  {
    if list == [] then [] else [NameText(list[0])] + NameTexts(list[1..])
  }

  ghost function Codes(list: seq<Ast>): seq<byte> {
    if list == [] then [] else (if list[0] == Null then U32(PASS) else Code(list[0])) + Codes(list[1..])
  }

  lemma {:induction false} ReadArgumentsCode(list: seq<Ast>, rest: seq<byte>)
    requires forall i :: 0 <= i < |list| ==> IsName(list[i])
    requires |Codes(list)| < 0x1_0000_0000
    ensures ReadArguments(|list|, Codes(list) + rest) == Some((NameTexts(list), rest))
    decreases |list|
  {
    hide Code, U32, ReadName, NameText;
    if list == [] {
      assert [] + rest == rest;
    } else {
      assert IsName(list[0]) && list[0] != Null;
      ConcatAssociative(Code(list[0]), Codes(list[1..]), rest);
      ReadNameCode(list[0], Codes(list[1..]) + rest);
      ReadArgumentsCode(list[1..], rest);
    }
  }

  lemma {:induction false} ReadDefaultsCode(list: seq<Ast>, rest: seq<byte>)
    requires forall i :: 0 <= i < |list| ==> list[i] == Null
    ensures ReadDefaults(|list|, Codes(list) + rest) == Absent(rest)
    decreases |list|
  {
    hide Code, U32, ReadU32;
    if list == [] {
      assert [] + rest == rest;
    } else {
      ConcatAssociative(U32(PASS), Codes(list[1..]), rest);
      ReadWritten(PASS, Codes(list[1..]) + rest);
      ReadDefaultsCode(list[1..], rest);
    }
  }

  lemma ExpectWritten(tag: nat, rest: seq<byte>)
    requires tag < 0x1_0000_0000
    ensures Expect(tag, U32(tag) + rest) == Some(rest)
  {
    hide U32, ReadU32;
    ReadWritten(tag, rest);
  }

  /** Where the cells of a function are. */
  lemma FunctionLayout(ast: Ast)
    requires ast.FunctionDef?
    ensures var cells := Cells(ast); var a, d := |ast.arguments|, |ast.defaults|;
      && |cells| == 10 + a + d
      && cells[0] == Word(FUNCTION_DEF) && cells[1] == Child(ast.fname) && cells[2] == LengthOf(ast.body)
      && cells[3] == Word(FUNCTION_START) && cells[4] == Word(a)
      && cells[5..5 + a] == Slots(ast.arguments)
      && cells[5 + a] == Word(FUNCTION_START_DEFAULTS) && cells[6 + a] == Word(d)
      && cells[7 + a..7 + a + d] == Slots(ast.defaults) && cells[7 + a + d] == Word(FUNCTION_START_STUB)
      && cells[8 + a + d] == Child(ast.body) && cells[9 + a + d] == Word(FUNCTION_END)
  {
    var signature := Signature(ast.arguments, ast.defaults);
    SignatureLayout(ast.arguments, ast.defaults);
    var head := [Word(FUNCTION_DEF), Child(ast.fname)] + [LengthOf(ast.body)];
    assert Cells(ast) == head + signature + [Child(ast.body)] + [Word(FUNCTION_END)];
    hide *;
    CellsOfSignature(Cells(ast), head, signature, [Child(ast.body)], [Word(FUNCTION_END)]);
    var a, d := |ast.arguments|, |ast.defaults|;
    SliceOfSlice(Cells(ast), 3, |signature|, 2, 2 + a);
    SliceOfSlice(Cells(ast), 3, |signature|, 4 + a, 4 + a + d);
  }

  lemma SliceOfSlice(cells: seq<Cell>, from: nat, n: nat, i: nat, j: nat)
    requires i <= j <= n && from + n <= |cells|
    ensures cells[from..from + n][i..j] == cells[from + i..from + j]
  {
    var a, b := cells[from..from + n][i..j], cells[from + i..from + j];
    assert forall k :: 0 <= k < |a| ==> a[k] == b[k];
  }

  lemma SignatureLayout(arguments: seq<Ast>, defaults: seq<Ast>)
    ensures var s := Signature(arguments, defaults); var a, d := |arguments|, |defaults|;
      && |s| == 5 + a + d && s[0] == Word(FUNCTION_START) && s[1] == Word(a) && s[2..2 + a] == Slots(arguments)
      && s[2 + a] == Word(FUNCTION_START_DEFAULTS) && s[3 + a] == Word(d) && s[4 + a..4 + a + d] == Slots(defaults)
      && s[4 + a + d] == Word(FUNCTION_START_STUB)
  {
  }

  lemma CellsOfSignature(cells: seq<Cell>, head: seq<Cell>, signature: seq<Cell>, body: seq<Cell>, end: seq<Cell>)
    requires |head| == 3 && |body| == |end| == 1 && cells == head + signature + body + end
    ensures |cells| == |signature| + 5 && cells[0] == head[0] && cells[1] == head[1] && cells[2] == head[2]
    ensures cells[3..3 + |signature|] == signature && cells[3 + |signature|] == body[0]
      && cells[4 + |signature|] == end[0]
    ensures forall i :: 0 <= i < |signature| ==> cells[3 + i] == signature[i]
  {
  }

  /** Slots from index i on are written as the codes of a list. */
  lemma {:induction false} SlotsCode(ast: Ast, i: nat, list: seq<Ast>, rest: seq<byte>)
    requires i + |list| <= |Cells(ast)| && Cells(ast)[i..i + |list|] == Slots(list)
    ensures CodeRange(ast, i, |Cells(ast)|) + rest == Codes(list) + (CodeRange(ast, i + |list|, |Cells(ast)|) + rest)
    decreases |list|
  {
    hide *;
    var n := |Cells(ast)|;
    if list == [] {
      NoCodes(CodeRange(ast, i, n) + rest);
    } else {
      SlotAt(ast, i, list);
      FirstOfRange(ast, i, rest);
      CellCodeIs(ast, i);
      SlotsCode(ast, i + 1, list[1..], rest);
      CodesNext(list);
      ConcatAssociative(CellCode(ast, i), Codes(list[1..]), CodeRange(ast, i + |list|, n) + rest);
    }
  }

  lemma SlotAt(ast: Ast, i: nat, list: seq<Ast>)
    requires list != [] && i + |list| <= |Cells(ast)| && Cells(ast)[i..i + |list|] == Slots(list)
    ensures Cells(ast)[i] == Slot(list[0]) && Cells(ast)[i + 1..i + 1 + |list[1..]|] == Slots(list[1..])
  {
    var cells := Cells(ast);
    hide Cells;
    assert cells[i..i + |list|][0] == Slots(list)[0];
    assert cells[i + 1..i + |list|] == cells[i..i + |list|][1..] == Slots(list)[1..];
  }

  lemma NoCodes(rest: seq<byte>)
    ensures Codes([]) + rest == rest
  {
  }

  lemma CodesNext(list: seq<Ast>)
    requires list != []
    ensures Codes(list) == (if list[0] == Null then U32(PASS) else Code(list[0])) + Codes(list[1..])
  {
    hide Code, U32;
  }

  /** A function whose arguments are names. */
  ghost predicate Named(ast: Ast) {
    ast.FunctionDef? && forall i :: 0 <= i < |ast.arguments| ==> IsName(ast.arguments[i])
  }

  lemma NamedFacts(ast: Ast)
    ensures Plain(ast) ==> Named(ast)
    ensures Named(ast) ==>
      ast.FunctionDef? && forall i :: 0 <= i < |ast.arguments| ==> IsName(ast.arguments[i])
  {
  }

  /** A function whose defaults are all absent, one for each argument. */
  ghost predicate Plain(ast: Ast) {
    && ast.FunctionDef? && |ast.defaults| == |ast.arguments|
    && (forall i :: 0 <= i < |ast.arguments| ==> IsName(ast.arguments[i]))
    && (forall i :: 0 <= i < |ast.defaults| ==> ast.defaults[i] == Null)
  }

  /** The end of a stub, from the marker before the body on. */
  lemma BodyOfFunction(ast: Ast, i: nat, names: seq<seq<byte>>, rest: seq<byte>)
    requires i + 3 == |Cells(ast)| && Cells(ast)[i] == Word(FUNCTION_START_STUB)
    requires ast.FunctionDef? && Cells(ast)[i + 1] == Child(ast.body) && Cells(ast)[i + 2] == Word(FUNCTION_END)
    ensures ReadBody(|Code(ast.body)|, names, CodeRange(ast, i, |Cells(ast)|) + rest) ==
      Stub(names, Code(ast.body), rest)
  {
    hide *;
    var n := |Cells(ast)|;
    FirstOfRange(ast, i, rest);
    FirstOfRange(ast, i + 1, rest);
    FirstOfRange(ast, i + 2, rest);
    CellCodeIs(ast, i);
    CellCodeIs(ast, i + 1);
    CellCodeIs(ast, i + 2);
    NoRange(ast, n);
    assert [] + rest == rest;
    MarkerValues();
    ExpectWritten(FUNCTION_START_STUB, CodeRange(ast, i + 1, n) + rest);
    ExpectWritten(FUNCTION_END, rest);
    BodyIs(Code(ast.body), names, CodeRange(ast, i, n) + rest, U32(FUNCTION_END) + rest, rest);
  }

  lemma MarkerValues()
    ensures FUNCTION_START < 40 && FUNCTION_START_DEFAULTS < 40 && FUNCTION_START_STUB < 40 && FUNCTION_END < 40
      && FUNCTION_DEF < 40
  {
  }

  lemma BodyIs(code: seq<byte>, names: seq<seq<byte>>, s: seq<byte>, end: seq<byte>, rest: seq<byte>)
    requires Expect(FUNCTION_START_STUB, s) == Some(code + end) && Expect(FUNCTION_END, end) == Some(rest)
    ensures ReadBody(|code|, names, s) == Stub(names, code, rest)
  {
    hide Expect;
    assert (code + end)[..|code|] == code && (code + end)[|code|..] == end;
  }

  lemma DefaultsAndBodyIs(length: nat, names: seq<seq<byte>>, s: seq<byte>, s1: seq<byte>, n: nat, s2: seq<byte>,
        s3: seq<byte>)
    requires Expect(FUNCTION_START_DEFAULTS, s) == Some(s1) && ReadU32(s1) == Some((n, s2)) && n == |names|
    requires ReadDefaults(n, s2) == Absent(s3)
    ensures ReadDefaultsAndBody(length, names, s) == ReadBody(length, names, s3)
  {
    hide Expect, ReadU32, ReadDefaults, ReadBody;
  }

  lemma StubIs(s: seq<byte>, length: nat, s1: seq<byte>, s2: seq<byte>, n: nat, s3: seq<byte>, names: seq<seq<byte>>,
        s4: seq<byte>)
    requires ReadU32(s) == Some((length, s1)) && Expect(FUNCTION_START, s1) == Some(s2)
    requires ReadU32(s2) == Some((n, s3)) && ReadArguments(n, s3) == Some((names, s4))
    ensures ReadStub(s) == ReadDefaultsAndBody(length, names, s4)
  {
    hide Expect, ReadU32, ReadArguments, ReadDefaultsAndBody;
  }

  /** The argument list and the defaults take up part of the code. */
  lemma SlotsFit(ast: Ast, i: nat, list: seq<Ast>)
    requires i + |list| <= |Cells(ast)| && Cells(ast)[i..i + |list|] == Slots(list)
    ensures |Codes(list)| <= |Code(ast)|
  {
    hide *;
    SlotsCode(ast, i, list, []);
    RangeBound(ast, i, |Cells(ast)|);
  }

  /** The first part of a stub: its length, the marker and the arguments. */
  lemma HeadOfFunction(ast: Ast, rest: seq<byte>)
    requires Named(ast) && Emits(ast) && |Code(ast)| < 0x1_0000_0000
    ensures var n, a := |Cells(ast)|, |ast.arguments|;
      && n == 10 + a + |ast.defaults|
      && ReadStub(CodeRange(ast, 2, n) + rest)
         == ReadDefaultsAndBody(|Code(ast.body)|, NameTexts(ast.arguments), CodeRange(ast, 5 + a, n) + rest)
  {
    hide *;
    NamedFacts(ast);
    FunctionLayout(ast);
    MarkerValues();
    CodeMinimum(ast);
    var n, a, d := |Cells(ast)|, |ast.arguments|, |ast.defaults|;
    var length := |Code(ast.body)|;
    SlotsFit(ast, 5, ast.arguments);
    CellSize(ast, 8 + a + d);
    CellCodeIs(ast, 8 + a + d);
    FirstOfRange(ast, 2, rest);
    CellCodeIs(ast, 2);
    ReadWritten(length, CodeRange(ast, 3, n) + rest);
    FirstOfRange(ast, 3, rest);
    CellCodeIs(ast, 3);
    ExpectWritten(FUNCTION_START, CodeRange(ast, 4, n) + rest);
    FirstOfRange(ast, 4, rest);
    CellCodeIs(ast, 4);
    ReadWritten(a, CodeRange(ast, 5, n) + rest);
    SlotsCode(ast, 5, ast.arguments, rest);
    ReadArgumentsCode(ast.arguments, CodeRange(ast, 5 + a, n) + rest);
    StubIs(CodeRange(ast, 2, n) + rest, length, CodeRange(ast, 3, n) + rest, CodeRange(ast, 4, n) + rest, a,
           CodeRange(ast, 5, n) + rest, NameTexts(ast.arguments), CodeRange(ast, 5 + a, n) + rest);
  }

  /** The second part: the defaults, one for each argument, and the body. */
  lemma TailOfFunction(ast: Ast, names: seq<seq<byte>>, rest: seq<byte>)
    requires Plain(ast) && Emits(ast) && |Code(ast)| < 0x1_0000_0000 && |names| == |ast.arguments|
    ensures var n, a := |Cells(ast)|, |ast.arguments|;
      && n == 10 + a + |ast.defaults|
      && ReadDefaultsAndBody(|Code(ast.body)|, names, CodeRange(ast, 5 + a, n) + rest)
         == Stub(names, Code(ast.body), rest)
  {
    hide *;
    PlainFacts(ast);
    FunctionLayout(ast);
    MarkerValues();
    CodeMinimum(ast);
    var n, a, d := |Cells(ast)|, |ast.arguments|, |ast.defaults|;
    FirstOfRange(ast, 5 + a, rest);
    CellCodeIs(ast, 5 + a);
    ExpectWritten(FUNCTION_START_DEFAULTS, CodeRange(ast, 6 + a, n) + rest);
    FirstOfRange(ast, 6 + a, rest);
    CellCodeIs(ast, 6 + a);
    ReadWritten(d, CodeRange(ast, 7 + a, n) + rest);
    SlotsCode(ast, 7 + a, ast.defaults, rest);
    ReadDefaultsCode(ast.defaults, CodeRange(ast, 7 + a + d, n) + rest);
    DefaultsAndBodyIs(|Code(ast.body)|, names, CodeRange(ast, 5 + a, n) + rest, CodeRange(ast, 6 + a, n) + rest, d,
                      CodeRange(ast, 7 + a, n) + rest, CodeRange(ast, 7 + a + d, n) + rest);
    BodyOfFunction(ast, 7 + a + d, names, rest);
  }

  /**
     read_function_stub matches the compiler: of a function without defaults it extracts the
     argument names and exactly the code of the body, and stops right after the end marker.
   */
  lemma StubOfFunction(ast: Ast, rest: seq<byte>)
    requires Plain(ast) && Emits(ast) && |Code(ast)| < 0x1_0000_0000
    ensures 2 <= |Cells(ast)|
    ensures ReadStub(CodeRange(ast, 2, |Cells(ast)|) + rest) == Stub(NameTexts(ast.arguments), Code(ast.body), rest)
  {
    hide *;
    PlainFacts(ast);
    NamedFacts(ast);
    HeadOfFunction(ast, rest);
    TailOfFunction(ast, NameTexts(ast.arguments), rest);
  }

  lemma PlainFacts(ast: Ast)
    requires Plain(ast)
    ensures ast.FunctionDef? && |ast.defaults| == |ast.arguments|
    ensures forall i :: 0 <= i < |ast.arguments| ==> IsName(ast.arguments[i])
    ensures forall i :: 0 <= i < |ast.defaults| ==> ast.defaults[i] == Null
  {
  }

  /** What is written as an absent default. */
  predicate Placeholder(ast: Ast) {
    ast == Null || Bare(ast) == Pass
  }

  ghost predicate AllPlaceholders(list: seq<Ast>) {
    forall i :: 0 <= i < |list| ==> Placeholder(list[i])
  }

  lemma PassTag(ast: Ast)
    requires ast != Null && ast != Unsupported && ast != OtherNumber && !ast.ExpressionStatement?
    ensures Tag(ast) == PASS <==> ast == Pass
  {
  }

  /** A default that is written as something else is an expression. */
  lemma {:induction false} FirstDefault(d: Ast, rest: seq<byte>) returns (tag: nat, after: seq<byte>)
    requires d == Null || Emits(d)
    ensures var code := if d == Null then U32(PASS) else Code(d);
      ReadU32(code + rest) == Some((tag, after)) && (tag == PASS <==> Placeholder(d))
      && (Placeholder(d) ==> after == rest)
  {
    hide *;
    MarkerPass();
    PlaceholderIs(d);
    if d == Null {
      ReadWritten(PASS, rest);
      tag, after := PASS, rest;
    } else {
      BareCode(d);
      BareIsNode(d);
      var b := Bare(d);
      EmittedFacts(b, rest);
      PassTag(b);
      tag, after := Tag(b), CodeRange(b, 1, |Cells(b)|) + rest;
      ReadWritten(tag, after);
      if b == Pass {
        NothingAfterPass(rest);
      }
    }
  }

  lemma MarkerPass()
    ensures PASS == 0
  {
  }

  lemma PlaceholderIs(d: Ast)
    ensures Placeholder(d) <==> d == Null || Bare(d) == Pass
  {
  }

  lemma BareIsNode(d: Ast)
    ensures !Bare(d).ExpressionStatement?
  {
  }

  lemma NothingAfterPass(rest: seq<byte>)
    ensures |Cells(Pass)| == 1 && CodeRange(Pass, 1, 1) + rest == rest
  {
    NoRange(Pass, 1);
    assert [] + rest == rest;
  }

  lemma {:induction false} ReadDefaultsVerdict(list: seq<Ast>, rest: seq<byte>)
    requires forall i :: 0 <= i < |list| ==> list[i] == Null || Emits(list[i])
    ensures ReadDefaults(|list|, Codes(list) + rest) == if AllPlaceholders(list) then Absent(rest) else Expression
    decreases |list|
  {
    hide Code, U32, ReadU32, Emits, Placeholder;
    if list == [] {
      assert [] + rest == rest;
    } else {
      var code := if list[0] == Null then U32(PASS) else Code(list[0]);
      ConcatAssociative(code, Codes(list[1..]), rest);
      var tag, after := FirstDefault(list[0], Codes(list[1..]) + rest);
      ReadDefaultsVerdict(list[1..], rest);
      assert AllPlaceholders(list) <==> Placeholder(list[0]) && AllPlaceholders(list[1..]) by {
        assert forall i :: 0 <= i < |list| - 1 ==> list[1..][i] == list[i + 1];
        assert forall i :: 1 <= i < |list| ==> list[i] == list[1..][i - 1];
      }
    }
  }

  lemma DefaultsFail(length: nat, names: seq<seq<byte>>, s: seq<byte>, s1: seq<byte>, n: nat, s2: seq<byte>)
    requires Expect(FUNCTION_START_DEFAULTS, s) == Some(s1) && ReadU32(s1) == Some((n, s2))
    ensures n != |names| ==> ReadDefaultsAndBody(length, names, s) == Throws
    ensures n == |names| && ReadDefaults(n, s2) == Expression ==> ReadDefaultsAndBody(length, names, s) == Executes
  {
    hide Expect, ReadU32, ReadDefaults, ReadBody;
  }

  lemma SlotIndex(cells: seq<Cell>, i: nat, list: seq<Ast>, k: nat)
    requires i + |list| <= |cells| && cells[i..i + |list|] == Slots(list) && k < |list|
    ensures cells[i + k] == Slot(list[k])
  {
    assert cells[i..i + |list|][k] == Slots(list)[k];
  }

  lemma SlotEmits(ast: Ast, i: nat, list: seq<Ast>, k: nat)
    requires Emits(ast) && i + |list| <= |Cells(ast)| && Cells(ast)[i..i + |list|] == Slots(list) && k < |list|
    ensures list[k] == Null || Emits(list[k])
  {
    hide *;
    SlotIndex(Cells(ast), i, list, k);
    EmitsEach(ast, i + k);
    CellCodeIs(ast, i + k);
  }

  /**
     read_function_stub on any function that is compiled, its arguments being names: it throws if
     there is not one default for each argument, executes the first default that is no placeholder,
     and otherwise extracts names and body.
   */
  lemma StubVerdict(ast: Ast, rest: seq<byte>)
    requires Named(ast) && Emits(ast) && |Code(ast)| < 0x1_0000_0000
    ensures ast.FunctionDef? && 2 <= |Cells(ast)|
    ensures ReadStub(CodeRange(ast, 2, |Cells(ast)|) + rest) ==
      if |ast.defaults| != |ast.arguments| then Throws
      else if AllPlaceholders(ast.defaults) then Stub(NameTexts(ast.arguments), Code(ast.body), rest)
      else Executes
  {
    hide *;
    NamedFacts(ast);
    HeadOfFunction(ast, rest);
    FunctionLayout(ast);
    MarkerValues();
    CodeMinimum(ast);
    var n, a, d := |Cells(ast)|, |ast.arguments|, |ast.defaults|;
    var names, length := NameTexts(ast.arguments), |Code(ast.body)|;
    FirstOfRange(ast, 5 + a, rest);
    CellCodeIs(ast, 5 + a);
    ExpectWritten(FUNCTION_START_DEFAULTS, CodeRange(ast, 6 + a, n) + rest);
    FirstOfRange(ast, 6 + a, rest);
    CellCodeIs(ast, 6 + a);
    ReadWritten(d, CodeRange(ast, 7 + a, n) + rest);
    SlotsCode(ast, 7 + a, ast.defaults, rest);
    forall k | 0 <= k < d ensures ast.defaults[k] == Null || Emits(ast.defaults[k]) {
      SlotEmits(ast, 7 + a, ast.defaults, k);
    }
    ReadDefaultsVerdict(ast.defaults, CodeRange(ast, 7 + a + d, n) + rest);
    DefaultsFail(length, names, CodeRange(ast, 5 + a, n) + rest, CodeRange(ast, 6 + a, n) + rest, d,
                 CodeRange(ast, 7 + a, n) + rest);
    if d == a && AllPlaceholders(ast.defaults) {
      DefaultsAndBodyIs(length, names, CodeRange(ast, 5 + a, n) + rest, CodeRange(ast, 6 + a, n) + rest, d,
                        CodeRange(ast, 7 + a, n) + rest, CodeRange(ast, 7 + a + d, n) + rest);
      BodyOfFunction(ast, 7 + a + d, names, rest);
    }
  }

  /** Before its stub, a function's code has its tag and its name. */
  lemma NameOfFunction(ast: Ast, rest: seq<byte>)
    requires ast.FunctionDef? && IsName(ast.fname) && Emits(ast) && |Code(ast)| < 0x1_0000_0000
    ensures 2 <= |Cells(ast)| && Expect(FUNCTION_DEF, Code(ast) + rest).Some?
    ensures ReadName(Expect(FUNCTION_DEF, Code(ast) + rest).value) ==
      Some((NameText(ast.fname), CodeRange(ast, 2, |Cells(ast)|) + rest))
  {
    hide *;
    FunctionLayout(ast);
    MarkerValues();
    CodeIs(ast);
    FirstOfRange(ast, 0, rest);
    FirstOfRange(ast, 1, rest);
    CellCodeIs(ast, 0);
    CellCodeIs(ast, 1);
    CellSize(ast, 1);
    ExpectWritten(FUNCTION_DEF, CodeRange(ast, 1, |Cells(ast)|) + rest);
    ReadNameCode(ast.fname, CodeRange(ast, 2, |Cells(ast)|) + rest);
  }
}
