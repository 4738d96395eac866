/**
 The bytecode of the compiler: every node of the syntax tree becomes a tag and its parts, each
 a word, a string or the code of a child. `Code` is the pure encoding, in which a function
 knows the length of its body beforehand.
 */
module Bytecode {
  import opened Bytes
  import opened BitStream

  // NodeType

  const PASS: nat := 0
  const STATEMENT_LIST: nat := 1
  const NAME: nat := 2
  const ASSIGN: nat := 3
  const RETURN: nat := 4
  const STRING: nat := 5
  const COMPARE: nat := 6
  const DICTIONARY: nat := 7
  const INTEGER: nat := 8
  const IF_ELSE: nat := 9
  const IF: nat := 10
  const CALL: nat := 11
  const ATTRIBUTE: nat := 12
  const UNARY_OP: nat := 13
  const BINARY_OP: nat := 14
  const BOOL_OP: nat := 15
  const LIST: nat := 16
  const LIST_COMP: nat := 17
  const COMPREHENSION: nat := 18
  const TUPLE: nat := 19
  const SUBSCRIPT: nat := 20
  const INDEX: nat := 21
  const FOR_LOOP: nat := 22
  const WHILE_LOOP: nat := 23
  const AUGMENTED_ASSIGN: nat := 24
  const CONTINUE: nat := 25
  const BREAK: nat := 26
  const IMPORT: nat := 27
  const IMPORT_FROM: nat := 28
  const ALIAS: nat := 29
  const FUNCTION_DEF: nat := 30
  const FUNCTION_START_DEFAULTS: nat := 31
  const FUNCTION_START_STUB: nat := 32
  const FUNCTION_START: nat := 33
  const FUNCTION_END: nat := 34
  const GLOBAL: nat := 35

  /** The syntax tree, with Null where the parser leaves a pointer empty. */
  datatype Ast =
    | Null
    | Unsupported
    | OtherNumber
    | Pass
    | Continue
    | Break
    | Name(id: seq<byte>)
    | Str(text: seq<byte>)
    | Integer(num: int)
    | Alias(name: seq<byte>, asName: seq<byte>)
    | Import(names: Ast)
    | ImportFrom(source: Ast, names: Ast)
    | Assign(value: Ast, targets: seq<Ast>)
    | Suite(items: seq<Ast>)
    | Return(value: Ast)
    | Dict(entries: seq<Entry>)
    | Compare(left: Ast, comparisons: seq<Comparison>)
    | If(test: Ast, body: Ast, orelse: Ast)
    | Call(function_: Ast, arguments: seq<Ast>)
    | Attribute(value: Ast, attribute: Ast)
    | UnaryOp(op: uint32, operand: Ast)
    | BoolOp(op: uint32, values: seq<Ast>)
    | BinOp(op: uint32, left: Ast, right: Ast)
    | List(elements: seq<Ast>)
    | Tuple(elements: seq<Ast>)
    | Subscript(slice: Ast, value: Ast)
    | Index(value: Ast)
    | For(target: Ast, iter: Ast, body: Ast)
    | While(test: Ast, body: Ast)
    | AugAssign(op: uint32, target: Ast, value: Ast)
    | ExpressionStatement(expr: Ast)
    | ListComp(element: Ast, generators: seq<Ast>)
    | Comprehension(target: Ast, iter: Ast, ifs: seq<Ast>)
    | Global(globals: seq<Ast>)
    | FunctionDef(fname: Ast, arguments: seq<Ast>, defaults: seq<Ast>, body: Ast)

  datatype Entry = Entry(key: Ast, value: Ast)

  datatype Comparison = Comparison(op: uint32, right: Ast)

  /**
     One thing written to the stream: a word, a string, a child that must be there, a child whose
     absence is written as Pass, or the length of a child's code. A misread child is not written:
     the pointer to it is itself taken for a node, by a cast, and so part of an address for the
     node's type. No address of a node looks like a node type, so this throws. (A null pointer
     would: it reads as an Alias. The parser makes no null operands.)
   */
  datatype Cell =
    | Word(n: nat)
    | Text(text: seq<byte>)
    | Child(ast: Ast)
    | Slot(ast: Ast)
    | LengthOf(ast: Ast)
    | Misread(ast: Ast)

  /** c_str(): up to the first zero byte. */
  function CStr(s: seq<byte>): seq<byte> {
    if s == [] || s[0] == 0 then [] else [s[0]] + CStr(s[1..])
  }

  function Children(list: seq<Ast>): (cells: seq<Cell>)
    ensures |cells| == |list| && forall i :: 0 <= i < |list| ==> cells[i] == Child(list[i])
  {
    seq(|list|, i requires 0 <= i < |list| => Child(list[i]))
  }

  function Slots(list: seq<Ast>): (cells: seq<Cell>)
    ensures |cells| == |list| && forall i :: 0 <= i < |list| ==> cells[i] == Slot(list[i])
  {
    seq(|list|, i requires 0 <= i < |list| => Slot(list[i]))
  }

  function Misreads(list: seq<Ast>): (cells: seq<Cell>)
    ensures |cells| == |list| && forall i :: 0 <= i < |list| ==> cells[i] == Misread(list[i])
  {
    seq(|list|, i requires 0 <= i < |list| => Misread(list[i]))
  }

  function Entries(entries: seq<Entry>): (cells: seq<Cell>)
    ensures |cells| == 2 * |entries|
    ensures forall i :: 0 <= i < |cells| ==>
      cells[i] == Child(if i % 2 == 0 then entries[i / 2].key else entries[i / 2].value)
  {
    seq(2 * |entries|, i requires 0 <= i < 2 * |entries| =>
      Child(if i % 2 == 0 then entries[i / 2].key else entries[i / 2].value))
  }

  function Comparisons(list: seq<Comparison>): (cells: seq<Cell>)
    ensures |cells| == 2 * |list|
    ensures forall i :: 0 <= i < |cells| ==>
      cells[i] == if i % 2 == 0 then Word(list[i / 2].op) else Child(list[i / 2].right)
  {
    seq(2 * |list|, i requires 0 <= i < 2 * |list| =>
      if i % 2 == 0 then Word(list[i / 2].op) else Child(list[i / 2].right))
  }

  /** parse_expr_list: the size, then the expressions. */
  function ExprList(list: seq<Ast>): seq<Cell> {
    [Word(|list|)] + Slots(list)
  }

  function ChildList(list: seq<Ast>): seq<Cell> {
    [Word(|list|)] + Children(list)
  }

  /** What parse_next writes for a node, in order. */
  function Cells(ast: Ast): seq<Cell> {
    match ast
    case Null => []
    case Unsupported => []
    case OtherNumber => []
    case Pass => [Word(PASS)]
    case Continue => [Word(CONTINUE)]
    case Break => [Word(BREAK)]
    case Name(id) => [Word(NAME), Text(CStr(id))]
    case Str(text) => [Word(STRING), Text(CStr(text))]
    case Integer(num) => [Word(INTEGER), Word(num % 0x1_0000_0000)]
    case Alias(name, asName) => [Word(ALIAS), Text(CStr(name)), Text(CStr(asName))]
    case Import(names) => [Word(IMPORT), Child(names)]
    case ImportFrom(source, names) => [Word(IMPORT_FROM), Child(source), Child(names)]
    case Assign(value, targets) => [Word(ASSIGN), Child(value)] + ExprList(targets)
    case Suite(items) => [Word(STATEMENT_LIST)] + ChildList(items)
    case Return(value) => [Word(RETURN), Child(value)]
    case Dict(entries) => [Word(DICTIONARY), Word(|entries|)] + Entries(entries)
    case Compare(left, comparisons) =>
      [Word(COMPARE), Child(left), Word(|comparisons|)] + Comparisons(comparisons)
    case If(test, body, orelse) =>
      if orelse != Null then [Word(IF_ELSE), Child(test), Child(body), Child(orelse)]
      else [Word(IF), Child(test), Child(body)]
    case Call(function_, arguments) => [Word(CALL), Child(function_)] + ExprList(arguments)
    case Attribute(value, attribute) => [Word(ATTRIBUTE), Child(value), Child(attribute)]
    case UnaryOp(op, operand) => [Word(UNARY_OP), Word(op), Child(operand)]
    case BoolOp(op, values) => [Word(BOOL_OP), Word(op), Word(|values|)] + Misreads(values)
    case BinOp(op, left, right) => [Word(BINARY_OP), Word(op), Child(left), Child(right)]
    case List(elements) => [Word(LIST)] + ExprList(elements)
    case Tuple(elements) => [Word(TUPLE)] + ChildList(elements)
    case Subscript(slice, value) => [Word(SUBSCRIPT), Child(slice), Child(value)]
    case Index(value) => [Word(INDEX), Child(value)]
    case For(target, iter, body) => [Word(FOR_LOOP), Child(target), Child(iter), Child(body)]
    case While(test, body) => [Word(WHILE_LOOP), Child(test), Child(body)]
    case AugAssign(op, target, value) => [Word(AUGMENTED_ASSIGN), Word(op), Child(target), Child(value)]
    case ExpressionStatement(expr) => [Child(expr)]
    case ListComp(element, generators) => [Word(LIST_COMP), Child(element)] + ExprList(generators)
    case Comprehension(target, iter, ifs) => [Word(COMPREHENSION), Child(target), Child(iter)] + ExprList(ifs)
    case Global(globals) => [Word(GLOBAL)] + ChildList(globals)
    case FunctionDef(name, arguments, defaults, body) =>
      [Word(FUNCTION_DEF), Child(name)] + [LengthOf(body)] + Signature(arguments, defaults)
      + [Child(body)] + [Word(FUNCTION_END)]
  }

  function Signature(arguments: seq<Ast>, defaults: seq<Ast>): seq<Cell> {
    [Word(FUNCTION_START)] + ExprList(arguments)
    + [Word(FUNCTION_START_DEFAULTS)] + ExprList(defaults) + [Word(FUNCTION_START_STUB)]
  }

  function Tree(c: Cell): Ast
    requires !c.Word? && !c.Text?
  {
    c.ast
  }

  lemma FunctionCellSmaller(ast: Ast, i: nat)
    requires ast.FunctionDef? && i < |Cells(ast)| && !Cells(ast)[i].Word? && !Cells(ast)[i].Text?
    ensures Tree(Cells(ast)[i]) < ast
  {
  }

  lemma PairCellSmaller(ast: Ast, i: nat)
    requires ast.Dict? || ast.Compare?
    requires i < |Cells(ast)| && !Cells(ast)[i].Word? && !Cells(ast)[i].Text?
    ensures Tree(Cells(ast)[i]) < ast
  {
  }

  lemma ListCellSmaller(ast: Ast, i: nat)
    requires ast.Assign? || ast.Suite? || ast.Call? || ast.BoolOp? || ast.List? || ast.Tuple?
      || ast.ListComp? || ast.Comprehension? || ast.Global?
    requires i < |Cells(ast)| && !Cells(ast)[i].Word? && !Cells(ast)[i].Text?
    ensures Tree(Cells(ast)[i]) < ast
  {
  }

  lemma CellSmaller(ast: Ast, i: nat)
    requires i < |Cells(ast)| && !Cells(ast)[i].Word? && !Cells(ast)[i].Text?
    ensures Tree(Cells(ast)[i]) < ast
  {
    if ast.FunctionDef? {
      FunctionCellSmaller(ast, i);
    } else if ast.Dict? || ast.Compare? {
      PairCellSmaller(ast, i);
    } else if ast.Assign? || ast.Suite? || ast.Call? || ast.BoolOp? || ast.List? || ast.Tuple?
           || ast.ListComp? || ast.Comprehension? || ast.Global? {
      ListCellSmaller(ast, i);
    }
  }

  // The pure encoding.

  /** The code of a node: what its cells are written as, one after the other. */
  ghost function Code(ast: Ast): seq<byte>
    decreases ast, 2, 0
  {
    CodeRange(ast, 0, |Cells(ast)|)
  }

  ghost function CodeRange(ast: Ast, i: nat, j: nat): seq<byte>
    requires i <= j <= |Cells(ast)|
    decreases ast, 1, j
  {
    if i == j then [] else CodeRange(ast, i, j - 1) + CellCode(ast, j - 1)
  }

  ghost function CellCode(ast: Ast, i: nat): seq<byte>
    requires i < |Cells(ast)|
    decreases ast, 0, 0
  {
    match Cells(ast)[i]
    case Word(n) => U32(n)
    case Text(text) => TextCode(text)
    case Child(a) => CellSmaller(ast, i); Code(a)
    case Slot(a) => CellSmaller(ast, i); if a == Null then U32(PASS) else Code(a)
    case LengthOf(a) => CellSmaller(ast, i); U32(|Code(a)|)
    case Misread(_) => []
  }

  /** Does parse_next get through, without throwing? */
  ghost predicate Emits(ast: Ast)
    decreases ast, 2, 0
  {
    ast != Null && ast != Unsupported && ast != OtherNumber && EmitsRange(ast, 0, |Cells(ast)|)
  }

  ghost predicate EmitsRange(ast: Ast, i: nat, j: nat)
    requires i <= j <= |Cells(ast)|
    decreases ast, 1, j
  {
    i == j || (EmitsRange(ast, i, j - 1) && EmitsCell(ast, j - 1))
  }

  ghost predicate EmitsCell(ast: Ast, i: nat)
    requires i < |Cells(ast)|
    decreases ast, 0, 0
  {
    match Cells(ast)[i]
    case Child(a) => CellSmaller(ast, i); Emits(a)
    case Slot(a) => CellSmaller(ast, i); a == Null || Emits(a)
    case Misread(_) => false
    case _ => true
  }

  lemma {:induction false} RangeSplits(ast: Ast, i: nat, k: nat, j: nat)
    requires i <= k <= j <= |Cells(ast)|
    ensures CodeRange(ast, i, j) == CodeRange(ast, i, k) + CodeRange(ast, k, j)
    ensures EmitsRange(ast, i, j) <==> EmitsRange(ast, i, k) && EmitsRange(ast, k, j)
    decreases j
  {
    hide Cells, CellCode, EmitsCell;
    if k < j {
      RangeSplits(ast, i, k, j - 1);
      ConcatAssociative(CodeRange(ast, i, k), CodeRange(ast, k, j - 1), CellCode(ast, j - 1));
    }
  }

  lemma RangeNext(ast: Ast, i: nat, j: nat)
    requires i <= j < |Cells(ast)|
    ensures CodeRange(ast, i, j + 1) == CodeRange(ast, i, j) + CellCode(ast, j)
    ensures EmitsRange(ast, i, j + 1) <==> EmitsRange(ast, i, j) && EmitsCell(ast, j)
  {
    hide Cells, CellCode, EmitsCell;
  }

  lemma NoRange(ast: Ast, i: nat)
    requires i <= |Cells(ast)|
    ensures CodeRange(ast, i, i) == [] && EmitsRange(ast, i, i)
  {
    hide Cells;
  }

  lemma CodeIs(ast: Ast)
    ensures Code(ast) == CodeRange(ast, 0, |Cells(ast)|)
    ensures Emits(ast) <==>
      ast != Null && ast != Unsupported && ast != OtherNumber && EmitsRange(ast, 0, |Cells(ast)|)
  {
    hide Cells;
  }

  /** What one cell is written as. */
  lemma CellCodeIs(ast: Ast, i: nat)
    requires i < |Cells(ast)|
    ensures Cells(ast)[i].Word? ==> CellCode(ast, i) == U32(Cells(ast)[i].n) && EmitsCell(ast, i)
    ensures Cells(ast)[i].Text? ==> CellCode(ast, i) == TextCode(Cells(ast)[i].text) && EmitsCell(ast, i)
    ensures Cells(ast)[i].Child? ==> CellCode(ast, i) == Code(Cells(ast)[i].ast)
    ensures Cells(ast)[i].Child? ==> (EmitsCell(ast, i) <==> Emits(Cells(ast)[i].ast))
    ensures Cells(ast)[i].Slot? ==>
      CellCode(ast, i) == (if Cells(ast)[i].ast == Null then U32(PASS) else Code(Cells(ast)[i].ast))
    ensures Cells(ast)[i].Slot? ==> (EmitsCell(ast, i) <==> Cells(ast)[i].ast == Null || Emits(Cells(ast)[i].ast))
    ensures Cells(ast)[i].LengthOf? ==> CellCode(ast, i) == U32(|Code(Cells(ast)[i].ast)|) && EmitsCell(ast, i)
    ensures Cells(ast)[i].Misread? ==> !EmitsCell(ast, i)
  {
    hide Cells, Code, Emits, TextCode, U32;
  }

  // Boolean operators.

  predicate IsTree(c: Cell) {
    c.Child? || c.Slot?
  }

  /** A boolean operator with an operand is in the tree, below nothing but children. */
  ghost predicate HasOperand(ast: Ast)
    decreases ast, 1
  {
    (ast.BoolOp? && ast.values != [] && ast.values[0] != Null)
    || exists i :: 0 <= i < |Cells(ast)| && IsTree(Cells(ast)[i]) && OperandBelow(ast, i)
  }

  ghost predicate OperandBelow(ast: Ast, i: nat)
    requires i < |Cells(ast)|
    decreases ast, 0
  {
    match Cells(ast)[i]
    case Child(a) => CellSmaller(ast, i); HasOperand(a)
    case Slot(a) => CellSmaller(ast, i); HasOperand(a)
    case _ => false
  }

  /** Every cell of a node that is emitted is. */
  lemma EmitsEach(ast: Ast, i: nat)
    requires Emits(ast) && i < |Cells(ast)|
    ensures EmitsCell(ast, i)
  {
    hide *;
    CodeIs(ast);
    RangeSplits(ast, 0, i + 1, |Cells(ast)|);
    RangeNext(ast, 0, i);
  }

  lemma OperandCells(ast: Ast)
    requires ast.BoolOp?
    ensures |Cells(ast)| == 3 + |ast.values| && Cells(ast)[..3] == [Word(BOOL_OP), Word(ast.op), Word(|ast.values|)]
    ensures forall i :: 3 <= i < |Cells(ast)| ==> Cells(ast)[i].Misread?
  {
  }

  /** A boolean operator that is emitted has no operands. */
  lemma OnlyBareEmitted(ast: Ast)
    requires ast.BoolOp? && Emits(ast)
    ensures ast.values == []
  {
    hide *;
    OperandCells(ast);
    if ast.values != [] {
      EmitsEach(ast, 3);
      CellCodeIs(ast, 3);
    }
  }

  lemma NothingBelowNull()
    ensures !HasOperand(Null)
  {
  }

  lemma OperandBelowIs(ast: Ast, i: nat)
    requires i < |Cells(ast)| && OperandBelow(ast, i)
    ensures (Cells(ast)[i].Child? || Cells(ast)[i].Slot?) && HasOperand(Cells(ast)[i].ast)
  {
    hide Cells, HasOperand;
  }

  lemma HasOperandIs(ast: Ast)
    ensures HasOperand(ast) <==>
      (ast.BoolOp? && ast.values != [] && ast.values[0] != Null)
      || exists i :: 0 <= i < |Cells(ast)| && IsTree(Cells(ast)[i]) && OperandBelow(ast, i)
  {
  }

  /** No tree with a boolean operator that has an operand is compiled: `parse_next` throws. */
  lemma {:induction false} OperandsNotEmitted(ast: Ast)
    requires HasOperand(ast)
    ensures !Emits(ast)
    decreases ast
  {
    hide *;
    HasOperandIs(ast);
    if Emits(ast) {
      if ast.BoolOp? && ast.values != [] {
        OnlyBareEmitted(ast);
      } else {
        var i :| 0 <= i < |Cells(ast)| && IsTree(Cells(ast)[i]) && OperandBelow(ast, i);
        OperandBelowIs(ast, i);
        EmitsEach(ast, i);
        CellCodeIs(ast, i);
        CellSmaller(ast, i);
        TreeIs(Cells(ast)[i]);
        NothingBelowNull();
        OperandsNotEmitted(Cells(ast)[i].ast);
      }
    }
  }

  /** Without operands, which no program has, it would be. */
  lemma BareOperator(op: uint32)
    ensures Emits(BoolOp(op, []))
  {
    var ast := BoolOp(op, []);
    OperandCells(ast);
    var cells := Cells(ast);
    assert cells == cells[..3];
    hide *;
    CodeIs(ast);
    NoRange(ast, 0);
    RangeNext(ast, 0, 0);
    RangeNext(ast, 0, 1);
    RangeNext(ast, 0, 2);
    CellCodeIs(ast, 0);
    CellCodeIs(ast, 1);
    CellCodeIs(ast, 2);
  }

  /** `a and b`: both operands can be compiled and the operator can not. */
  lemma AndNotEmitted()
    ensures var a, b := Name([97]), Name([98]);
      Emits(a) && Emits(b) && !Emits(BoolOp(0, [a, b]))
  {
    var a, b := Name([97]), Name([98]);
    NameEmits(a);
    NameEmits(b);
    hide Cells, Emits;
    OperandsNotEmitted(BoolOp(0, [a, b]));
  }

  lemma NameEmits(ast: Ast)
    requires ast.Name?
    ensures Emits(ast)
  {
    assert Cells(ast) == [Word(NAME), Text(CStr(ast.id))];
    hide *;
    CodeIs(ast);
    NoRange(ast, 0);
    RangeNext(ast, 0, 0);
    RangeNext(ast, 0, 1);
    CellCodeIs(ast, 0);
    CellCodeIs(ast, 1);
  }

  lemma RangeBound(ast: Ast, i: nat, j: nat)
    requires i <= j <= |Cells(ast)|
    ensures |CodeRange(ast, 0, i)| + |CodeRange(ast, i, j)| <= |Code(ast)|
  {
    hide Cells, CodeRange;
    CodeIs(ast);
    RangeSplits(ast, 0, j, |Cells(ast)|);
    RangeSplits(ast, 0, i, j);
  }

  // The compiler.

  class Compiler {
    const result: BitStream

    constructor ()
      ensures fresh(result) && Ready([])
    {
      result := new BitStream([]);
    }

    /** The stream holds these bytes and is written at the end. */
    ghost predicate Ready(bytes: seq<byte>)
      reads result
    {
      result.Valid() && result.bytes == bytes && result.writePos == |bytes|
    }

    lemma ReadyAt(bytes: seq<byte>)
      requires Ready(bytes)
      ensures result.writePos == |bytes|
    {
    }

    method PutWord(n: nat, ghost before: seq<byte>)
      requires Ready(before)
      modifies result
      ensures Ready(before + U32(n))
    {
      hide U32;
      U32Wraps(n);
      result.AppendWord(n % 0x1_0000_0000);
    }

    method PutText(text: seq<byte>, ghost before: seq<byte>)
      requires Ready(before)
      modifies result
      ensures Ready(before + TextCode(text))
    {
      hide TextCode;
      result.AppendText(text);
    }

    /** Write the cells from i to j, of which none is a length. */
    method ParseCells(ast: Ast, i: nat, j: nat, ghost before: seq<byte>) returns (ok: bool)
      requires i <= j <= |Cells(ast)| && forall k :: i <= k < j ==> !Cells(ast)[k].LengthOf?
      requires Ready(before) && |before| + |CodeRange(ast, i, j)| < 0x1_0000_0000
      modifies result
      ensures ok <==> EmitsRange(ast, i, j)
      ensures ok ==> Ready(before + CodeRange(ast, i, j))
      decreases ast, 1, 0
    {
      hide *;
      NoRange(ast, i);
      assert before + [] == before;
      var k := i;
      while k < j
        invariant i <= k <= j && EmitsRange(ast, i, k) && Ready(before + CodeRange(ast, i, k))
      {
        RangeNext(ast, i, k);
        RangeSplits(ast, i, k + 1, j);
        ConcatAssociative(before, CodeRange(ast, i, k), CellCode(ast, k));
        ok := ParseCell(ast, k, before + CodeRange(ast, i, k));
        if !ok {
          return;
        }
        k := k + 1;
      }
      return true;
    }

    /** One cell: SAFE_PARSE_NEXT for a child, with Pass for an absent expression of a list. */
    method ParseCell(ast: Ast, i: nat, ghost before: seq<byte>) returns (ok: bool)
      requires i < |Cells(ast)| && !Cells(ast)[i].LengthOf?
      requires Ready(before) && |before| + |CellCode(ast, i)| < 0x1_0000_0000
      modifies result
      ensures ok <==> EmitsCell(ast, i)
      ensures ok ==> Ready(before + CellCode(ast, i))
      decreases ast, 0, 0
    {
      hide *;
      CellCodeIs(ast, i);
      match Cells(ast)[i] {
        case Word(n) =>
          PutWord(n, before);
          return true;
        case Text(text) =>
          PutText(text, before);
          return true;
        case Child(a) =>
          CellSmaller(ast, i);
          TreeIs(Cells(ast)[i]);
          if a == Null {
            NullFails();
            return false;
          }
          ok := ParseNext(a, before);
        case Slot(a) =>
          CellSmaller(ast, i);
          TreeIs(Cells(ast)[i]);
          if a == Null {
            PutWord(PASS, before);
            return true;
          }
          ok := ParseNext(a, before);
        case Misread(_) =>
          return false;
      }
    }

    /** parse_next: append the code of a node. */
    method ParseNext(ast: Ast, ghost before: seq<byte>) returns (ok: bool)
      requires Ready(before) && |before| + |Code(ast)| < 0x1_0000_0000
      modifies result
      ensures ok <==> Emits(ast)
      ensures ok ==> Ready(before + Code(ast))
      decreases ast, 3, 0
    {
      hide *;
      CodeIs(ast);
      if ast == Null || ast == Unsupported || ast == OtherNumber {
        return false;
      }
      if ast.FunctionDef? {
        ok := ParseFunction(ast, before);
      } else {
        NoLengths(ast);
        ok := ParseCells(ast, 0, |Cells(ast)|, before);
      }
    }

    /** dummy_zero, written over the word at dummyPos once the body has been written. */
    method Patch(dummyPos: nat, length: nat, ghost front: seq<byte>, ghost back: seq<byte>)
      requires Ready(front + U32(0) + back) && dummyPos == |front|
      modifies result
      ensures Ready(front + U32(length) + back)
    {
      hide U32;
      ghost var was := front + U32(0) + back;
      assert was[..|front|] == front && was[|front| + 4..] == back;
      U32Wraps(length);
      result.MoveToWrite(dummyPos);
      result.PutWord(length % 0x1_0000_0000);
      result.MoveToEndWrite();
    }

    /** A function: its length is written as zero first and patched when its body is complete. */
    method ParseFunction(ast: Ast, ghost before: seq<byte>) returns (ok: bool)
      requires ast.FunctionDef? && Ready(before) && |before| + |Code(ast)| < 0x1_0000_0000
      modifies result
      ensures ok <==> Emits(ast)
      ensures ok ==> Ready(before + Code(ast))
      decreases ast, 2, 0
    {
      hide *;
      FunctionCells(ast);
      FunctionCode(ast);
      ghost var n := |Cells(ast)|;
      ghost var head, middle, code := CodeRange(ast, 0, 2), CodeRange(ast, 3, n - 2), Code(ast.body);
      ok := ParseCells(ast, 0, 2, before);
      if !ok {
        return;
      }
      ghost var front := before + head;
      ReadyAt(front);
      var dummyPos := result.writePos % 0x1_0000_0000;
      PutWord(0, front);
      ok := ParseCells(ast, 3, |Cells(ast)| - 2, front + U32(0));
      if !ok {
        return;
      }
      ReadyAt(front + U32(0) + middle);
      var sizeStart := result.writePos % 0x1_0000_0000;
      if ast.body == Null {
        NullFails();
        return false;
      }
      ok := ParseNext(ast.body, front + U32(0) + middle);
      if !ok {
        return;
      }
      ReadyAt(front + U32(0) + middle + code);
      var sizeEnd := result.writePos % 0x1_0000_0000;
      ConcatAssociative(front + U32(0), middle, code);
      Patch(dummyPos, sizeEnd - sizeStart, front, middle + code);
      PutWord(FUNCTION_END, front + U32(|code|) + (middle + code));
      FunctionBytes(before, head, U32(|code|), middle, code, U32(FUNCTION_END));
    }

    /** run, for the body of a module */
    method Run(body: Ast) returns (ok: bool)
      requires Ready([]) && |Code(body)| < 0x1_0000_0000
      modifies result
      ensures ok <==> Emits(body)
      ensures ok ==> result.bytes == Code(body)
    {
      hide Code, Emits;
      assert [] + Code(body) == Code(body);
      if body == Null {
        NullFails();
        return false;
      }
      ok := ParseNext(body, []);
    }
  }

  lemma TreeIs(c: Cell)
    requires !c.Word? && !c.Text?
    ensures Tree(c) == c.ast
  {
  }

  lemma NullFails()
    ensures !Emits(Null)
  {
  }

  /** Only functions have a length. */
  lemma NoLengths(ast: Ast)
    requires !ast.FunctionDef?
    ensures forall k :: 0 <= k < |Cells(ast)| ==> !Cells(ast)[k].LengthOf?
  {
  }

  lemma FunctionCells(ast: Ast)
    requires ast.FunctionDef?
    ensures var cells := Cells(ast); var n := |cells|;
      && n >= 10
      && cells[2] == LengthOf(ast.body) && cells[n - 2] == Child(ast.body) && cells[n - 1] == Word(FUNCTION_END)
      && forall k :: 0 <= k < n && k != 2 ==> !cells[k].LengthOf?
  {
  }

  /** The code of a function in its parts, and the places that they have in it. */
  lemma FunctionCode(ast: Ast)
    requires ast.FunctionDef? && |Cells(ast)| >= 10
    ensures var n := |Cells(ast)|; var code := Code(ast.body);
      && CodeRange(ast, 0, n)
         == (((CodeRange(ast, 0, 2) + U32(|code|)) + CodeRange(ast, 3, n - 2)) + code) + U32(FUNCTION_END)
      && |CodeRange(ast, 0, 2)| + 4 + |CodeRange(ast, 3, n - 2)| + |code| + 4 == |Code(ast)|
      && (Emits(ast) <==> EmitsRange(ast, 0, 2) && EmitsRange(ast, 3, n - 2) && Emits(ast.body))
      && Code(ast) == CodeRange(ast, 0, n)
  {
    hide *;
    FunctionCells(ast);
    CodeIs(ast);
    var n := |Cells(ast)|;
    RangeNext(ast, 0, n - 1);
    RangeNext(ast, 0, n - 2);
    RangeSplits(ast, 0, 3, n - 2);
    RangeNext(ast, 0, 2);
    CellCodeIs(ast, 2);
    CellCodeIs(ast, n - 2);
    CellCodeIs(ast, n - 1);
  }

  lemma FunctionBytes(before: seq<byte>, head: seq<byte>, length: seq<byte>, middle: seq<byte>,
        code: seq<byte>, end: seq<byte>)
    ensures before + head + length + (middle + code) + end == before + ((((head + length) + middle) + code) + end)
  {
  }
}
