/**
 A parser of the bytecode, written from the cases of the interpreter (`execute_next`,
 `read_function_stub`) with the tags in numerals: it takes the parts of a node in the order in
 which the interpreter reads them and puts the syntax tree together again.
 */
module BytecodeParser {
  import opened Bytes
  import opened BitStream
  import opened Bytecode
  import opened BytecodeReader

  // Reading.

  function TakeWord(s: seq<byte>): (r: Option<(uint32, seq<byte>)>)
    ensures r.Some? ==> |r.value.1| + 4 == |s|
  {
    if |s| < 4 then None
    else Some((16777216 * (s[0] as nat) + 65536 * (s[1] as nat) + 256 * (s[2] as nat) + (s[3] as nat), s[4..]))
  }

  /** A string: how many characters, and these. */
  function TakeText(s: seq<byte>): (r: Option<(seq<byte>, seq<byte>)>)
    ensures r.Some? ==> |r.value.1| + 4 <= |s|
  {
    match TakeWord(s)
    case None => None
    case Some((n, t)) => if |t| < n then None else Some((t[..n], t[n..]))
  }

  /** A word that has to be this one. */
  function TakeMarker(marker: nat, s: seq<byte>): (r: Option<seq<byte>>)
    ensures r.Some? ==> |r.value| + 4 == |s|
  {
    match TakeWord(s)
    case None => None
    case Some((n, t)) => if n == marker then Some(t) else None
  }

  /** A node: its tag and its parts. */
  function Parse(s: seq<byte>): (r: Option<(Ast, seq<byte>)>)
    ensures r.Some? ==> |r.value.1| + 4 <= |s|
    decreases |s|, 0, 0
  {
    match TakeWord(s)
    case None => None
    case Some((tag, t)) =>
      if tag in {2, 5, 8, 29} then ParseText(tag, t)
      else if tag in {4, 13, 21, 27} then ParseOne(tag, t)
      else if tag in {10, 12, 14, 20, 23, 24, 28} then ParseTwo(tag, t)
      else if tag == 9 || tag == 22 then ParseThree(tag, t)
      else if tag in {1, 3, 11, 15, 16, 17, 18, 19, 35} then ParseList(tag, t)
      else if tag == 6 then ParseCompare(t)
      else if tag == 7 then ParseDictionary(t)
      else if tag == 30 then ParseFunction(t)
      else match tag
        case 0 => Some((Pass, t))
        case 25 => Some((Continue, t))
        case 26 => Some((Break, t))
        case _ => None
  }

  /** Names, strings, integers and aliases. */
  function ParseText(tag: nat, s: seq<byte>): (r: Option<(Ast, seq<byte>)>)
    ensures r.Some? ==> |r.value.1| <= |s|
  {
    if tag == 8 then match TakeWord(s)
      case None => None
      case Some((n, t)) => Some((Integer(n), t))
    else match TakeText(s)
      case None => None
      case Some((text, t)) =>
        match tag
        case 2 => Some((Name(text), t))
        case 5 => Some((Str(text), t))
        case 29 =>
          (match TakeText(t)
           case None => None
           case Some((asName, u)) => Some((Alias(text, asName), u)))
        case _ => None
  }

  /** return, unary operators, index, import. */
  function ParseOne(tag: nat, s: seq<byte>): (r: Option<(Ast, seq<byte>)>)
    ensures r.Some? ==> |r.value.1| <= |s|
    decreases |s|, 3, 0
  {
    if tag == 13 then match TakeWord(s)
      case None => None
      case Some((op, t)) =>
        match Parse(t)
        case None => None
        case Some((operand, u)) => Some((UnaryOp(op, operand), u))
    else match Parse(s)
      case None => None
      case Some((a, t)) =>
        match tag
        case 4 => Some((Return(a), t))
        case 21 => Some((Index(a), t))
        case 27 => Some((Import(a), t))
        case _ => None
  }

  /** if, attribute, binary operators, subscript, while, augmented assignment, from. */
  function ParseTwo(tag: nat, s: seq<byte>): (r: Option<(Ast, seq<byte>)>)
    ensures r.Some? ==> |r.value.1| <= |s|
    decreases |s|, 3, 0
  {
    if tag == 14 || tag == 24 then match TakeWord(s)
      case None => None
      case Some((op, t)) =>
        match Parse(t)
        case None => None
        case Some((a, u)) =>
          match Parse(u)
          case None => None
          case Some((b, v)) =>
            if tag == 14 then Some((BinOp(op, a, b), v))
            else Some((AugAssign(op, a, b), v))
    else match Parse(s)
      case None => None
      case Some((a, t)) =>
        match Parse(t)
        case None => None
        case Some((b, u)) =>
          match tag
          case 10 => Some((If(a, b, Null), u))
          case 12 => Some((Attribute(a, b), u))
          case 20 => Some((Subscript(a, b), u))
          case 23 => Some((While(a, b), u))
          case 28 => Some((ImportFrom(a, b), u))
          case _ => None
  }

  /** if with else, for. */
  function ParseThree(tag: nat, s: seq<byte>): (r: Option<(Ast, seq<byte>)>)
    ensures r.Some? ==> |r.value.1| <= |s|
    decreases |s|, 3, 0
  {
    match Parse(s)
    case None => None
    case Some((a, t)) =>
      match Parse(t)
      case None => None
      case Some((b, u)) =>
        match Parse(u)
        case None => None
        case Some((c, v)) => Some((if tag == 9 then If(a, b, c) else For(a, b, c), v))
  }

  /** n nodes, one after the other. */
  function ParseTimes(n: nat, s: seq<byte>): (r: Option<(seq<Ast>, seq<byte>)>)
    ensures r.Some? ==> |r.value.0| == n && |r.value.1| <= |s|
    decreases |s|, 1, n
  {
    if n == 0 then Some(([], s))
    else match Parse(s)
      case None => None
      case Some((a, t)) =>
        match ParseTimes(n - 1, t)
        case None => None
        case Some((list, u)) => Some(([a] + list, u))
  }

  /** A count and that many nodes. */
  function ParseNodes(s: seq<byte>): (r: Option<(seq<Ast>, seq<byte>)>)
    ensures r.Some? ==> |r.value.1| <= |s|
    decreases |s|, 2, 0
  {
    match TakeWord(s)
    case None => None
    case Some((n, t)) => ParseTimes(n, t)
  }

  /** Whatever ends in a list. */
  function ParseList(tag: nat, s: seq<byte>): (r: Option<(Ast, seq<byte>)>)
    ensures r.Some? ==> |r.value.1| <= |s|
    decreases |s|, 3, 0
  {
    if tag in {1, 16, 19, 35} then match ParseNodes(s)
      case None => None
      case Some((list, t)) =>
        match tag
        case 1 => Some((Suite(list), t))
        case 16 => Some((List(list), t))
        case 19 => Some((Tuple(list), t))
        case _ => Some((Global(list), t))
    else if tag == 15 then match TakeWord(s)
      case None => None
      case Some((op, t)) =>
        match ParseNodes(t)
        case None => None
        case Some((list, u)) => Some((BoolOp(op, list), u))
    else if tag == 18 then match Parse(s)
      case None => None
      case Some((target, t)) =>
        match Parse(t)
        case None => None
        case Some((iter, u)) =>
          match ParseNodes(u)
          case None => None
          case Some((list, v)) => Some((Comprehension(target, iter, list), v))
    else match Parse(s)
      case None => None
      case Some((a, t)) =>
        match ParseNodes(t)
        case None => None
        case Some((list, u)) =>
          match tag
          case 3 => Some((Assign(a, list), u))
          case 11 => Some((Call(a, list), u))
          case 17 => Some((ListComp(a, list), u))
          case _ => None
  }

  function ParseEntries(n: nat, s: seq<byte>): (r: Option<(seq<Entry>, seq<byte>)>)
    ensures r.Some? ==> |r.value.0| == n && |r.value.1| <= |s|
    decreases |s|, 1, n
  {
    if n == 0 then Some(([], s))
    else match Parse(s)
      case None => None
      case Some((key, t)) =>
        match Parse(t)
        case None => None
        case Some((value, u)) =>
          match ParseEntries(n - 1, u)
          case None => None
          case Some((list, v)) => Some(([Entry(key, value)] + list, v))
  }

  function ParseDictionary(s: seq<byte>): (r: Option<(Ast, seq<byte>)>)
    ensures r.Some? ==> |r.value.1| <= |s|
    decreases |s|, 3, 0
  {
    match TakeWord(s)
    case None => None
    case Some((n, t)) =>
      match ParseEntries(n, t)
      case None => None
      case Some((list, u)) => Some((Dict(list), u))
  }

  function ParseComparisons(n: nat, s: seq<byte>): (r: Option<(seq<Comparison>, seq<byte>)>)
    ensures r.Some? ==> |r.value.0| == n && |r.value.1| <= |s|
    decreases |s|, 1, n
  {
    if n == 0 then Some(([], s))
    else match TakeWord(s)
      case None => None
      case Some((op, t)) =>
        match Parse(t)
        case None => None
        case Some((right, u)) =>
          match ParseComparisons(n - 1, u)
          case None => None
          case Some((list, v)) => Some(([Comparison(op, right)] + list, v))
  }

  function ParseCompare(s: seq<byte>): (r: Option<(Ast, seq<byte>)>)
    ensures r.Some? ==> |r.value.1| <= |s|
    decreases |s|, 3, 0
  {
    match Parse(s)
    case None => None
    case Some((left, t)) =>
      match TakeWord(t)
      case None => None
      case Some((n, u)) =>
        match ParseComparisons(n, u)
        case None => None
        case Some((list, v)) => Some((Compare(left, list), v))
  }

  /** A function: name, length of the body, arguments, defaults, body, each behind its marker. */
  function ParseFunction(s: seq<byte>): (r: Option<(Ast, seq<byte>)>)
    ensures r.Some? ==> |r.value.1| <= |s|
    decreases |s|, 3, 0
  {
    match Parse(s)
    case None => None
    case Some((name, t)) =>
      match TakeWord(t)
      case None => None
      case Some((length, u)) =>
        match ParseSignature(u)
        case None => None
        case Some((arguments, defaults, v)) =>
          if |v| < length then None
          else match Parse(v[..length])
            case None => None
            case Some((body, nothing)) =>
              match TakeMarker(34, v[length..])
              case None => None
              case Some(w) =>
                if nothing != [] then None else Some((FunctionDef(name, arguments, defaults, body), w))
  }

  function ParseSignature(s: seq<byte>): (r: Option<(seq<Ast>, seq<Ast>, seq<byte>)>)
    ensures r.Some? ==> |r.value.2| + 4 <= |s|
    decreases |s|, 3, 0
  {
    match TakeMarker(33, s)
    case None => None
    case Some(t) =>
      match ParseNodes(t)
      case None => None
      case Some((arguments, u)) =>
        match TakeMarker(31, u)
        case None => None
        case Some(v) =>
          match ParseNodes(v)
          case None => None
          case Some((defaults, w)) =>
            match TakeMarker(32, w)
            case None => None
            case Some(x) => Some((arguments, defaults, x))
  }

  // What becomes of a tree on the way.

  /**
     The same tree without expression statements, with strings cut at a zero byte, integers modulo
     2^32, and Pass for an expression that is missing in a list.
   */
  function Normal(ast: Ast): Ast
    decreases ast, 1
  {
    if ast.ExpressionStatement? then Normal(ast.expr) else NormalNode(ast)
  }

  function NormalNode(ast: Ast): Ast
    requires !ast.ExpressionStatement?
    decreases ast, 0
  {
    match ast
    case Null => Pass
    case Unsupported => Unsupported
    case OtherNumber => OtherNumber
    case Pass => Pass
    case Continue => Continue
    case Break => Break
    case Name(id) => Name(CStr(id))
    case Str(text) => Str(CStr(text))
    case Integer(num) => Integer(num % 4294967296)
    case Alias(name, asName) => Alias(CStr(name), CStr(asName))
    case Import(names) => Import(Normal(names))
    case ImportFrom(source, names) => ImportFrom(Normal(source), Normal(names))
    case Assign(value, targets) =>
      Assign(Normal(value), seq(|targets|, i requires 0 <= i < |targets| => Normal(targets[i])))
    case Suite(items) => Suite(seq(|items|, i requires 0 <= i < |items| => Normal(items[i])))
    case Return(value) => Return(Normal(value))
    case Dict(entries) =>
      Dict(seq(|entries|, i requires 0 <= i < |entries| => Entry(Normal(entries[i].key), Normal(entries[i].value))))
    case Compare(left, comparisons) =>
      Compare(Normal(left), seq(|comparisons|, i requires 0 <= i < |comparisons| =>
        Comparison(comparisons[i].op, Normal(comparisons[i].right))))
    case If(test, body, orelse) =>
      If(Normal(test), Normal(body), if orelse == Null then Null else Normal(orelse))
    case Call(function_, arguments) =>
      Call(Normal(function_), seq(|arguments|, i requires 0 <= i < |arguments| => Normal(arguments[i])))
    case Attribute(value, attribute) => Attribute(Normal(value), Normal(attribute))
    case UnaryOp(op, operand) => UnaryOp(op, Normal(operand))
    case BoolOp(op, values) => BoolOp(op, seq(|values|, i requires 0 <= i < |values| => Normal(values[i])))
    case BinOp(op, left, right) => BinOp(op, Normal(left), Normal(right))
    case List(elements) => List(seq(|elements|, i requires 0 <= i < |elements| => Normal(elements[i])))
    case Tuple(elements) => Tuple(seq(|elements|, i requires 0 <= i < |elements| => Normal(elements[i])))
    case Subscript(slice, value) => Subscript(Normal(slice), Normal(value))
    case Index(value) => Index(Normal(value))
    case For(target, iter, body) => For(Normal(target), Normal(iter), Normal(body))
    case While(test, body) => While(Normal(test), Normal(body))
    case AugAssign(op, target, value) => AugAssign(op, Normal(target), Normal(value))
    case ListComp(element, generators) =>
      ListComp(Normal(element), seq(|generators|, i requires 0 <= i < |generators| => Normal(generators[i])))
    case Comprehension(target, iter, ifs) =>
      Comprehension(Normal(target), Normal(iter), seq(|ifs|, i requires 0 <= i < |ifs| => Normal(ifs[i])))
    case Global(globals) => Global(seq(|globals|, i requires 0 <= i < |globals| => Normal(globals[i])))
    case FunctionDef(name, arguments, defaults, body) =>
      FunctionDef(Normal(name),
        seq(|arguments|, i requires 0 <= i < |arguments| => Normal(arguments[i])),
        seq(|defaults|, i requires 0 <= i < |defaults| => Normal(defaults[i])),
        Normal(body))
  }

  // Parsing takes the parts of a node back one by one.

  /** What is left of a node's code from cell i on, and what follows it. */
  ghost function From(ast: Ast, i: nat, rest: seq<byte>): seq<byte>
    requires i <= |Cells(ast)|
  {
    CodeRange(ast, i, |Cells(ast)|) + rest
  }

  lemma TakeWritten(n: nat, rest: seq<byte>)
    ensures TakeWord(U32(n) + rest) == Some((n % 4294967296, rest))
  {
    ReadWritten(n, rest);
    var s := U32(n) + rest;
    hide U32;
    WordIs(s[0], s[1], s[2], s[3]);
    hide WordOf;
  }

  lemma TakeWrittenText(text: seq<byte>, rest: seq<byte>)
    requires |text| < 4294967296
    ensures TakeText(TextCode(text) + rest) == Some((text, rest))
  {
    ConcatAssociative(U32(|text|), text, rest);
    TakeWritten(|text|, text + rest);
    hide U32, TakeWord;
    assert (text + rest)[..|text|] == text && (text + rest)[|text|..] == rest;
  }

  lemma TakeWrittenMarker(n: nat, rest: seq<byte>)
    requires n < 4294967296
    ensures TakeMarker(n, U32(n) + rest) == Some(rest)
  {
    hide U32, TakeWord;
    TakeWritten(n, rest);
  }

  /** After the last cell there is nothing left of a node. */
  lemma AtEnd(ast: Ast, rest: seq<byte>)
    ensures From(ast, |Cells(ast)|, rest) == rest
  {
    hide Cells;
    NoRange(ast, |Cells(ast)|);
    assert [] + rest == rest;
  }

  lemma FromNext(ast: Ast, i: nat, rest: seq<byte>)
    requires i < |Cells(ast)|
    ensures From(ast, i, rest) == CellCode(ast, i) + From(ast, i + 1, rest)
  {
    hide Cells, CellCode, CodeRange;
    FirstOfRange(ast, i, rest);
  }

  lemma AtWord(ast: Ast, i: nat, rest: seq<byte>)
    requires i < |Cells(ast)| && Cells(ast)[i].Word?
    ensures TakeWord(From(ast, i, rest)) == Some((Cells(ast)[i].n % 4294967296, From(ast, i + 1, rest)))
  {
    hide *;
    FromNext(ast, i, rest);
    CellCodeIs(ast, i);
    TakeWritten(Cells(ast)[i].n, From(ast, i + 1, rest));
  }

  lemma AtText(ast: Ast, i: nat, rest: seq<byte>)
    requires Sound(ast) && i < |Cells(ast)| && Cells(ast)[i].Text?
    ensures TakeText(From(ast, i, rest)) == Some((Cells(ast)[i].text, From(ast, i + 1, rest)))
  {
    hide *;
    SoundFacts(ast);
    FromNext(ast, i, rest);
    CellSize(ast, i);
    CellCodeIs(ast, i);
    TextMinimum(Cells(ast)[i].text);
    TakeWrittenText(Cells(ast)[i].text, From(ast, i + 1, rest));
  }

  /** A node behind its tag. */
  lemma AtTag(ast: Ast, rest: seq<byte>)
    requires Sound(ast) && !ast.ExpressionStatement?
    ensures |Cells(ast)| > 0 && Cells(ast)[0] == Word(Tag(ast))
    ensures TakeWord(Code(ast) + rest) == Some((Tag(ast), From(ast, 1, rest)))
  {
    hide *;
    SoundFacts(ast);
    EmittedFacts(ast, rest);
    CodeIs(ast);
    FromIs(ast, 0, rest);
    AtWord(ast, 0, rest);
  }

  lemma FromIs(ast: Ast, i: nat, rest: seq<byte>)
    requires i <= |Cells(ast)|
    ensures From(ast, i, rest) == CodeRange(ast, i, |Cells(ast)|) + rest
  {
    hide Cells, CodeRange;
  }

  /** A child is taken back whole. */
  lemma {:induction false} AtTree(ast: Ast, i: nat, rest: seq<byte>)
    requires Sound(ast) && i < |Cells(ast)| && (Cells(ast)[i].Child? || Cells(ast)[i].Slot?)
    ensures Parse(From(ast, i, rest)) == Some((Normal(Cells(ast)[i].ast), From(ast, i + 1, rest)))
    decreases ast, 0, 0
  {
    hide *;
    SoundFacts(ast);
    FromNext(ast, i, rest);
    CellSize(ast, i);
    ChildSound(ast, i);
    CellSmaller(ast, i);
    TreeIs(Cells(ast)[i]);
    if Cells(ast)[i].ast == Null {
      ParsePass(From(ast, i + 1, rest));
    } else {
      ParseCode(Cells(ast)[i].ast, From(ast, i + 1, rest));
    }
  }

  lemma ParsePass(rest: seq<byte>)
    ensures Parse(U32(PASS) + rest) == Some((Normal(Null), rest))
  {
    TakeWritten(PASS, rest);
    hide TakeWord, U32;
  }

  // What the parser does with each kind of node.

  lemma ParseIs(s: seq<byte>, tag: nat, t: seq<byte>)
    requires TakeWord(s) == Some((tag, t))
    ensures tag == 0 ==> Parse(s) == Some((Pass, t))
    ensures tag == 25 ==> Parse(s) == Some((Continue, t))
    ensures tag == 26 ==> Parse(s) == Some((Break, t))
    ensures tag in {2, 5, 8, 29} ==> Parse(s) == ParseText(tag, t)
    ensures tag in {4, 13, 21, 27} ==> Parse(s) == ParseOne(tag, t)
    ensures tag in {10, 12, 14, 20, 23, 24, 28} ==> Parse(s) == ParseTwo(tag, t)
    ensures tag == 9 || tag == 22 ==> Parse(s) == ParseThree(tag, t)
    ensures tag in {1, 3, 11, 15, 16, 17, 18, 19, 35} ==> Parse(s) == ParseList(tag, t)
    ensures tag == 6 ==> Parse(s) == ParseCompare(t)
    ensures tag == 7 ==> Parse(s) == ParseDictionary(t)
    ensures tag == 30 ==> Parse(s) == ParseFunction(t)
  {
    hide TakeWord, ParseText, ParseOne, ParseTwo, ParseThree, ParseList, ParseCompare, ParseDictionary, ParseFunction;
  }

  lemma TextIs(tag: nat, s: seq<byte>, text: seq<byte>, t: seq<byte>)
    requires TakeText(s) == Some((text, t))
    ensures tag == 2 ==> ParseText(tag, s) == Some((Name(text), t))
    ensures tag == 5 ==> ParseText(tag, s) == Some((Str(text), t))
    ensures tag == 29 ==>
      forall asName, u :: TakeText(t) == Some((asName, u)) ==> ParseText(tag, s) == Some((Alias(text, asName), u))
  {
    hide TakeText, TakeWord;
  }

  lemma IntegerIs(s: seq<byte>, n: uint32, t: seq<byte>)
    requires TakeWord(s) == Some((n, t))
    ensures ParseText(8, s) == Some((Integer(n), t))
  {
    hide TakeText, TakeWord;
  }

  lemma OneIs(tag: nat, s: seq<byte>, a: Ast, t: seq<byte>)
    requires Parse(s) == Some((a, t))
    ensures tag == 4 ==> ParseOne(tag, s) == Some((Return(a), t))
    ensures tag == 21 ==> ParseOne(tag, s) == Some((Index(a), t))
    ensures tag == 27 ==> ParseOne(tag, s) == Some((Import(a), t))
  {
    hide Parse;
  }

  lemma UnaryIs(s: seq<byte>, op: uint32, t: seq<byte>, a: Ast, u: seq<byte>)
    requires TakeWord(s) == Some((op, t)) && Parse(t) == Some((a, u))
    ensures ParseOne(13, s) == Some((UnaryOp(op, a), u))
  {
    hide Parse, TakeWord;
  }

  lemma TwoIs(tag: nat, s: seq<byte>, a: Ast, t: seq<byte>, b: Ast, u: seq<byte>)
    requires Parse(s) == Some((a, t)) && Parse(t) == Some((b, u))
    ensures tag == 10 ==> ParseTwo(tag, s) == Some((If(a, b, Null), u))
    ensures tag == 12 ==> ParseTwo(tag, s) == Some((Attribute(a, b), u))
    ensures tag == 20 ==> ParseTwo(tag, s) == Some((Subscript(a, b), u))
    ensures tag == 23 ==> ParseTwo(tag, s) == Some((While(a, b), u))
    ensures tag == 28 ==> ParseTwo(tag, s) == Some((ImportFrom(a, b), u))
  {
    hide Parse;
  }

  lemma OperatorIs(tag: nat, s: seq<byte>, op: uint32, t: seq<byte>, a: Ast, u: seq<byte>, b: Ast, v: seq<byte>)
    requires TakeWord(s) == Some((op, t)) && Parse(t) == Some((a, u)) && Parse(u) == Some((b, v))
    ensures tag == 14 ==> ParseTwo(tag, s) == Some((BinOp(op, a, b), v))
    ensures tag == 24 ==> ParseTwo(tag, s) == Some((AugAssign(op, a, b), v))
  {
    hide Parse, TakeWord;
  }

  lemma ThreeIs(tag: nat, s: seq<byte>, a: Ast, t: seq<byte>, b: Ast, u: seq<byte>, c: Ast, v: seq<byte>)
    requires Parse(s) == Some((a, t)) && Parse(t) == Some((b, u)) && Parse(u) == Some((c, v))
    ensures ParseThree(tag, s) == Some((if tag == 9 then If(a, b, c) else For(a, b, c), v))
  {
    hide Parse;
  }

  lemma ListIs(tag: nat, s: seq<byte>, list: seq<Ast>, t: seq<byte>)
    requires ParseNodes(s) == Some((list, t))
    ensures tag == 1 ==> ParseList(tag, s) == Some((Suite(list), t))
    ensures tag == 16 ==> ParseList(tag, s) == Some((List(list), t))
    ensures tag == 19 ==> ParseList(tag, s) == Some((Tuple(list), t))
    ensures tag == 35 ==> ParseList(tag, s) == Some((Global(list), t))
  {
    hide Parse, ParseNodes, TakeWord;
  }

  lemma BoolOpIs(s: seq<byte>, op: uint32, t: seq<byte>, list: seq<Ast>, u: seq<byte>)
    requires TakeWord(s) == Some((op, t)) && ParseNodes(t) == Some((list, u))
    ensures ParseList(15, s) == Some((BoolOp(op, list), u))
  {
    hide Parse, ParseNodes, TakeWord;
  }

  lemma NodeAndListIs(tag: nat, s: seq<byte>, a: Ast, t: seq<byte>, list: seq<Ast>, u: seq<byte>)
    requires Parse(s) == Some((a, t)) && ParseNodes(t) == Some((list, u))
    ensures tag == 3 ==> ParseList(tag, s) == Some((Assign(a, list), u))
    ensures tag == 11 ==> ParseList(tag, s) == Some((Call(a, list), u))
    ensures tag == 17 ==> ParseList(tag, s) == Some((ListComp(a, list), u))
  {
    hide Parse, ParseNodes, TakeWord;
  }

  lemma ComprehensionIs(s: seq<byte>, a: Ast, t: seq<byte>, b: Ast, u: seq<byte>, list: seq<Ast>, v: seq<byte>)
    requires Parse(s) == Some((a, t)) && Parse(t) == Some((b, u)) && ParseNodes(u) == Some((list, v))
    ensures ParseList(18, s) == Some((Comprehension(a, b, list), v))
  {
    hide Parse, ParseNodes, TakeWord;
  }

  // Where the parts of each kind are.

  lemma LeafCells(ast: Ast)
    requires ast.Pass? || ast.Continue? || ast.Break?
    ensures |Cells(ast)| == 1 && Tag(ast) == (if ast.Pass? then 0 else if ast.Continue? then 25 else 26)
    ensures Normal(ast) == ast
  {
  }

  lemma TextCells(ast: Ast)
    requires ast.Name? || ast.Str? || ast.Alias?
    ensures ast.Name? ==>
      Tag(ast) == 2 && Cells(ast)[1..] == [Text(CStr(ast.id))] && Normal(ast) == Name(CStr(ast.id))
    ensures ast.Str? ==>
      Tag(ast) == 5 && Cells(ast)[1..] == [Text(CStr(ast.text))] && Normal(ast) == Str(CStr(ast.text))
    ensures ast.Alias? ==>
      && Tag(ast) == 29 && Cells(ast)[1..] == [Text(CStr(ast.name)), Text(CStr(ast.asName))]
      && Normal(ast) == Alias(CStr(ast.name), CStr(ast.asName))
  {
    hide CStr;
  }

  lemma IntegerCells(ast: Ast)
    requires ast.Integer?
    ensures Tag(ast) == 8 && Cells(ast)[1..] == [Word(ast.num % 4294967296)]
    ensures Normal(ast) == Integer(ast.num % 4294967296)
  {
  }

  lemma OneCells(ast: Ast)
    requires ast.Return? || ast.Index? || ast.Import? || ast.UnaryOp?
    ensures ast.Return? ==>
      Tag(ast) == 4 && Cells(ast)[1..] == [Child(ast.value)] && Normal(ast) == Return(Normal(ast.value))
    ensures ast.Index? ==>
      Tag(ast) == 21 && Cells(ast)[1..] == [Child(ast.value)] && Normal(ast) == Index(Normal(ast.value))
    ensures ast.Import? ==>
      Tag(ast) == 27 && Cells(ast)[1..] == [Child(ast.names)] && Normal(ast) == Import(Normal(ast.names))
    ensures ast.UnaryOp? ==>
      && Tag(ast) == 13 && Cells(ast)[1..] == [Word(ast.op), Child(ast.operand)]
      && Normal(ast) == UnaryOp(ast.op, Normal(ast.operand))
  {
  }

  /** The two children of a node that has two. */
  function First(ast: Ast): Ast {
    match ast
    case If(test, _, _) => test
    case Attribute(value, _) => value
    case Subscript(slice, _) => slice
    case While(test, _) => test
    case ImportFrom(source, _) => source
    case BinOp(_, left, _) => left
    case AugAssign(_, target, _) => target
    case _ => ast
  }

  function Second(ast: Ast): Ast {
    match ast
    case If(_, body, _) => body
    case Attribute(_, attribute) => attribute
    case Subscript(_, value) => value
    case While(_, body) => body
    case ImportFrom(_, names) => names
    case BinOp(_, _, right) => right
    case AugAssign(_, _, value) => value
    case _ => ast
  }

  lemma TwoCells(ast: Ast)
    requires (ast.If? && ast.orelse == Null) || ast.Attribute? || ast.Subscript? || ast.While? || ast.ImportFrom?
    ensures Cells(ast)[1..] == [Child(First(ast)), Child(Second(ast))]
    ensures var a, b := Normal(First(ast)), Normal(Second(ast));
      && (ast.If? ==> Tag(ast) == 10 && Normal(ast) == If(a, b, Null))
      && (ast.Attribute? ==> Tag(ast) == 12 && Normal(ast) == Attribute(a, b))
      && (ast.Subscript? ==> Tag(ast) == 20 && Normal(ast) == Subscript(a, b))
      && (ast.While? ==> Tag(ast) == 23 && Normal(ast) == While(a, b))
      && (ast.ImportFrom? ==> Tag(ast) == 28 && Normal(ast) == ImportFrom(a, b))
  {
  }

  lemma OperatorCells(ast: Ast)
    requires ast.BinOp? || ast.AugAssign?
    ensures Cells(ast)[1..] == [Word(ast.op), Child(First(ast)), Child(Second(ast))]
    ensures var a, b := Normal(First(ast)), Normal(Second(ast));
      && (ast.BinOp? ==> Tag(ast) == 14 && Normal(ast) == BinOp(ast.op, a, b))
      && (ast.AugAssign? ==> Tag(ast) == 24 && Normal(ast) == AugAssign(ast.op, a, b))
  {
  }

  lemma ThreeCells(ast: Ast)
    requires (ast.If? && ast.orelse != Null) || ast.For?
    ensures ast.If? ==>
      && Tag(ast) == 9 && Cells(ast)[1..] == [Child(ast.test), Child(ast.body), Child(ast.orelse)]
      && Normal(ast) == If(Normal(ast.test), Normal(ast.body), Normal(ast.orelse))
    ensures ast.For? ==>
      && Tag(ast) == 22 && Cells(ast)[1..] == [Child(ast.target), Child(ast.iter), Child(ast.body)]
      && Normal(ast) == For(Normal(ast.target), Normal(ast.iter), Normal(ast.body))
  {
  }

  lemma CellAt(cells: seq<Cell>, i: nat)
    requires 1 <= i < |cells|
    ensures cells[i] == cells[1..][i - 1] && |cells[1..]| == |cells| - 1
  {
  }

  // Parsing takes back every kind of node.

  lemma ParseLeafCode(ast: Ast, rest: seq<byte>)
    requires Sound(ast) && (ast.Pass? || ast.Continue? || ast.Break?)
    ensures Parse(Code(ast) + rest) == Some((Normal(ast), rest))
  {
    hide *;
    LeafCells(ast);
    AtTag(ast, rest);
    AtEnd(ast, rest);
    ParseIs(Code(ast) + rest, Tag(ast), rest);
  }

  lemma ParseTextCode(ast: Ast, rest: seq<byte>)
    requires Sound(ast) && (ast.Name? || ast.Str? || ast.Alias?)
    ensures Parse(Code(ast) + rest) == Some((Normal(ast), rest))
  {
    hide *;
    TextCells(ast);
    AtTag(ast, rest);
    CellAt(Cells(ast), 1);
    AtText(ast, 1, rest);
    if ast.Alias? {
      CellAt(Cells(ast), 2);
      AtText(ast, 2, rest);
    }
    AtEnd(ast, rest);
    ParseIs(Code(ast) + rest, Tag(ast), From(ast, 1, rest));
    TextIs(Tag(ast), From(ast, 1, rest), Cells(ast)[1].text, From(ast, 2, rest));
  }

  lemma ParseIntegerCode(ast: Ast, rest: seq<byte>)
    requires Sound(ast) && ast.Integer?
    ensures Parse(Code(ast) + rest) == Some((Normal(ast), rest))
  {
    hide *;
    IntegerCells(ast);
    AtTag(ast, rest);
    CellAt(Cells(ast), 1);
    AtWord(ast, 1, rest);
    AtEnd(ast, rest);
    ParseIs(Code(ast) + rest, Tag(ast), From(ast, 1, rest));
    IntegerIs(From(ast, 1, rest), ast.num % 4294967296, rest);
  }

  lemma {:induction false} ParseOneCode(ast: Ast, rest: seq<byte>)
    requires Sound(ast) && (ast.Return? || ast.Index? || ast.Import? || ast.UnaryOp?)
    ensures Parse(Code(ast) + rest) == Some((Normal(ast), rest))
    decreases ast, 2, 0
  {
    hide *;
    OneCells(ast);
    AtTag(ast, rest);
    CellAt(Cells(ast), 1);
    ParseIs(Code(ast) + rest, Tag(ast), From(ast, 1, rest));
    AtEnd(ast, rest);
    if ast.UnaryOp? {
      CellAt(Cells(ast), 2);
      AtWord(ast, 1, rest);
      AtTree(ast, 2, rest);
      UnaryIs(From(ast, 1, rest), ast.op, From(ast, 2, rest), Normal(ast.operand), rest);
    } else {
      AtTree(ast, 1, rest);
      OneIs(Tag(ast), From(ast, 1, rest), Normal(Cells(ast)[1].ast), rest);
    }
  }

  lemma {:induction false} ParseTwoCode(ast: Ast, rest: seq<byte>)
    requires Sound(ast)
    requires (ast.If? && ast.orelse == Null) || ast.Attribute? || ast.Subscript? || ast.While? || ast.ImportFrom?
    ensures Parse(Code(ast) + rest) == Some((Normal(ast), rest))
    decreases ast, 2, 0
  {
    hide *;
    TwoCells(ast);
    AtTag(ast, rest);
    CellAt(Cells(ast), 1);
    CellAt(Cells(ast), 2);
    ParseIs(Code(ast) + rest, Tag(ast), From(ast, 1, rest));
    AtTree(ast, 1, rest);
    AtTree(ast, 2, rest);
    AtEnd(ast, rest);
    TwoIs(Tag(ast), From(ast, 1, rest), Normal(First(ast)), From(ast, 2, rest), Normal(Second(ast)), rest);
  }

  lemma {:induction false} ParseOperatorCode(ast: Ast, rest: seq<byte>)
    requires Sound(ast) && (ast.BinOp? || ast.AugAssign?)
    ensures Parse(Code(ast) + rest) == Some((Normal(ast), rest))
    decreases ast, 2, 0
  {
    hide *;
    OperatorCells(ast);
    AtTag(ast, rest);
    CellAt(Cells(ast), 1);
    CellAt(Cells(ast), 2);
    CellAt(Cells(ast), 3);
    ParseIs(Code(ast) + rest, Tag(ast), From(ast, 1, rest));
    AtWord(ast, 1, rest);
    AtTree(ast, 2, rest);
    AtTree(ast, 3, rest);
    AtEnd(ast, rest);
    OperatorIs(Tag(ast), From(ast, 1, rest), ast.op, From(ast, 2, rest), Normal(First(ast)), From(ast, 3, rest),
      Normal(Second(ast)), rest);
  }

  lemma {:induction false} ParseThreeCode(ast: Ast, rest: seq<byte>)
    requires Sound(ast) && ((ast.If? && ast.orelse != Null) || ast.For?)
    ensures Parse(Code(ast) + rest) == Some((Normal(ast), rest))
    decreases ast, 2, 0
  {
    hide *;
    ThreeCells(ast);
    AtTag(ast, rest);
    var cells := Cells(ast);
    CellAt(cells, 1);
    CellAt(cells, 2);
    CellAt(cells, 3);
    ParseIs(Code(ast) + rest, Tag(ast), From(ast, 1, rest));
    AtTree(ast, 1, rest);
    AtTree(ast, 2, rest);
    AtTree(ast, 3, rest);
    AtEnd(ast, rest);
    ThreeIs(Tag(ast), From(ast, 1, rest), Normal(cells[1].ast), From(ast, 2, rest), Normal(cells[2].ast),
      From(ast, 3, rest), Normal(cells[3].ast), rest);
  }

  // Lists.

  /** What becomes of each part. */
  function NormalEach(list: seq<Ast>): (r: seq<Ast>)
    ensures |r| == |list|
  {
    seq(|list|, i requires 0 <= i < |list| => Normal(list[i]))
  }

  lemma NodeIs(ast: Ast)
    requires !ast.ExpressionStatement?
    ensures Normal(ast) == NormalNode(ast)
  {
    hide NormalNode;
  }

  lemma NormalEachIs(list: seq<Ast>, r: seq<Ast>)
    requires |r| == |list| && forall i :: 0 <= i < |list| ==> r[i] == Normal(list[i])
    ensures r == NormalEach(list)
  {
    hide Normal;
  }

  lemma NormalFirst(list: seq<Ast>)
    requires list != []
    ensures NormalEach(list) == [Normal(list[0])] + NormalEach(list[1..])
  {
    hide Normal;
  }

  /** From cell i on there are the trees of a list. */
  ghost predicate TreesAt(ast: Ast, i: nat, list: seq<Ast>) {
    i + |list| <= |Cells(ast)|
    && forall k :: 0 <= k < |list| ==> Cells(ast)[i + k] == Child(list[k]) || Cells(ast)[i + k] == Slot(list[k])
  }

  lemma TreesFirst(ast: Ast, i: nat, list: seq<Ast>)
    requires TreesAt(ast, i, list) && list != []
    ensures i < |Cells(ast)| && (Cells(ast)[i] == Child(list[0]) || Cells(ast)[i] == Slot(list[0]))
    ensures TreesAt(ast, i + 1, list[1..])
  {
    hide Cells;
    assert Cells(ast)[i + 0] == Child(list[0]) || Cells(ast)[i + 0] == Slot(list[0]);
    forall k | 0 <= k < |list[1..]|
      ensures Cells(ast)[i + 1 + k] == Child(list[1..][k]) || Cells(ast)[i + 1 + k] == Slot(list[1..][k])
    {
      assert list[1..][k] == list[k + 1] && i + (k + 1) == i + 1 + k;
    }
  }

  lemma {:induction false} AtTrees(ast: Ast, i: nat, list: seq<Ast>, rest: seq<byte>)
    requires Sound(ast) && TreesAt(ast, i, list) && i + |list| <= |Cells(ast)|
    ensures ParseTimes(|list|, From(ast, i, rest)) == Some((NormalEach(list), From(ast, i + |list|, rest)))
    decreases ast, 1, |list|
  {
    hide *;
    if list == [] {
      TimesNone(From(ast, i, rest));
    } else {
      TreesFirst(ast, i, list);
      AtTree(ast, i, rest);
      AtTrees(ast, i + 1, list[1..], rest);
      NormalFirst(list);
      TimesNext(|list|, From(ast, i, rest), Normal(list[0]), From(ast, i + 1, rest), NormalEach(list[1..]),
        From(ast, i + |list|, rest));
    }
  }

  lemma TimesNone(s: seq<byte>)
    ensures ParseTimes(0, s) == Some((NormalEach([]), s))
  {
  }

  lemma TimesNext(n: nat, s: seq<byte>, a: Ast, t: seq<byte>, list: seq<Ast>, u: seq<byte>)
    requires n > 0 && Parse(s) == Some((a, t)) && ParseTimes(n - 1, t) == Some((list, u))
    ensures ParseTimes(n, s) == Some(([a] + list, u))
  {
    hide Parse;
  }

  /** A count at cell i, and the trees of a list. */
  ghost predicate ListAt(ast: Ast, i: nat, list: seq<Ast>) {
    i < |Cells(ast)| && Cells(ast)[i] == Word(|list|) && TreesAt(ast, i + 1, list)
  }

  lemma ListFacts(ast: Ast, i: nat, list: seq<Ast>)
    requires ListAt(ast, i, list)
    ensures i < |Cells(ast)| && Cells(ast)[i] == Word(|list|)
    ensures TreesAt(ast, i + 1, list) && i + 1 + |list| <= |Cells(ast)|
  {
    hide Cells;
  }

  /** No list is longer than a word can count. */
  lemma CellsCounted(ast: Ast)
    requires Sound(ast)
    ensures |Cells(ast)| < 4294967296
  {
    hide *;
    SoundFacts(ast);
    CodeMinimum(ast);
  }

  lemma {:induction false} AtList(ast: Ast, i: nat, list: seq<Ast>, rest: seq<byte>)
    requires Sound(ast) && ListAt(ast, i, list) && i + 1 + |list| <= |Cells(ast)|
    ensures ParseNodes(From(ast, i, rest)) == Some((NormalEach(list), From(ast, i + 1 + |list|, rest)))
    decreases ast, 1, |list| + 1
  {
    hide *;
    ListFacts(ast, i, list);
    CellsCounted(ast);
    AtWord(ast, i, rest);
    AtTrees(ast, i + 1, list, rest);
    NodesIs(From(ast, i, rest), |list|, From(ast, i + 1, rest));
  }

  lemma NodesIs(s: seq<byte>, n: nat, t: seq<byte>)
    requires TakeWord(s) == Some((n, t))
    ensures ParseNodes(s) == ParseTimes(n, t)
  {
    hide TakeWord, ParseTimes;
  }

  /** The list in a node that has one. */
  function Items(ast: Ast): seq<Ast> {
    match ast
    case Suite(items) => items
    case List(elements) => elements
    case Tuple(elements) => elements
    case Global(globals) => globals
    case Assign(_, targets) => targets
    case Call(_, arguments) => arguments
    case ListComp(_, generators) => generators
    case Comprehension(_, _, ifs) => ifs
    case BoolOp(_, values) => values
    case _ => []
  }

  /** A list at the end of a node. */
  lemma ListAtEnd(ast: Ast, i: nat, list: seq<Ast>)
    requires i <= |Cells(ast)| && (Cells(ast)[i..] == ExprList(list) || Cells(ast)[i..] == ChildList(list))
    ensures ListAt(ast, i, list) && |Cells(ast)| == i + 1 + |list|
  {
    var cells := Cells(ast);
    hide Cells;
    var tail := cells[i..];
    assert |tail| == 1 + |list| && tail[0] == Word(|list|);
    forall k | 0 <= k < |list| ensures cells[i + 1 + k] == Child(list[k]) || cells[i + 1 + k] == Slot(list[k]) {
      assert tail[1 + k] == cells[i + 1 + k];
    }
  }

  lemma PlainListLayout(ast: Ast)
    requires ast.Suite? || ast.List? || ast.Tuple? || ast.Global?
    ensures ListAt(ast, 1, Items(ast)) && |Cells(ast)| == 2 + |Items(ast)|
    ensures Tag(ast) == if ast.Suite? then 1 else if ast.List? then 16 else if ast.Tuple? then 19 else 35
  {
    hide *;
    ListTag(ast);
    ListTail(ast);
    ListAtEnd(ast, 1, Items(ast));
  }

  lemma ListTag(ast: Ast)
    requires ast.Suite? || ast.List? || ast.Tuple? || ast.Global?
    ensures Tag(ast) == if ast.Suite? then 1 else if ast.List? then 16 else if ast.Tuple? then 19 else 35
  {
    hide ExprList, ChildList;
  }

  lemma ListTail(ast: Ast)
    requires ast.Suite? || ast.List? || ast.Tuple? || ast.Global?
    ensures Cells(ast) != []
    ensures Cells(ast)[1..] == if ast.List? then ExprList(Items(ast)) else ChildList(Items(ast))
  {
    hide ExprList, ChildList;
  }

  lemma PlainListNormal(ast: Ast)
    requires ast.Suite? || ast.List? || ast.Tuple? || ast.Global?
    ensures var list := NormalEach(Items(ast));
      Normal(ast) == if ast.Suite? then Suite(list) else if ast.List? then List(list)
                     else if ast.Tuple? then Tuple(list) else Global(list)
  {
    NodeIs(ast);
    var n := NormalNode(ast);
    match ast
    case Suite(items) => NormalEachIs(items, n.items);
    case List(elements) => NormalEachIs(elements, n.elements);
    case Tuple(elements) => NormalEachIs(elements, n.elements);
    case Global(globals) => NormalEachIs(globals, n.globals);
  }

  lemma {:induction false} ParsePlainListCode(ast: Ast, rest: seq<byte>)
    requires Sound(ast) && (ast.Suite? || ast.List? || ast.Tuple? || ast.Global?)
    ensures Parse(Code(ast) + rest) == Some((Normal(ast), rest))
    decreases ast, 2, 0
  {
    hide *;
    PlainListLayout(ast);
    PlainListNormal(ast);
    AtTag(ast, rest);
    AtList(ast, 1, Items(ast), rest);
    AtEnd(ast, rest);
    ParseIs(Code(ast) + rest, Tag(ast), From(ast, 1, rest));
    ListIs(Tag(ast), From(ast, 1, rest), NormalEach(Items(ast)), rest);
  }

  lemma NodeAndListLayout(ast: Ast)
    requires ast.Assign? || ast.Call? || ast.ListComp?
    ensures ListAt(ast, 2, Items(ast)) && |Cells(ast)| == 3 + |Items(ast)| && Cells(ast)[1].Child?
    ensures Tag(ast) == if ast.Assign? then 3 else if ast.Call? then 11 else 17
  {
    NodeAndListTail(ast);
    ListAtEnd(ast, 2, Items(ast));
    hide ListAt;
  }

  lemma NodeAndListTail(ast: Ast)
    requires ast.Assign? || ast.Call? || ast.ListComp?
    ensures |Cells(ast)| >= 2 && Cells(ast)[2..] == ExprList(Items(ast))
  {
    hide ExprList;
  }

  lemma NodeAndListNormal(ast: Ast)
    requires ast.Assign? || ast.Call? || ast.ListComp?
    ensures |Cells(ast)| > 1 && Cells(ast)[1].Child?
    ensures var a, list := Normal(Cells(ast)[1].ast), NormalEach(Items(ast));
      Normal(ast) == if ast.Assign? then Assign(a, list) else if ast.Call? then Call(a, list) else ListComp(a, list)
  {
    NodeIs(ast);
    var n := NormalNode(ast);
    match ast
    case Assign(_, targets) => NormalEachIs(targets, n.targets);
    case Call(_, arguments) => NormalEachIs(arguments, n.arguments);
    case ListComp(_, generators) => NormalEachIs(generators, n.generators);
  }

  lemma {:induction false} ParseNodeAndListCode(ast: Ast, rest: seq<byte>)
    requires Sound(ast) && (ast.Assign? || ast.Call? || ast.ListComp?)
    ensures Parse(Code(ast) + rest) == Some((Normal(ast), rest))
    decreases ast, 2, 0
  {
    hide *;
    NodeAndListLayout(ast);
    NodeAndListNormal(ast);
    AtTag(ast, rest);
    AtTree(ast, 1, rest);
    AtList(ast, 2, Items(ast), rest);
    AtEnd(ast, rest);
    ParseIs(Code(ast) + rest, Tag(ast), From(ast, 1, rest));
    NodeAndListIs(Tag(ast), From(ast, 1, rest), Normal(Cells(ast)[1].ast), From(ast, 2, rest),
      NormalEach(Items(ast)), rest);
  }

  lemma ComprehensionLayout(ast: Ast)
    requires ast.Comprehension?
    ensures ListAt(ast, 3, ast.ifs) && |Cells(ast)| == 4 + |ast.ifs| && Tag(ast) == 18
    ensures Cells(ast)[1] == Child(ast.target) && Cells(ast)[2] == Child(ast.iter)
  {
    ComprehensionTail(ast);
    ListAtEnd(ast, 3, ast.ifs);
    hide ListAt;
  }

  lemma ComprehensionTail(ast: Ast)
    requires ast.Comprehension?
    ensures |Cells(ast)| >= 3 && Cells(ast)[3..] == ExprList(ast.ifs)
  {
    hide ExprList;
  }

  lemma ComprehensionNormal(ast: Ast)
    requires ast.Comprehension?
    ensures Normal(ast) == Comprehension(Normal(ast.target), Normal(ast.iter), NormalEach(ast.ifs))
  {
    NodeIs(ast);
    NormalEachIs(ast.ifs, NormalNode(ast).ifs);
    hide NormalEach;
  }

  lemma {:induction false} ParseComprehensionCode(ast: Ast, rest: seq<byte>)
    requires Sound(ast) && ast.Comprehension?
    ensures Parse(Code(ast) + rest) == Some((Normal(ast), rest))
    decreases ast, 2, 0
  {
    hide *;
    ComprehensionLayout(ast);
    ComprehensionNormal(ast);
    AtTag(ast, rest);
    AtTree(ast, 1, rest);
    AtTree(ast, 2, rest);
    AtList(ast, 3, ast.ifs, rest);
    AtEnd(ast, rest);
    ParseIs(Code(ast) + rest, Tag(ast), From(ast, 1, rest));
    ComprehensionIs(From(ast, 1, rest), Normal(ast.target), From(ast, 2, rest), Normal(ast.iter), From(ast, 3, rest),
      NormalEach(ast.ifs), rest);
  }

  lemma BoolOpLayout(ast: Ast)
    requires ast.BoolOp? && ast.values == []
    ensures Cells(ast)[1..] == [Word(ast.op), Word(0)] && Tag(ast) == 15
    ensures ListAt(ast, 2, []) && Normal(ast) == BoolOp(ast.op, NormalEach([]))
  {
  }

  /** A boolean operator, of which only the bare ones are compiled. */
  lemma {:induction false} ParseBoolOpCode(ast: Ast, rest: seq<byte>)
    requires Sound(ast) && ast.BoolOp?
    ensures Parse(Code(ast) + rest) == Some((Normal(ast), rest))
    decreases ast, 2, 0
  {
    hide *;
    SoundFacts(ast);
    OnlyBareEmitted(ast);
    BoolOpLayout(ast);
    AtTag(ast, rest);
    CellAt(Cells(ast), 1);
    CellAt(Cells(ast), 2);
    AtWord(ast, 1, rest);
    AtList(ast, 2, [], rest);
    AtEnd(ast, rest);
    ParseIs(Code(ast) + rest, Tag(ast), From(ast, 1, rest));
    BoolOpIs(From(ast, 1, rest), ast.op, From(ast, 2, rest), NormalEach([]), rest);
  }

  // Dictionaries and comparisons.

  function NormalEntries(entries: seq<Entry>): (r: seq<Entry>)
    ensures |r| == |entries|
  {
    seq(|entries|, i requires 0 <= i < |entries| => Entry(Normal(entries[i].key), Normal(entries[i].value)))
  }

  lemma EntriesFirst(entries: seq<Entry>, k: nat)
    requires k < |entries|
    ensures NormalEntries(entries[k..])
      == [Entry(Normal(entries[k].key), Normal(entries[k].value))] + NormalEntries(entries[k + 1..])
  {
    hide Normal;
  }

  lemma DictLayout(ast: Ast)
    requires ast.Dict?
    ensures |Cells(ast)| == 2 + 2 * |ast.entries| && Cells(ast)[1] == Word(|ast.entries|) && Tag(ast) == 7
    ensures Normal(ast) == Dict(NormalEntries(ast.entries))
  {
  }

  lemma EntryAt(ast: Ast, k: nat)
    requires ast.Dict? && k < |ast.entries|
    ensures |Cells(ast)| == 2 + 2 * |ast.entries|
    ensures Cells(ast)[2 + 2 * k] == Child(ast.entries[k].key) && Cells(ast)[3 + 2 * k] == Child(ast.entries[k].value)
  {
    hide *;
    EntriesTail(ast);
    EntryCells(ast.entries, k);
    PairAt(Cells(ast), Entries(ast.entries), 2, k);
  }

  lemma EntryCells(entries: seq<Entry>, k: nat)
    requires k < |entries|
    ensures |Entries(entries)| == 2 * |entries|
    ensures Entries(entries)[2 * k] == Child(entries[k].key) && Entries(entries)[2 * k + 1] == Child(entries[k].value)
  {
  }

  /** A pair of cells, counted from where the pairs start. */
  lemma PairAt(cells: seq<Cell>, tail: seq<Cell>, from: nat, k: nat)
    requires from <= |cells| && cells[from..] == tail && 2 * k + 1 < |tail|
    ensures |cells| == from + |tail|
    ensures cells[from + 2 * k] == tail[2 * k] && cells[from + 1 + 2 * k] == tail[2 * k + 1]
  {
  }

  lemma EntriesTail(ast: Ast)
    requires ast.Dict?
    ensures |Cells(ast)| >= 2 && Cells(ast)[2..] == Entries(ast.entries)
  {
    hide Entries;
  }

  lemma EntriesNone(s: seq<byte>)
    ensures ParseEntries(0, s) == Some((NormalEntries([]), s))
  {
  }

  lemma EntriesNext(n: nat, s: seq<byte>, key: Ast, t: seq<byte>, value: Ast, u: seq<byte>,
      list: seq<Entry>, v: seq<byte>)
    requires n > 0 && Parse(s) == Some((key, t)) && Parse(t) == Some((value, u))
    requires ParseEntries(n - 1, u) == Some((list, v))
    ensures ParseEntries(n, s) == Some(([Entry(key, value)] + list, v))
  {
    hide Parse;
  }

  lemma {:induction false} AtEntries(ast: Ast, k: nat, rest: seq<byte>)
    requires Sound(ast) && ast.Dict? && k <= |ast.entries| && |Cells(ast)| == 2 + 2 * |ast.entries|
    ensures ParseEntries(|ast.entries| - k, From(ast, 2 + 2 * k, rest)) == Some((NormalEntries(ast.entries[k..]), rest))
    decreases ast, 1, |ast.entries| - k
  {
    hide *;
    var n := |ast.entries|;
    if k == n {
      AtEnd(ast, rest);
      EntriesNone(rest);
    } else {
      EntryAt(ast, k);
      AtTree(ast, 2 + 2 * k, rest);
      AtTree(ast, 3 + 2 * k, rest);
      AtEntries(ast, k + 1, rest);
      EntriesFirst(ast.entries, k);
      EntriesNext(n - k, From(ast, 2 + 2 * k, rest), Normal(ast.entries[k].key), From(ast, 3 + 2 * k, rest),
        Normal(ast.entries[k].value), From(ast, 4 + 2 * k, rest), NormalEntries(ast.entries[k + 1..]), rest);
    }
  }

  lemma DictionaryIs(s: seq<byte>, n: uint32, t: seq<byte>, list: seq<Entry>, u: seq<byte>)
    requires TakeWord(s) == Some((n, t)) && ParseEntries(n, t) == Some((list, u))
    ensures ParseDictionary(s) == Some((Dict(list), u))
  {
    hide TakeWord, ParseEntries;
  }

  lemma {:induction false} ParseDictCode(ast: Ast, rest: seq<byte>)
    requires Sound(ast) && ast.Dict?
    ensures Parse(Code(ast) + rest) == Some((Normal(ast), rest))
    decreases ast, 2, 0
  {
    hide *;
    DictLayout(ast);
    CellsCounted(ast);
    AtTag(ast, rest);
    AtWord(ast, 1, rest);
    AtEntries(ast, 0, rest);
    assert ast.entries[0..] == ast.entries;
    ParseIs(Code(ast) + rest, Tag(ast), From(ast, 1, rest));
    DictionaryIs(From(ast, 1, rest), |ast.entries|, From(ast, 2, rest), NormalEntries(ast.entries), rest);
  }

  function NormalComparisons(list: seq<Comparison>): (r: seq<Comparison>)
    ensures |r| == |list|
  {
    seq(|list|, i requires 0 <= i < |list| => Comparison(list[i].op, Normal(list[i].right)))
  }

  lemma ComparisonsFirst(list: seq<Comparison>, k: nat)
    requires k < |list|
    ensures NormalComparisons(list[k..])
      == [Comparison(list[k].op, Normal(list[k].right))] + NormalComparisons(list[k + 1..])
  {
    hide Normal;
  }

  lemma CompareLayout(ast: Ast)
    requires ast.Compare?
    ensures |Cells(ast)| == 3 + 2 * |ast.comparisons| && Tag(ast) == 6
    ensures Cells(ast)[1] == Child(ast.left) && Cells(ast)[2] == Word(|ast.comparisons|)
    ensures Normal(ast) == Compare(Normal(ast.left), NormalComparisons(ast.comparisons))
  {
  }

  lemma ComparisonAt(ast: Ast, k: nat)
    requires ast.Compare? && k < |ast.comparisons|
    ensures |Cells(ast)| == 3 + 2 * |ast.comparisons|
    ensures Cells(ast)[3 + 2 * k] == Word(ast.comparisons[k].op)
    ensures Cells(ast)[4 + 2 * k] == Child(ast.comparisons[k].right)
  {
    hide *;
    ComparisonsTail(ast);
    ComparisonCells(ast.comparisons, k);
    PairAt(Cells(ast), Comparisons(ast.comparisons), 3, k);
  }

  lemma ComparisonCells(list: seq<Comparison>, k: nat)
    requires k < |list|
    ensures |Comparisons(list)| == 2 * |list|
    ensures Comparisons(list)[2 * k] == Word(list[k].op) && Comparisons(list)[2 * k + 1] == Child(list[k].right)
  {
  }

  lemma ComparisonsTail(ast: Ast)
    requires ast.Compare?
    ensures |Cells(ast)| >= 3 && Cells(ast)[3..] == Comparisons(ast.comparisons)
  {
    hide Comparisons;
  }

  lemma ComparisonsNone(s: seq<byte>)
    ensures ParseComparisons(0, s) == Some((NormalComparisons([]), s))
  {
  }

  lemma ComparisonsNext(n: nat, s: seq<byte>, op: uint32, t: seq<byte>, right: Ast, u: seq<byte>,
      list: seq<Comparison>, v: seq<byte>)
    requires n > 0 && TakeWord(s) == Some((op, t)) && Parse(t) == Some((right, u))
    requires ParseComparisons(n - 1, u) == Some((list, v))
    ensures ParseComparisons(n, s) == Some(([Comparison(op, right)] + list, v))
  {
    hide Parse, TakeWord;
  }

  lemma {:induction false} AtComparisons(ast: Ast, k: nat, rest: seq<byte>)
    requires Sound(ast) && ast.Compare? && k <= |ast.comparisons| && |Cells(ast)| == 3 + 2 * |ast.comparisons|
    ensures ParseComparisons(|ast.comparisons| - k, From(ast, 3 + 2 * k, rest))
      == Some((NormalComparisons(ast.comparisons[k..]), rest))
    decreases ast, 1, |ast.comparisons| - k
  {
    hide *;
    var n, list := |ast.comparisons|, ast.comparisons;
    if k == n {
      AtEnd(ast, rest);
      ComparisonsNone(rest);
    } else {
      ComparisonAt(ast, k);
      AtWord(ast, 3 + 2 * k, rest);
      AtTree(ast, 4 + 2 * k, rest);
      AtComparisons(ast, k + 1, rest);
      ComparisonsFirst(list, k);
      ComparisonsNext(n - k, From(ast, 3 + 2 * k, rest), list[k].op, From(ast, 4 + 2 * k, rest), Normal(list[k].right),
        From(ast, 5 + 2 * k, rest), NormalComparisons(list[k + 1..]), rest);
    }
  }

  lemma CompareIs(s: seq<byte>, left: Ast, t: seq<byte>, n: uint32, u: seq<byte>, list: seq<Comparison>, v: seq<byte>)
    requires Parse(s) == Some((left, t)) && TakeWord(t) == Some((n, u)) && ParseComparisons(n, u) == Some((list, v))
    ensures ParseCompare(s) == Some((Compare(left, list), v))
  {
    hide Parse, TakeWord, ParseComparisons;
  }

  lemma {:induction false} ParseCompareCode(ast: Ast, rest: seq<byte>)
    requires Sound(ast) && ast.Compare?
    ensures Parse(Code(ast) + rest) == Some((Normal(ast), rest))
    decreases ast, 2, 0
  {
    hide *;
    CompareLayout(ast);
    CellsCounted(ast);
    AtTag(ast, rest);
    AtTree(ast, 1, rest);
    AtWord(ast, 2, rest);
    AtComparisons(ast, 0, rest);
    assert ast.comparisons[0..] == ast.comparisons;
    ParseIs(Code(ast) + rest, Tag(ast), From(ast, 1, rest));
    CompareIs(From(ast, 1, rest), Normal(ast.left), From(ast, 2, rest), |ast.comparisons|, From(ast, 3, rest),
      NormalComparisons(ast.comparisons), rest);
  }

  // Functions.

  lemma FunctionParts(ast: Ast)
    requires ast.FunctionDef?
    ensures var cells := Cells(ast); var a, d := |ast.arguments|, |ast.defaults|;
      && |cells| == 10 + a + d && Tag(ast) == 30
      && cells[1] == Child(ast.fname) && cells[2] == LengthOf(ast.body) && cells[3] == Word(33)
      && ListAt(ast, 4, ast.arguments) && cells[5 + a] == Word(31) && ListAt(ast, 6 + a, ast.defaults)
      && cells[7 + a + d] == Word(32) && cells[8 + a + d] == Child(ast.body) && cells[9 + a + d] == Word(34)
  {
    FunctionLayout(ast);
    var a, d := |ast.arguments|, |ast.defaults|;
    assert Tag(ast) == 30;
    hide Cells;
    SlotsAreTrees(ast, 5, ast.arguments);
    SlotsAreTrees(ast, 7 + a, ast.defaults);
  }

  lemma SlotsAreTrees(ast: Ast, i: nat, list: seq<Ast>)
    requires i + |list| <= |Cells(ast)| && Cells(ast)[i..i + |list|] == Slots(list)
    ensures TreesAt(ast, i, list)
  {
    hide Cells;
    forall k | 0 <= k < |list| ensures Cells(ast)[i + k] == Slot(list[k]) {
      assert Cells(ast)[i..i + |list|][k] == Slots(list)[k];
    }
  }

  lemma FunctionNormal(ast: Ast)
    requires ast.FunctionDef?
    ensures Normal(ast) ==
      FunctionDef(Normal(ast.fname), NormalEach(ast.arguments), NormalEach(ast.defaults), Normal(ast.body))
  {
    NodeIs(ast);
    NormalEachIs(ast.arguments, NormalNode(ast).arguments);
    NormalEachIs(ast.defaults, NormalNode(ast).defaults);
    hide NormalEach;
  }

  lemma AtMarker(ast: Ast, i: nat, n: nat, rest: seq<byte>)
    requires i < |Cells(ast)| && Cells(ast)[i] == Word(n) && n < 4294967296
    ensures TakeMarker(n, From(ast, i, rest)) == Some(From(ast, i + 1, rest))
  {
    hide *;
    FromNext(ast, i, rest);
    CellCodeIs(ast, i);
    TakeWrittenMarker(n, From(ast, i + 1, rest));
  }

  lemma {:induction false} AtSignature(ast: Ast, rest: seq<byte>)
    requires Sound(ast) && ast.FunctionDef? && |Cells(ast)| == 10 + |ast.arguments| + |ast.defaults|
    ensures var a, d := |ast.arguments|, |ast.defaults|;
      ParseSignature(From(ast, 3, rest))
      == Some((NormalEach(ast.arguments), NormalEach(ast.defaults), From(ast, 8 + a + d, rest)))
    decreases ast, 2, 0
  {
    hide *;
    FunctionParts(ast);
    var a, d := |ast.arguments|, |ast.defaults|;
    AtMarker(ast, 3, 33, rest);
    AtList(ast, 4, ast.arguments, rest);
    AtMarker(ast, 5 + a, 31, rest);
    AtList(ast, 6 + a, ast.defaults, rest);
    AtMarker(ast, 7 + a + d, 32, rest);
    SignatureIs(From(ast, 3, rest), From(ast, 4, rest), NormalEach(ast.arguments), From(ast, 5 + a, rest),
      From(ast, 6 + a, rest), NormalEach(ast.defaults), From(ast, 7 + a + d, rest), From(ast, 8 + a + d, rest));
  }

  lemma SignatureIs(s: seq<byte>, t: seq<byte>, arguments: seq<Ast>, u: seq<byte>, v: seq<byte>,
      defaults: seq<Ast>, w: seq<byte>, x: seq<byte>)
    requires TakeMarker(33, s) == Some(t) && ParseNodes(t) == Some((arguments, u)) && TakeMarker(31, u) == Some(v)
    requires ParseNodes(v) == Some((defaults, w)) && TakeMarker(32, w) == Some(x)
    ensures ParseSignature(s) == Some((arguments, defaults, x))
  {
    hide TakeMarker, ParseNodes;
  }

  /** The word that holds the length of the body. */
  lemma AtLength(ast: Ast, rest: seq<byte>)
    requires Sound(ast) && |Cells(ast)| > 2 && Cells(ast)[2].LengthOf? && |Code(Cells(ast)[2].ast)| < 4294967296
    ensures TakeWord(From(ast, 2, rest)) == Some((|Code(Cells(ast)[2].ast)|, From(ast, 3, rest)))
  {
    hide *;
    FromNext(ast, 2, rest);
    CellCodeIs(ast, 2);
    TakeWritten(|Code(Cells(ast)[2].ast)|, From(ast, 3, rest));
  }

  lemma FunctionIs(s: seq<byte>, name: Ast, t: seq<byte>, code: seq<byte>, u: seq<byte>,
      arguments: seq<Ast>, defaults: seq<Ast>, body: Ast, end: seq<byte>, rest: seq<byte>)
    requires Parse(s) == Some((name, t)) && |code| < 4294967296 && TakeWord(t) == Some((|code|, u))
    requires ParseSignature(u) == Some((arguments, defaults, code + end))
    requires Parse(code) == Some((body, [])) && TakeMarker(34, end) == Some(rest)
    ensures ParseFunction(s) == Some((FunctionDef(name, arguments, defaults, body), rest))
  {
    assert (code + end)[..|code|] == code && (code + end)[|code|..] == end;
    hide Parse, TakeWord, TakeMarker, ParseSignature;
  }

  /** The body is a sound tree, and its code is where its length says. */
  lemma BodyOf(ast: Ast, i: nat)
    requires Sound(ast) && i < |Cells(ast)| && Cells(ast)[i].Child?
    ensures Sound(Cells(ast)[i].ast) && |Code(Cells(ast)[i].ast)| < 4294967296
    ensures CellCode(ast, i) == Code(Cells(ast)[i].ast)
  {
    hide *;
    SoundFacts(ast);
    CellSize(ast, i);
    ChildSound(ast, i);
    SoundFacts(Cells(ast)[i].ast);
  }

  lemma {:induction false} ParseFunctionCode(ast: Ast, rest: seq<byte>)
    requires Sound(ast) && ast.FunctionDef?
    ensures Parse(Code(ast) + rest) == Some((Normal(ast), rest))
    decreases ast, 2, 1
  {
    hide *;
    FunctionParts(ast);
    FunctionNormal(ast);
    var a, d := |ast.arguments|, |ast.defaults|;
    var code := Code(ast.body);
    AtTag(ast, rest);
    ParseIs(Code(ast) + rest, Tag(ast), From(ast, 1, rest));
    AtTree(ast, 1, rest);
    BodyOf(ast, 8 + a + d);
    AtLength(ast, rest);
    AtSignature(ast, rest);
    FromNext(ast, 8 + a + d, rest);
    AtMarker(ast, 9 + a + d, 34, rest);
    AtEnd(ast, rest);
    CellSmaller(ast, 8 + a + d);
    TreeIs(Cells(ast)[8 + a + d]);
    ParseCode(ast.body, []);
    assert code + [] == code;
    FunctionIs(From(ast, 1, rest), Normal(ast.fname), From(ast, 2, rest), code, From(ast, 3, rest),
      NormalEach(ast.arguments), NormalEach(ast.defaults), Normal(ast.body), From(ast, 9 + a + d, rest), rest);
  }

  lemma {:induction false} ParseStatementCode(ast: Ast, rest: seq<byte>)
    requires Sound(ast) && ast.ExpressionStatement?
    ensures Parse(Code(ast) + rest) == Some((Normal(ast), rest))
    decreases ast, 2, 0
  {
    hide *;
    OnlyChild(ast);
    CodeIs(ast);
    FromIs(ast, 0, rest);
    AtTree(ast, 0, rest);
    AtEnd(ast, rest);
    StatementNormal(ast.expr);
  }

  lemma StatementNormal(expr: Ast)
    ensures Normal(ExpressionStatement(expr)) == Normal(expr)
  {
    hide NormalNode;
  }

  lemma NothingElse(ast: Ast)
    requires Sound(ast)
    ensures ast != Null && ast != Unsupported && ast != OtherNumber
  {
    hide Code, EmitsRange, Cells;
  }

  /** Parsing takes back every tree that is compiled, and stops right after its code. */
  lemma {:induction false} ParseCode(ast: Ast, rest: seq<byte>)
    requires Sound(ast)
    ensures Parse(Code(ast) + rest) == Some((Normal(ast), rest))
    decreases ast, 3, 0
  {
    hide *;
    NothingElse(ast);
    match ast
    case Pass => ParseLeafCode(ast, rest);
    case Continue => ParseLeafCode(ast, rest);
    case Break => ParseLeafCode(ast, rest);
    case Name(_) => ParseTextCode(ast, rest);
    case Str(_) => ParseTextCode(ast, rest);
    case Alias(_, _) => ParseTextCode(ast, rest);
    case Integer(_) => ParseIntegerCode(ast, rest);
    case Return(_) => ParseOneCode(ast, rest);
    case Index(_) => ParseOneCode(ast, rest);
    case Import(_) => ParseOneCode(ast, rest);
    case UnaryOp(_, _) => ParseOneCode(ast, rest);
    case If(_, _, orelse) =>
      if orelse == Null {
        ParseTwoCode(ast, rest);
      } else {
        ParseThreeCode(ast, rest);
      }
    case Attribute(_, _) => ParseTwoCode(ast, rest);
    case Subscript(_, _) => ParseTwoCode(ast, rest);
    case While(_, _) => ParseTwoCode(ast, rest);
    case ImportFrom(_, _) => ParseTwoCode(ast, rest);
    case BinOp(_, _, _) => ParseOperatorCode(ast, rest);
    case AugAssign(_, _, _) => ParseOperatorCode(ast, rest);
    case For(_, _, _) => ParseThreeCode(ast, rest);
    case Suite(_) => ParsePlainListCode(ast, rest);
    case List(_) => ParsePlainListCode(ast, rest);
    case Tuple(_) => ParsePlainListCode(ast, rest);
    case Global(_) => ParsePlainListCode(ast, rest);
    case Assign(_, _) => ParseNodeAndListCode(ast, rest);
    case Call(_, _) => ParseNodeAndListCode(ast, rest);
    case ListComp(_, _) => ParseNodeAndListCode(ast, rest);
    case Comprehension(_, _, _) => ParseComprehensionCode(ast, rest);
    case BoolOp(_, _) => ParseBoolOpCode(ast, rest);
    case Dict(_) => ParseDictCode(ast, rest);
    case Compare(_, _) => ParseCompareCode(ast, rest);
    case FunctionDef(_, _, _, _) => ParseFunctionCode(ast, rest);
    case ExpressionStatement(_) => ParseStatementCode(ast, rest);
    case Null => assert false;
    case Unsupported => assert false;
    case OtherNumber => assert false;
  }

  // Trees come through unchanged the second time.

  lemma {:induction false} CStrTwice(s: seq<byte>)
    ensures CStr(CStr(s)) == CStr(s)
  {
    if CStr(s) != [] {
      CStrTwice(s[1..]);
      assert CStr(s)[1..] == CStr(s[1..]);
    }
  }

  lemma {:induction false} EachTwice(ast: Ast, list: seq<Ast>)
    requires forall i :: 0 <= i < |list| ==> list[i] < ast
    ensures NormalEach(NormalEach(list)) == NormalEach(list)
    decreases ast, 0
  {
    forall i | 0 <= i < |list| ensures Normal(Normal(list[i])) == Normal(list[i]) {
      NormalTwice(list[i]);
    }
    hide Normal;
  }

  lemma {:induction false} EntriesTwice(ast: Ast, list: seq<Entry>)
    requires forall i :: 0 <= i < |list| ==> list[i].key < ast && list[i].value < ast
    ensures NormalEntries(NormalEntries(list)) == NormalEntries(list)
    decreases ast, 0
  {
    forall i | 0 <= i < |list|
      ensures Normal(Normal(list[i].key)) == Normal(list[i].key)
      ensures Normal(Normal(list[i].value)) == Normal(list[i].value)
    {
      NormalTwice(list[i].key);
      NormalTwice(list[i].value);
    }
    hide Normal;
  }

  lemma {:induction false} ComparisonsTwice(ast: Ast, list: seq<Comparison>)
    requires forall i :: 0 <= i < |list| ==> list[i].right < ast
    ensures NormalComparisons(NormalComparisons(list)) == NormalComparisons(list)
    decreases ast, 0
  {
    forall i | 0 <= i < |list| ensures Normal(Normal(list[i].right)) == Normal(list[i].right) {
      NormalTwice(list[i].right);
    }
    hide Normal;
  }

  lemma {:induction false} NormalIsSome(ast: Ast)
    ensures Normal(ast) != Null
    decreases ast
  {
    if ast.ExpressionStatement? {
      NormalIsSome(ast.expr);
    }
  }

  lemma OthersNormal()
    ensures Normal(Null) == Normal(Pass) == Pass
    ensures Normal(Unsupported) == Unsupported && Normal(OtherNumber) == OtherNumber
  {
  }

  /** What stands before the list of a node. */
  function Head(ast: Ast): Ast {
    match ast
    case Assign(value, _) => value
    case Call(function_, _) => function_
    case ListComp(element, _) => element
    case _ => ast
  }

  lemma HeadNormal(ast: Ast)
    requires ast.Assign? || ast.Call? || ast.ListComp?
    ensures var a, list := Normal(Head(ast)), NormalEach(Items(ast));
      Normal(ast) == if ast.Assign? then Assign(a, list) else if ast.Call? then Call(a, list) else ListComp(a, list)
  {
    NodeAndListNormal(ast);
    hide NormalEach, Normal;
  }

  lemma BoolOpNormal(ast: Ast)
    requires ast.BoolOp?
    ensures Normal(ast) == BoolOp(ast.op, NormalEach(ast.values))
  {
    NodeIs(ast);
    NormalEachIs(ast.values, NormalNode(ast).values);
    hide NormalEach;
  }

  lemma ItemsSmaller(ast: Ast)
    ensures forall i :: 0 <= i < |Items(ast)| ==> Items(ast)[i] < ast
  {
  }

  lemma ItemsAre(list: seq<Ast>, a: Ast, b: Ast, op: uint32)
    ensures Items(Suite(list)) == Items(List(list)) == Items(Tuple(list)) == Items(Global(list)) == list
    ensures Items(Assign(a, list)) == Items(Call(a, list)) == Items(ListComp(a, list)) == list
    ensures Head(Assign(a, list)) == Head(Call(a, list)) == Head(ListComp(a, list)) == a
  {
  }

  lemma PartsAre(a: Ast, b: Ast, op: uint32)
    ensures First(If(a, b, Null)) == First(Attribute(a, b)) == First(Subscript(a, b)) == First(While(a, b)) == a
    ensures First(ImportFrom(a, b)) == First(BinOp(op, a, b)) == First(AugAssign(op, a, b)) == a
    ensures Second(If(a, b, Null)) == Second(Attribute(a, b)) == Second(Subscript(a, b)) == Second(While(a, b)) == b
    ensures Second(ImportFrom(a, b)) == Second(BinOp(op, a, b)) == Second(AugAssign(op, a, b)) == b
  {
  }

  lemma PartsSmaller(ast: Ast)
    ensures ast.If? || ast.Attribute? || ast.Subscript? || ast.While? || ast.ImportFrom? ==>
      First(ast) < ast && Second(ast) < ast
    ensures ast.BinOp? || ast.AugAssign? ==> First(ast) < ast && Second(ast) < ast
    ensures ast.Assign? || ast.Call? || ast.ListComp? ==> Head(ast) < ast
  {
  }

  lemma {:induction false} TwiceText(ast: Ast)
    requires ast.Name? || ast.Str? || ast.Alias? || ast.Integer?
    ensures Normal(Normal(ast)) == Normal(ast)
  {
    hide *;
    if ast.Integer? {
      IntegerCells(ast);
      IntegerCells(Normal(ast));
    } else {
      TextCells(ast);
      TextCells(Normal(ast));
      match ast {
        case Name(id) => CStrTwice(id);
        case Str(text) => CStrTwice(text);
        case Alias(name, asName) => CStrTwice(name); CStrTwice(asName);
      }
    }
  }

  lemma {:induction false} TwiceTwo(ast: Ast)
    requires (ast.If? && ast.orelse == Null) || ast.Attribute? || ast.Subscript? || ast.While? || ast.ImportFrom?
      || ast.BinOp? || ast.AugAssign?
    ensures Normal(Normal(ast)) == Normal(ast)
    decreases ast, 1
  {
    hide *;
    PartsSmaller(ast);
    var a, b := Normal(First(ast)), Normal(Second(ast));
    NormalTwice(First(ast));
    NormalTwice(Second(ast));
    PartsAre(a, b, if ast.BinOp? || ast.AugAssign? then ast.op else 0);
    if ast.BinOp? || ast.AugAssign? {
      OperatorCells(ast);
      OperatorCells(Normal(ast));
    } else {
      TwoCells(ast);
      TwoCells(Normal(ast));
    }
  }

  lemma {:induction false} TwiceThree(ast: Ast)
    requires (ast.If? && ast.orelse != Null) || ast.For?
    ensures Normal(Normal(ast)) == Normal(ast)
    decreases ast, 1
  {
    hide *;
    ThreeCells(ast);
    match ast
    case If(test, body, orelse) =>
      NormalTwice(test);
      NormalTwice(body);
      NormalTwice(orelse);
      NormalIsSome(orelse);
      ThreeCells(Normal(ast));
    case For(target, iter, body) =>
      NormalTwice(target);
      NormalTwice(iter);
      NormalTwice(body);
      ThreeCells(Normal(ast));
  }

  lemma {:induction false} TwiceOne(ast: Ast)
    requires ast.Return? || ast.Index? || ast.Import? || ast.UnaryOp?
    ensures Normal(Normal(ast)) == Normal(ast)
    decreases ast, 1
  {
    hide *;
    OneCells(ast);
    match ast
    case Return(value) => NormalTwice(value); OneCells(Normal(ast));
    case Index(value) => NormalTwice(value); OneCells(Normal(ast));
    case Import(names) => NormalTwice(names); OneCells(Normal(ast));
    case UnaryOp(_, operand) => NormalTwice(operand); OneCells(Normal(ast));
  }

  lemma {:induction false} TwiceList(ast: Ast)
    requires ast.Suite? || ast.List? || ast.Tuple? || ast.Global? || ast.Assign? || ast.Call? || ast.ListComp?
    ensures Normal(Normal(ast)) == Normal(ast)
    decreases ast, 1
  {
    hide *;
    ItemsSmaller(ast);
    PartsSmaller(ast);
    EachTwice(ast, Items(ast));
    ItemsAre(NormalEach(Items(ast)), Normal(Head(ast)), ast, 0);
    if ast.Assign? || ast.Call? || ast.ListComp? {
      NormalTwice(Head(ast));
      HeadNormal(ast);
      HeadNormal(Normal(ast));
    } else {
      PlainListNormal(ast);
      PlainListNormal(Normal(ast));
    }
  }

  lemma {:induction false} TwiceOther(ast: Ast)
    requires ast.Comprehension? || ast.BoolOp? || ast.Dict? || ast.Compare? || ast.FunctionDef?
    ensures Normal(Normal(ast)) == Normal(ast)
    decreases ast, 1
  {
    hide *;
    match ast
    case Comprehension(target, iter, ifs) =>
      NormalTwice(target);
      NormalTwice(iter);
      EachTwice(ast, ifs);
      ComprehensionNormal(ast);
      ComprehensionNormal(Normal(ast));
    case BoolOp(_, values) =>
      EachTwice(ast, values);
      BoolOpNormal(ast);
      BoolOpNormal(Normal(ast));
    case Dict(entries) =>
      EntriesTwice(ast, entries);
      DictLayout(ast);
      DictLayout(Normal(ast));
    case Compare(left, comparisons) =>
      NormalTwice(left);
      ComparisonsTwice(ast, comparisons);
      CompareLayout(ast);
      CompareLayout(Normal(ast));
    case FunctionDef(fname, arguments, defaults, body) =>
      NormalTwice(fname);
      NormalTwice(body);
      EachTwice(ast, arguments);
      EachTwice(ast, defaults);
      FunctionNormal(ast);
      FunctionNormal(Normal(ast));
  }

  /** What has come through once comes through unchanged. */
  lemma {:induction false} NormalTwice(ast: Ast)
    ensures Normal(Normal(ast)) == Normal(ast)
    decreases ast, 2
  {
    hide *;
    OthersNormal();
    match ast
    case Null =>
    case Unsupported =>
    case OtherNumber =>
    case Pass =>
    case Continue => LeafCells(ast);
    case Break => LeafCells(ast);
    case ExpressionStatement(expr) =>
      StatementNormal(expr);
      NormalTwice(expr);
    case Name(_) => TwiceText(ast);
    case Str(_) => TwiceText(ast);
    case Alias(_, _) => TwiceText(ast);
    case Integer(_) => TwiceText(ast);
    case Return(_) => TwiceOne(ast);
    case Index(_) => TwiceOne(ast);
    case Import(_) => TwiceOne(ast);
    case UnaryOp(_, _) => TwiceOne(ast);
    case If(_, _, orelse) =>
      if orelse == Null {
        TwiceTwo(ast);
      } else {
        TwiceThree(ast);
      }
    case For(_, _, _) => TwiceThree(ast);
    case Attribute(_, _) => TwiceTwo(ast);
    case Subscript(_, _) => TwiceTwo(ast);
    case While(_, _) => TwiceTwo(ast);
    case ImportFrom(_, _) => TwiceTwo(ast);
    case BinOp(_, _, _) => TwiceTwo(ast);
    case AugAssign(_, _, _) => TwiceTwo(ast);
    case Suite(_) => TwiceList(ast);
    case List(_) => TwiceList(ast);
    case Tuple(_) => TwiceList(ast);
    case Global(_) => TwiceList(ast);
    case Assign(_, _) => TwiceList(ast);
    case Call(_, _) => TwiceList(ast);
    case ListComp(_, _) => TwiceList(ast);
    case Comprehension(_, _, _) => TwiceOther(ast);
    case BoolOp(_, _) => TwiceOther(ast);
    case Dict(_) => TwiceOther(ast);
    case Compare(_, _) => TwiceOther(ast);
    case FunctionDef(_, _, _, _) => TwiceOther(ast);
  }

  // Which trees are compiled.

  /** An expression in a list may be missing. */
  ghost predicate EachMissingOrCompilable(ast: Ast, list: seq<Ast>)
    requires forall i :: 0 <= i < |list| ==> list[i] < ast
    decreases ast, 0
  {
    forall i :: 0 <= i < |list| ==> list[i] == Null || Compilable(list[i])
  }

  ghost predicate EachCompilable(ast: Ast, list: seq<Ast>)
    requires forall i :: 0 <= i < |list| ==> list[i] < ast
    decreases ast, 0
  {
    forall i :: 0 <= i < |list| ==> Compilable(list[i])
  }

  /** Every kind of node is known and every child there, and boolean operators have no operands. */
  ghost predicate Compilable(ast: Ast)
    decreases ast, 1
  {
    match ast
    case Null => false
    case Unsupported => false
    case OtherNumber => false
    case Import(names) => Compilable(names)
    case ImportFrom(source, names) => Compilable(source) && Compilable(names)
    case Assign(value, targets) => Compilable(value) && EachMissingOrCompilable(ast, targets)
    case Suite(items) => EachCompilable(ast, items)
    case Return(value) => Compilable(value)
    case Dict(entries) =>
      forall i :: 0 <= i < |entries| ==> Compilable(entries[i].key) && Compilable(entries[i].value)
    case Compare(left, comparisons) =>
      Compilable(left) && forall i :: 0 <= i < |comparisons| ==> Compilable(comparisons[i].right)
    case If(test, body, orelse) => Compilable(test) && Compilable(body) && (orelse == Null || Compilable(orelse))
    case Call(function_, arguments) => Compilable(function_) && EachMissingOrCompilable(ast, arguments)
    case Attribute(value, attribute) => Compilable(value) && Compilable(attribute)
    case UnaryOp(_, operand) => Compilable(operand)
    case BoolOp(_, values) => values == []
    case BinOp(_, left, right) => Compilable(left) && Compilable(right)
    case List(elements) => EachMissingOrCompilable(ast, elements)
    case Tuple(elements) => EachCompilable(ast, elements)
    case Subscript(slice, value) => Compilable(slice) && Compilable(value)
    case Index(value) => Compilable(value)
    case For(target, iter, body) => Compilable(target) && Compilable(iter) && Compilable(body)
    case While(test, body) => Compilable(test) && Compilable(body)
    case AugAssign(_, target, value) => Compilable(target) && Compilable(value)
    case ExpressionStatement(expr) => Compilable(expr)
    case ListComp(element, generators) => Compilable(element) && EachMissingOrCompilable(ast, generators)
    case Comprehension(target, iter, ifs) =>
      Compilable(target) && Compilable(iter) && EachMissingOrCompilable(ast, ifs)
    case Global(globals) => EachCompilable(ast, globals)
    case FunctionDef(name, arguments, defaults, body) =>
      && Compilable(name) && EachMissingOrCompilable(ast, arguments) && EachMissingOrCompilable(ast, defaults)
      && Compilable(body)
    case _ => true
  }

  /** The same, said of a cell. */
  ghost predicate Good(c: Cell) {
    match c
    case Child(a) => Compilable(a)
    case Slot(a) => a == Null || Compilable(a)
    case Misread(_) => false
    case _ => true
  }

  ghost predicate GoodAll(cells: seq<Cell>) {
    forall i :: 0 <= i < |cells| ==> Good(cells[i])
  }

  lemma GoodAppend(a: seq<Cell>, b: seq<Cell>)
    ensures GoodAll(a + b) <==> GoodAll(a) && GoodAll(b)
  {
    hide Good;
    assert forall i :: 0 <= i < |a| ==> (a + b)[i] == a[i];
    assert forall i :: 0 <= i < |b| ==> (a + b)[|a| + i] == b[i];
  }

  lemma GoodOne(c: Cell)
    ensures GoodAll([c]) <==> Good(c)
  {
    hide Good;
    assert [c][0] == c;
  }

  lemma GoodTwo(c: Cell, d: Cell)
    ensures GoodAll([c, d]) <==> Good(c) && Good(d)
  {
    hide Good;
    assert [c, d][0] == c && [c, d][1] == d;
  }

  lemma GoodThree(c: Cell, d: Cell, e: Cell)
    ensures GoodAll([c, d, e]) <==> Good(c) && Good(d) && Good(e)
  {
    hide Good;
    assert [c, d, e][0] == c && [c, d, e][1] == d && [c, d, e][2] == e;
  }

  lemma GoodFour(c: Cell, d: Cell, e: Cell, f: Cell)
    ensures GoodAll([c, d, e, f]) <==> Good(c) && Good(d) && Good(e) && Good(f)
  {
    hide Good;
    var s := [c, d, e, f];
    assert s[0] == c && s[1] == d && s[2] == e && s[3] == f;
  }

  lemma GoodIs(a: Ast, n: nat)
    ensures Good(Child(a)) <==> Compilable(a)
    ensures Good(Slot(a)) <==> a == Null || Compilable(a)
    ensures Good(Word(n)) && Good(LengthOf(a)) && !Good(Misread(a))
  {
    hide Compilable;
  }

  lemma GoodList(ast: Ast, list: seq<Ast>)
    requires forall i :: 0 <= i < |list| ==> list[i] < ast
    ensures GoodAll(ExprList(list)) <==> EachMissingOrCompilable(ast, list)
    ensures GoodAll(ChildList(list)) <==> EachCompilable(ast, list)
  {
    hide Compilable;
    GoodOne(Word(|list|));
    GoodAppend([Word(|list|)], Slots(list));
    GoodAppend([Word(|list|)], Children(list));
  }

  lemma GoodEntries(entries: seq<Entry>)
    ensures GoodAll(Entries(entries)) <==>
      forall i :: 0 <= i < |entries| ==> Compilable(entries[i].key) && Compilable(entries[i].value)
  {
    hide Compilable;
    var cells := Entries(entries);
    forall i | 0 <= i < |entries|
      ensures Good(cells[2 * i]) <==> Compilable(entries[i].key)
      ensures Good(cells[2 * i + 1]) <==> Compilable(entries[i].value)
    {
      EntryCells(entries, i);
    }
    InPairs(cells, |entries|);
  }

  /** Every cell is one of a pair. */
  lemma InPairs(cells: seq<Cell>, n: nat)
    requires |cells| == 2 * n
    ensures GoodAll(cells) <==> forall i :: 0 <= i < n ==> Good(cells[2 * i]) && Good(cells[2 * i + 1])
  {
    hide Good;
    if forall i :: 0 <= i < n ==> Good(cells[2 * i]) && Good(cells[2 * i + 1]) {
      forall k | 0 <= k < |cells| ensures Good(cells[k]) {
        var i := k / 2;
        assert Good(cells[2 * i]) && Good(cells[2 * i + 1]) && (k == 2 * i || k == 2 * i + 1);
      }
    }
  }

  lemma GoodComparisons(list: seq<Comparison>)
    ensures GoodAll(Comparisons(list)) <==> forall i :: 0 <= i < |list| ==> Compilable(list[i].right)
  {
    hide Compilable;
    var cells := Comparisons(list);
    forall i | 0 <= i < |list|
      ensures Good(cells[2 * i]) && (Good(cells[2 * i + 1]) <==> Compilable(list[i].right))
    {
      ComparisonCells(list, i);
    }
    InPairs(cells, |list|);
  }

  lemma GoodOperands(list: seq<Ast>)
    ensures GoodAll(Misreads(list)) <==> list == []
  {
    if list != [] {
      assert Misreads(list)[0] == Misread(list[0]);
    }
  }

  lemma GoodShort(ast: Ast)
    requires ast.Import? || ast.Return? || ast.Index? || ast.ExpressionStatement? || ast.UnaryOp?
    ensures Compilable(ast) <==> GoodAll(Cells(ast))
  {
    var cells := Cells(ast);
    if ast.ExpressionStatement? {
      GoodOne(cells[0]);
      GoodIs(ast.expr, 0);
    } else if ast.UnaryOp? {
      GoodThree(cells[0], cells[1], cells[2]);
      GoodIs(ast.operand, cells[0].n);
    } else {
      GoodTwo(cells[0], cells[1]);
      GoodIs(cells[1].ast, cells[0].n);
    }
    hide Good, GoodAll;
  }

  lemma GoodLeaf(ast: Ast)
    requires ast.Pass? || ast.Continue? || ast.Break? || ast.Name? || ast.Str? || ast.Integer? || ast.Alias?
    ensures Compilable(ast) <==> GoodAll(Cells(ast))
  {
  }

  lemma GoodPair(ast: Ast)
    requires (ast.If? && ast.orelse == Null) || ast.Attribute? || ast.Subscript? || ast.While? || ast.ImportFrom?
    ensures Compilable(ast) <==> GoodAll(Cells(ast))
  {
    var cells := Cells(ast);
    GoodThree(cells[0], cells[1], cells[2]);
    GoodIs(cells[1].ast, cells[0].n);
    GoodIs(cells[2].ast, 0);
    hide Good, GoodAll;
  }

  lemma GoodLong(ast: Ast)
    requires (ast.If? && ast.orelse != Null) || ast.For?
    ensures Compilable(ast) <==> GoodAll(Cells(ast))
  {
    var cells := Cells(ast);
    GoodFour(cells[0], cells[1], cells[2], cells[3]);
    GoodIs(cells[1].ast, cells[0].n);
    GoodIs(cells[2].ast, 0);
    GoodIs(cells[3].ast, 0);
    hide Good, GoodAll;
  }

  lemma GoodOperator(ast: Ast)
    requires ast.BinOp? || ast.AugAssign?
    ensures Compilable(ast) <==> GoodAll(Cells(ast))
  {
    var cells := Cells(ast);
    GoodFour(cells[0], cells[1], cells[2], cells[3]);
    GoodIs(cells[2].ast, cells[0].n);
    GoodIs(cells[3].ast, cells[1].n);
    hide Good, GoodAll;
  }

  lemma PlainListIs(ast: Ast)
    requires ast.Suite? || ast.List? || ast.Tuple? || ast.Global?
    ensures Cells(ast) == [Word(Tag(ast))] + if ast.List? then ExprList(Items(ast)) else ChildList(Items(ast))
  {
    hide ExprList, ChildList;
  }

  lemma PlainListCompilable(ast: Ast)
    requires ast.Suite? || ast.List? || ast.Tuple? || ast.Global?
    requires forall i :: 0 <= i < |Items(ast)| ==> Items(ast)[i] < ast
    ensures Compilable(ast) <==>
      if ast.List? then EachMissingOrCompilable(ast, Items(ast)) else EachCompilable(ast, Items(ast))
  {
    hide EachCompilable, EachMissingOrCompilable;
  }

  lemma GoodPlainList(ast: Ast)
    requires ast.Suite? || ast.List? || ast.Tuple? || ast.Global?
    ensures Compilable(ast) <==> GoodAll(Cells(ast))
  {
    hide *;
    ItemsSmaller(ast);
    GoodList(ast, Items(ast));
    PlainListIs(ast);
    PlainListCompilable(ast);
    GoodIs(ast, Tag(ast));
    GoodOne(Word(Tag(ast)));
    GoodAppend([Word(Tag(ast))], if ast.List? then ExprList(Items(ast)) else ChildList(Items(ast)));
  }

  lemma NodeAndListAre(ast: Ast)
    requires ast.Assign? || ast.Call? || ast.ListComp?
    ensures Cells(ast) == [Word(Tag(ast)), Child(Head(ast))] + ExprList(Items(ast))
  {
    hide ExprList;
  }

  lemma NodeAndListCompilable(ast: Ast)
    requires ast.Assign? || ast.Call? || ast.ListComp?
    requires forall i :: 0 <= i < |Items(ast)| ==> Items(ast)[i] < ast
    ensures Compilable(ast) <==> Compilable(Head(ast)) && EachMissingOrCompilable(ast, Items(ast))
  {
    hide EachMissingOrCompilable;
  }

  lemma GoodNodeAndList(ast: Ast)
    requires ast.Assign? || ast.Call? || ast.ListComp?
    ensures Compilable(ast) <==> GoodAll(Cells(ast))
  {
    hide *;
    ItemsSmaller(ast);
    GoodList(ast, Items(ast));
    NodeAndListAre(ast);
    NodeAndListCompilable(ast);
    GoodIs(Head(ast), Tag(ast));
    GoodTwo(Word(Tag(ast)), Child(Head(ast)));
    GoodAppend([Word(Tag(ast)), Child(Head(ast))], ExprList(Items(ast)));
  }

  lemma GoodComprehension(ast: Ast)
    requires ast.Comprehension?
    ensures Compilable(ast) <==> GoodAll(Cells(ast))
  {
    hide *;
    ItemsSmaller(ast);
    ComprehensionAre(ast);
    GoodList(ast, ast.ifs);
    GoodIs(ast.target, COMPREHENSION);
    GoodIs(ast.iter, 0);
    GoodThree(Word(COMPREHENSION), Child(ast.target), Child(ast.iter));
    GoodAppend([Word(COMPREHENSION), Child(ast.target), Child(ast.iter)], ExprList(ast.ifs));
  }

  lemma ComprehensionAre(ast: Ast)
    requires ast.Comprehension?
    ensures Items(ast) == ast.ifs
    ensures Cells(ast) == [Word(COMPREHENSION), Child(ast.target), Child(ast.iter)] + ExprList(ast.ifs)
    ensures (forall i :: 0 <= i < |ast.ifs| ==> ast.ifs[i] < ast) ==>
      (Compilable(ast) <==> Compilable(ast.target) && Compilable(ast.iter) && EachMissingOrCompilable(ast, ast.ifs))
  {
    hide ExprList, EachMissingOrCompilable;
  }

  lemma GoodBoolOp(ast: Ast)
    requires ast.BoolOp?
    ensures Compilable(ast) <==> GoodAll(Cells(ast))
  {
    GoodOperands(ast.values);
    GoodThree(Word(BOOL_OP), Word(ast.op), Word(|ast.values|));
    GoodAppend([Word(BOOL_OP), Word(ast.op), Word(|ast.values|)], Misreads(ast.values));
    hide GoodAll, Misreads;
  }

  lemma GoodDict(ast: Ast)
    requires ast.Dict?
    ensures Compilable(ast) <==> GoodAll(Cells(ast))
  {
    GoodEntries(ast.entries);
    GoodTwo(Word(DICTIONARY), Word(|ast.entries|));
    GoodAppend([Word(DICTIONARY), Word(|ast.entries|)], Entries(ast.entries));
    hide GoodAll, Entries;
  }

  lemma GoodCompare(ast: Ast)
    requires ast.Compare?
    ensures Compilable(ast) <==> GoodAll(Cells(ast))
  {
    GoodComparisons(ast.comparisons);
    var n := |ast.comparisons|;
    GoodIs(ast.left, n);
    GoodThree(Word(COMPARE), Child(ast.left), Word(n));
    GoodAppend([Word(COMPARE), Child(ast.left), Word(n)], Comparisons(ast.comparisons));
    hide GoodAll, Comparisons;
  }

  lemma GoodSignature(ast: Ast, arguments: seq<Ast>, defaults: seq<Ast>)
    requires forall i :: 0 <= i < |arguments| ==> arguments[i] < ast
    requires forall i :: 0 <= i < |defaults| ==> defaults[i] < ast
    ensures GoodAll(Signature(arguments, defaults)) <==>
      EachMissingOrCompilable(ast, arguments) && EachMissingOrCompilable(ast, defaults)
  {
    GoodList(ast, arguments);
    GoodList(ast, defaults);
    GoodOne(Word(FUNCTION_START));
    GoodOne(Word(FUNCTION_START_DEFAULTS));
    GoodOne(Word(FUNCTION_START_STUB));
    var a, d := ExprList(arguments), ExprList(defaults);
    GoodAppend([Word(FUNCTION_START)], a);
    GoodAppend([Word(FUNCTION_START)] + a, [Word(FUNCTION_START_DEFAULTS)]);
    GoodAppend([Word(FUNCTION_START)] + a + [Word(FUNCTION_START_DEFAULTS)], d);
    GoodAppend([Word(FUNCTION_START)] + a + [Word(FUNCTION_START_DEFAULTS)] + d, [Word(FUNCTION_START_STUB)]);
    hide GoodAll, ExprList, EachMissingOrCompilable;
  }

  lemma GoodFunction(ast: Ast)
    requires ast.FunctionDef?
    ensures Compilable(ast) <==> GoodAll(Cells(ast))
  {
    hide *;
    FunctionAre(ast);
    var signature := Signature(ast.arguments, ast.defaults);
    GoodSignature(ast, ast.arguments, ast.defaults);
    GoodIs(ast.fname, FUNCTION_DEF);
    GoodIs(ast.body, FUNCTION_END);
    var head := [Word(FUNCTION_DEF), Child(ast.fname)] + [LengthOf(ast.body)];
    GoodTwo(Word(FUNCTION_DEF), Child(ast.fname));
    GoodOne(LengthOf(ast.body));
    GoodOne(Child(ast.body));
    GoodOne(Word(FUNCTION_END));
    GoodAppend([Word(FUNCTION_DEF), Child(ast.fname)], [LengthOf(ast.body)]);
    GoodAppend(head, signature);
    GoodAppend(head + signature, [Child(ast.body)]);
    GoodAppend(head + signature + [Child(ast.body)], [Word(FUNCTION_END)]);
  }

  lemma FunctionAre(ast: Ast)
    requires ast.FunctionDef?
    ensures forall i :: 0 <= i < |ast.arguments| ==> ast.arguments[i] < ast
    ensures forall i :: 0 <= i < |ast.defaults| ==> ast.defaults[i] < ast
    ensures Cells(ast) == [Word(FUNCTION_DEF), Child(ast.fname)] + [LengthOf(ast.body)]
      + Signature(ast.arguments, ast.defaults) + [Child(ast.body)] + [Word(FUNCTION_END)]
    ensures Compilable(ast) <==>
      && Compilable(ast.fname) && Compilable(ast.body)
      && EachMissingOrCompilable(ast, ast.arguments) && EachMissingOrCompilable(ast, ast.defaults)
  {
    hide Signature, EachMissingOrCompilable;
  }

  lemma GoodCells(ast: Ast)
    requires ast != Null && ast != Unsupported && ast != OtherNumber
    ensures Compilable(ast) <==> GoodAll(Cells(ast))
  {
    hide *;
    match ast
    case Pass => GoodLeaf(ast);
    case Continue => GoodLeaf(ast);
    case Break => GoodLeaf(ast);
    case Name(_) => GoodLeaf(ast);
    case Str(_) => GoodLeaf(ast);
    case Integer(_) => GoodLeaf(ast);
    case Alias(_, _) => GoodLeaf(ast);
    case Import(_) => GoodShort(ast);
    case Return(_) => GoodShort(ast);
    case Index(_) => GoodShort(ast);
    case ExpressionStatement(_) => GoodShort(ast);
    case UnaryOp(_, _) => GoodShort(ast);
    case If(_, _, orelse) =>
      if orelse == Null {
        GoodPair(ast);
      } else {
        GoodLong(ast);
      }
    case For(_, _, _) => GoodLong(ast);
    case Attribute(_, _) => GoodPair(ast);
    case Subscript(_, _) => GoodPair(ast);
    case While(_, _) => GoodPair(ast);
    case ImportFrom(_, _) => GoodPair(ast);
    case BinOp(_, _, _) => GoodOperator(ast);
    case AugAssign(_, _, _) => GoodOperator(ast);
    case Suite(_) => GoodPlainList(ast);
    case List(_) => GoodPlainList(ast);
    case Tuple(_) => GoodPlainList(ast);
    case Global(_) => GoodPlainList(ast);
    case Assign(_, _) => GoodNodeAndList(ast);
    case Call(_, _) => GoodNodeAndList(ast);
    case ListComp(_, _) => GoodNodeAndList(ast);
    case Comprehension(_, _, _) => GoodComprehension(ast);
    case BoolOp(_, _) => GoodBoolOp(ast);
    case Dict(_) => GoodDict(ast);
    case Compare(_, _) => GoodCompare(ast);
    case FunctionDef(_, _, _, _) => GoodFunction(ast);
  }

  lemma {:induction false} EmitsCells(ast: Ast, j: nat)
    requires j <= |Cells(ast)|
    ensures EmitsRange(ast, 0, j) <==> forall i :: 0 <= i < j ==> EmitsCell(ast, i)
    decreases j
  {
    hide *;
    if j == 0 {
      NoRange(ast, 0);
    } else {
      RangeNext(ast, 0, j - 1);
      EmitsCells(ast, j - 1);
    }
  }

  /** parse_next gets through without throwing for these trees and no others. */
  lemma {:induction false} CompiledExactly(ast: Ast)
    ensures Emits(ast) <==> Compilable(ast)
    decreases ast, 1
  {
    hide *;
    CodeIs(ast);
    if ast == Null || ast == Unsupported || ast == OtherNumber {
      NeverCompilable();
    } else {
      EmitsCells(ast, |Cells(ast)|);
      GoodCells(ast);
      GoodAllIs(Cells(ast));
      if GoodAll(Cells(ast)) {
        forall i | 0 <= i < |Cells(ast)| ensures EmitsCell(ast, i) {
          CompiledCell(ast, i);
        }
      }
      if Emits(ast) {
        forall i | 0 <= i < |Cells(ast)| ensures Good(Cells(ast)[i]) {
          CompiledCell(ast, i);
        }
      }
    }
  }

  lemma NeverCompilable()
    ensures !Compilable(Null) && !Compilable(Unsupported) && !Compilable(OtherNumber)
  {
  }

  lemma GoodAllIs(cells: seq<Cell>)
    ensures GoodAll(cells) <==> forall i :: 0 <= i < |cells| ==> Good(cells[i])
  {
    hide Good;
  }

  lemma {:induction false} CompiledCell(ast: Ast, i: nat)
    requires i < |Cells(ast)|
    ensures EmitsCell(ast, i) <==> Good(Cells(ast)[i])
    decreases ast, 0
  {
    hide *;
    CellCodeIs(ast, i);
    match Cells(ast)[i]
    case Word(n) => GoodIs(ast, n);
    case Text(text) => GoodText(text);
    case Child(a) =>
      CellSmaller(ast, i);
      TreeIs(Cells(ast)[i]);
      CompiledExactly(a);
      GoodIs(a, 0);
    case Slot(a) =>
      CellSmaller(ast, i);
      TreeIs(Cells(ast)[i]);
      CompiledExactly(a);
      GoodIs(a, 0);
    case LengthOf(a) => GoodIs(a, 0);
    case Misread(a) => GoodIs(a, 0);
  }

  lemma GoodText(text: seq<byte>)
    ensures Good(Text(text))
  {
  }

  /** Compiling a module and parsing the result gives its tree again. */
  method CompileAndParse(body: Ast) returns (compiled: bool, code: seq<byte>)
    requires |Code(body)| < 4294967296
    ensures compiled <==> Compilable(body)
    ensures compiled ==> Parse(code) == Some((Normal(body), []))
  {
    hide *;
    var compiler := new Compiler();
    compiled := compiler.Run(body);
    code := compiler.result.bytes;
    CompiledExactly(body);
    if compiled {
      SoundTree(body);
      ParseCode(body, []);
      assert code + [] == code;
    }
  }

  lemma SoundTree(ast: Ast)
    requires Emits(ast) && |Code(ast)| < 4294967296
    ensures Sound(ast)
  {
    hide Emits, Code;
  }
}
