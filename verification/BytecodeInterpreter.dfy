/**
 The reading methods of `Interpreter`, which move the read cursor of its stream, with no limit
 on the number of steps. Each either throws or ends up further on in the same bytes.
 */
module BytecodeInterpreter {
  import opened Bytes
  import opened BitStream
  import opened Bytecode
  import opened BytecodeReader

  // Only forward.

  /** r is what is left of s after some of it. */
  ghost predicate IsSuffix(r: seq<byte>, s: seq<byte>) {
    |r| <= |s| && r == s[|s| - |r|..]
  }

  lemma SuffixTransitive(r: seq<byte>, q: seq<byte>, s: seq<byte>)
    requires IsSuffix(r, q) && IsSuffix(q, s)
    ensures IsSuffix(r, s)
  {
  }

  lemma ReadersAreSuffixes(s: seq<byte>)
    ensures IsSuffix(s, s)
    ensures ReadU32(s).Some? ==> IsSuffix(ReadU32(s).value.1, s)
    ensures ReadText(s).Some? ==> IsSuffix(ReadText(s).value.1, s)
    ensures ReadName(s).Some? ==> IsSuffix(ReadName(s).value.1, s)
  {
    hide WordOf;
  }

  lemma NamesAreSuffixes(s: seq<byte>)
    ensures ReadNames(s).Some? ==> IsSuffix(ReadNames(s).value.1, s)
  {
    hide ReadU32, ReadText, ReadName, IsSuffix;
    ReadersAreSuffixes(s);
    if ReadU32(s).Some? {
      var s1 := ReadU32(s).value.1;
      ReadersAreSuffixes(s1);
      if ReadText(s1).Some? {
        SuffixTransitive(ReadText(s1).value.1, s1, s);
      }
      if ReadU32(s1).Some? {
        var s2 := ReadU32(s1).value.1;
        ReadersAreSuffixes(s2);
        SuffixTransitive(s2, s1, s);
        if ReadName(s2).Some? {
          var s3 := ReadName(s2).value.1;
          ReadersAreSuffixes(s3);
          SuffixTransitive(s3, s2, s);
          if ReadName(s3).Some? {
            SuffixTransitive(ReadName(s3).value.1, s3, s);
          }
        }
      }
    }
  }

  /** On any bytes, skip_next throws or moves strictly forward, by at least a word. */
  lemma SkipAdvances(s: seq<byte>)
    ensures Skip(s).Some? ==> IsSuffix(Skip(s).value, s) && |Skip(s).value| + 4 <= |s|
    decreases |s|, 0, 0
  {
    ReadersAdvance(s);
    ReadersAreSuffixes(s);
    hide IsSuffix, Steps, SkipSteps, ReadU32;
    if ReadU32(s).Some? {
      var (tag, rest) := ReadU32(s).value;
      if Steps(tag).Some? {
        SkipStepsAdvance(Steps(tag).value, rest);
        if SkipSteps(Steps(tag).value, rest).Some? {
          SuffixTransitive(SkipSteps(Steps(tag).value, rest).value, rest, s);
        }
      }
    }
  }

  lemma SkipStepsAdvance(steps: seq<Step>, s: seq<byte>)
    ensures SkipSteps(steps, s).Some? ==> IsSuffix(SkipSteps(steps, s).value, s)
    decreases |s|, 2, |steps|
  {
    ReadersAreSuffixes(s);
    hide IsSuffix, SkipStep;
    if steps != [] {
      SkipStepAdvances(steps[0], s);
      if SkipStep(steps[0], s).Some? {
        var rest := SkipStep(steps[0], s).value;
        SkipStepsAdvance(steps[1..], rest);
        if SkipSteps(steps[1..], rest).Some? {
          SuffixTransitive(SkipSteps(steps[1..], rest).value, rest, s);
        }
      }
    }
  }

  lemma SkipStepAdvances(step: Step, s: seq<byte>)
    ensures SkipStep(step, s).Some? ==> IsSuffix(SkipStep(step, s).value, s)
    decreases |s|, 1, 0
  {
    ReadersAdvance(s);
    ReadersAreSuffixes(s);
    NamesAreSuffixes(s);
    hide IsSuffix, Skip, SkipMany, ReadU32, ReadText, ReadNames;
    match step {
      case OneNode => SkipAdvances(s);
      case Counted(body) =>
        if ReadU32(s).Some? {
          var (n, rest) := ReadU32(s).value;
          SkipManyAdvances(body, n, rest);
          if SkipMany(body, n, rest).Some? {
            SuffixTransitive(SkipMany(body, n, rest).value, rest, s);
          }
        }
      case _ =>
    }
  }

  lemma SkipManyAdvances(body: seq<Step>, n: nat, s: seq<byte>)
    ensures SkipMany(body, n, s).Some? ==> IsSuffix(SkipMany(body, n, s).value, s)
    decreases |s|, 3, n
  {
    ReadersAreSuffixes(s);
    hide IsSuffix, SkipSteps;
    if n > 0 {
      SkipStepsAdvance(body, s);
      if SkipSteps(body, s).Some? {
        var rest := SkipSteps(body, s).value;
        SkipManyAdvances(body, n - 1, rest);
        if SkipMany(body, n - 1, rest).Some? {
          SuffixTransitive(SkipMany(body, n - 1, rest).value, rest, s);
        }
      }
    }
  }

  // How the cases of skip_next unfold.

  /** The body of a counted loop: an operator first, or two nodes rather than one. */
  function Body(operator: bool, pair: bool): seq<Step> {
    if operator then [OneWord, OneNode] else if pair then [OneNode, OneNode] else [OneNode]
  }

  ghost function Then(first: Option<seq<byte>>, steps: seq<Step>): Option<seq<byte>> {
    match first
    case None => None
    case Some(rest) => SkipSteps(steps, rest)
  }

  lemma StepsUnfold(step: Step, steps: seq<Step>, s: seq<byte>)
    ensures SkipSteps([step] + steps, s) == Then(SkipStep(step, s), steps)
    ensures SkipSteps([], s) == Some(s)
  {
    hide SkipStep;
    assert ([step] + steps)[1..] == steps;
  }

  lemma OneStep(step: Step, s: seq<byte>)
    ensures SkipSteps([step], s) == SkipStep(step, s)
  {
    hide SkipStep;
    StepsUnfold(step, [], s);
    assert [step] + [] == [step];
  }

  lemma TwoSteps(a: Step, b: Step, s: seq<byte>)
    ensures SkipSteps([a, b], s) == (match SkipStep(a, s) case None => None case Some(rest) => SkipStep(b, rest))
  {
    hide SkipStep, SkipSteps;
    StepsUnfold(a, [b], s);
    assert [a] + [b] == [a, b];
    if SkipStep(a, s).Some? {
      OneStep(b, SkipStep(a, s).value);
    }
  }

  lemma ThreeSteps(a: Step, b: Step, c: Step, s: seq<byte>)
    ensures SkipSteps([a, b, c], s) == Then(SkipStep(a, s), [b, c])
  {
    hide SkipStep, SkipSteps;
    StepsUnfold(a, [b, c], s);
    assert [a] + [b, c] == [a, b, c];
  }

  lemma SkipUnfold(s: seq<byte>, tag: nat, rest: seq<byte>)
    requires ReadU32(s) == Some((tag, rest))
    ensures Skip(s) == (match Steps(tag) case None => None case Some(steps) => SkipSteps(steps, rest))
  {
    hide ReadU32, SkipSteps, Steps;
  }

  lemma SkipAtEnd(s: seq<byte>)
    requires ReadU32(s) == None
    ensures Skip(s) == None
  {
    hide ReadU32, SkipSteps, Steps;
  }

  /** What single steps are. */
  lemma StepIs(s: seq<byte>)
    ensures SkipStep(OneNode, s) == Skip(s)
    ensures SkipStep(OneWord, s) == (if ReadU32(s).Some? then Some(ReadU32(s).value.1) else None)
    ensures SkipStep(OneText, s) == (if ReadText(s).Some? then Some(ReadText(s).value.1) else None)
    ensures SkipStep(Names, s) == (if ReadNames(s).Some? then Some(ReadNames(s).value.1) else None)
  {
    hide Skip, ReadU32, ReadText, ReadNames;
  }

  class Interpreter {
    const data: BitStream

    constructor (bytes: seq<byte>)
      ensures fresh(data) && data.Valid() && !data.failed && data.Rest() == bytes
    {
      data := new BitStream(bytes);
      new;
      assert data.bytes[0..] == data.bytes;
    }

    /** The outcome of a reader: it throws, or this is what is left. */
    ghost predicate Left(ok: bool, r: Option<seq<byte>>)
      reads data
    {
      data.Valid() && if ok then !data.failed && r == Some(data.Rest()) else r == None
    }

    /** read_name */
    method ReadAName() returns (r: Option<seq<byte>>)
      requires data.Valid() && !data.failed
      modifies data`readPos, data`failed
      ensures data.Valid()
      ensures match ReadName(old(data.Rest()))
        case None => r == None
        case Some((name, rest)) => r == Some(name) && !data.failed && data.Rest() == rest
    {
      hide ReadU32, ReadText, BitStream.Valid;
      var tag := data.GetWord();
      if tag == None {
        return None;
      }
      if tag.value == NAME {
        r := data.GetText();
      } else if tag.value == STRING {
        r := data.GetText();
      } else {
        return None;
      }
    }

    /** read_names */
    method ReadSomeNames() returns (ok: bool, names: seq<seq<byte>>)
      requires data.Valid() && !data.failed
      modifies data`readPos, data`failed
      ensures data.Valid()
      ensures match ReadNames(old(data.Rest()))
        case None => !ok
        case Some((texts, rest)) => ok && names == texts && !data.failed && data.Rest() == rest
    {
      hide ReadU32, ReadText, ReadName, BitStream.Valid;
      names := [];
      var tag := data.GetWord();
      if tag == None {
        return false, [];
      }
      if tag.value == NAME || tag.value == STRING {
        var name := data.GetText();
        if name == None {
          return false, [];
        }
        return true, [name.value];
      } else if tag.value == TUPLE {
        var count := data.GetWord();
        if count == None || count.value != 2 {
          return false, [];
        }
        var first := ReadAName();
        if first == None {
          return false, [];
        }
        var second := ReadAName();
        if second == None {
          return false, [];
        }
        return true, [first.value, second.value];
      } else {
        return false, [];
      }
    }

    method SkipAWord() returns (ok: bool)
      requires data.Valid() && !data.failed
      modifies data`readPos, data`failed
      ensures Left(ok, SkipStep(OneWord, old(data.Rest())))
    {
      StepIs(data.Rest());
      hide ReadU32, SkipStep, BitStream.Valid;
      var v := data.GetWord();
      ok := v.Some?;
    }

    method SkipAText() returns (ok: bool)
      requires data.Valid() && !data.failed
      modifies data`readPos, data`failed
      ensures Left(ok, SkipStep(OneText, old(data.Rest())))
    {
      StepIs(data.Rest());
      hide ReadText, SkipStep, BitStream.Valid;
      var v := data.GetText();
      ok := v.Some?;
    }

    /** Two nodes, one after the other. */
    method SkipPair() returns (ok: bool)
      requires data.Valid() && !data.failed
      modifies data`readPos, data`failed
      ensures Left(ok, SkipSteps([OneNode, OneNode], old(data.Rest())))
      decreases |data.Rest()|, 1
    {
      hide *;
      ghost var s := data.Rest();
      TwoSteps(OneNode, OneNode, s);
      StepIs(s);
      SkipAdvances(s);
      ok := SkipNext();
      LeftFacts(ok, Skip(s));
      if ok {
        StepIs(data.Rest());
        ok := SkipNext();
      } else {
        LeftIs(false, None);
      }
    }

    lemma LeftFacts(ok: bool, r: Option<seq<byte>>)
      requires Left(ok, r)
      ensures data.Valid() && if ok then !data.failed && r == Some(data.Rest()) else r == None
    {
    }

    lemma LeftIs(ok: bool, r: Option<seq<byte>>)
      requires data.Valid() && if ok then !data.failed && r == Some(data.Rest()) else r == None
      ensures Left(ok, r)
    {
    }

    /** The body of one of the counted loops. */
    method SkipBody(operator: bool, pair: bool) returns (ok: bool)
      requires data.Valid() && !data.failed
      modifies data`readPos, data`failed
      ensures Left(ok, SkipSteps(Body(operator, pair), old(data.Rest())))
      decreases |data.Rest()|, 2
    {
      hide *;
      ghost var s := data.Rest();
      LoopBodyIs(operator, pair, s);
      if operator {
        TwoSteps(OneWord, OneNode, s);
        SkipStepAdvances(OneWord, s);
        ok := SkipAWord();
        LeftFacts(ok, SkipStep(OneWord, s));
        if ok {
          StepIs(data.Rest());
          ok := SkipNext();
        } else {
          LeftIs(false, None);
        }
      } else if pair {
        ok := SkipPair();
      } else {
        OneStep(OneNode, s);
        StepIs(s);
        ok := SkipNext();
      }
    }

    /** A count and a loop. */
    method SkipCounted(operator: bool, pair: bool) returns (ok: bool)
      requires data.Valid() && !data.failed
      modifies data`readPos, data`failed
      ensures Left(ok, SkipStep(Counted(Body(operator, pair)), old(data.Rest())))
      decreases |data.Rest()|, 3
    {
      hide *;
      ghost var s, body := data.Rest(), Body(operator, pair);
      CountedIs(body, s);
      ReadersAdvance(s);
      var count := data.GetWord();
      if count == None {
        LeftIs(false, None);
        return false;
      }
      ghost var whole, first := SkipMany(body, count.value, data.Rest()), |data.Rest()|;
      var i: nat := 0;
      while i < count.value
        invariant i <= count.value && data.Valid() && !data.failed && |data.Rest()| <= first
        invariant SkipMany(body, count.value - i, data.Rest()) == whole
      {
        ghost var rest := data.Rest();
        ManyIs(body, count.value - i, rest);
        SkipStepsAdvance(body, rest);
        ok := SkipBody(operator, pair);
        LeftFacts(ok, SkipSteps(body, rest));
        if !ok {
          LeftIs(false, whole);
          return;
        }
        SuffixSize(data.Rest(), rest);
        i := i + 1;
      }
      ManyIs(body, 0, data.Rest());
      ok := true;
      LeftIs(ok, whole);
    }

    /** The names of a loop's target. */
    method SkipTarget() returns (ok: bool)
      requires data.Valid() && !data.failed
      modifies data`readPos, data`failed
      ensures Left(ok, SkipStep(Names, old(data.Rest())))
    {
      hide *;
      StepIs(data.Rest());
      ghost var s := data.Rest();
      var names;
      ok, names := ReadSomeNames();
      LeftIs(ok, SkipStep(Names, s));
    }

    /** One step and then a loop or two nodes. */
    method AfterFirst(ok0: bool, counted: bool, operator: bool,
          ghost steps: seq<Step>, ghost first: Option<seq<byte>>, ghost s: seq<byte>)
      returns (ok: bool)
      requires Left(ok0, first) && data.Valid() && (ok0 ==> |data.Rest()| < |s|)
      requires steps == if counted then [Counted(Body(operator, false))] else [OneNode, OneNode]
      modifies data`readPos, data`failed
      ensures Left(ok, Then(first, steps))
      decreases |s|, 0, 1
    {
      hide *;
      LeftFacts(ok0, first);
      ThenIs(first, steps);
      if !ok0 {
        LeftIs(false, None);
        return false;
      }
      if counted {
        OneStep(Counted(Body(operator, false)), data.Rest());
        ok := SkipCounted(operator, false);
      } else {
        ok := SkipPair();
      }
    }

    /** The cases of skip_next with an operator or a list. */
    method SkipOperatorOrList(tag: nat, ghost s: seq<byte>) returns (ok: bool)
      requires data.Valid() && !data.failed && |data.Rest()| < |s|
      modifies data`readPos, data`failed
      ensures OtherCase(tag) && Steps(tag).Some? ==> Left(ok, SkipSteps(Steps(tag).value, old(data.Rest())))
      ensures !OtherCase(tag) ==> !ok && data.Valid()
      decreases |s|, 0, 2
    {
      hide *;
      ghost var rest := data.Rest();
      OtherCases(tag);
      StepIs(rest);
      SkipStepAdvances(OneNode, rest);
      SkipStepAdvances(OneWord, rest);
      Bodies();
      if tag == ASSIGN || tag == CALL {
        TwoThen(OneNode, Counted([OneNode]), rest);
        ok := SkipNext();
        LeftShrinks(ok, SkipStep(OneNode, rest), rest);
        ok := AfterFirst(ok, true, false, [Counted([OneNode])], SkipStep(OneNode, rest), s);
      } else if tag in {STATEMENT_LIST, LIST, TUPLE} {
        OneStep(Counted([OneNode]), rest);
        ok := SkipCounted(false, false);
      } else if tag == DICTIONARY {
        OneStep(Counted([OneNode, OneNode]), rest);
        ok := SkipCounted(false, true);
      } else if tag == COMPARE {
        TwoThen(OneNode, Counted([OneWord, OneNode]), rest);
        ok := SkipNext();
        LeftShrinks(ok, SkipStep(OneNode, rest), rest);
        ok := AfterFirst(ok, true, true, [Counted([OneWord, OneNode])], SkipStep(OneNode, rest), s);
      } else if tag == UNARY_OP {
        ok := SkipBody(true, false);
      } else if tag == BOOL_OP {
        TwoThen(OneWord, Counted([OneNode]), rest);
        ok := SkipAWord();
        LeftShrinks(ok, SkipStep(OneWord, rest), rest);
        ok := AfterFirst(ok, true, false, [Counted([OneNode])], SkipStep(OneWord, rest), s);
      } else if tag == AUGMENTED_ASSIGN || tag == BINARY_OP {
        ThreeSteps(OneWord, OneNode, OneNode, rest);
        ok := SkipAWord();
        LeftShrinks(ok, SkipStep(OneWord, rest), rest);
        ok := AfterFirst(ok, false, false, [OneNode, OneNode], SkipStep(OneWord, rest), s);
      } else {
        ok := false;
      }
    }

    lemma LeftShrinks(ok: bool, r: Option<seq<byte>>, s: seq<byte>)
      requires Left(ok, r) && (r.Some? ==> IsSuffix(r.value, s))
      ensures data.Valid() && (ok ==> |data.Rest()| <= |s|)
    {
    }

    /** skip_next */
    method SkipNext() returns (ok: bool)
      requires data.Valid() && !data.failed
      modifies data`readPos, data`failed
      ensures Left(ok, Skip(old(data.Rest())))
      decreases |data.Rest()|, 0
    {
      hide *;
      ghost var s := data.Rest();
      ReadersAdvance(s);
      var tag := data.GetWord();
      if tag == None {
        SkipAtEnd(s);
        LeftIs(false, None);
        return false;
      }
      ghost var rest := data.Rest();
      SkipUnfold(s, tag.value, rest);
      CasesOf(tag.value);
      FirstCaseIs(tag.value);
      SkipStepAdvances(OneNode, rest);
      SkipStepAdvances(OneWord, rest);
      SkipStepAdvances(Names, rest);
      StepIs(rest);
      if tag.value in {PASS, BREAK, CONTINUE} {
        SkipStepsNone(rest);
        ok := true;
        LeftIs(true, Some(rest));
      } else if tag.value == NAME || tag.value == STRING {
        OneStep(OneText, rest);
        ok := SkipAText();
      } else if tag.value == FOR_LOOP {
        ThreeSteps(Names, OneNode, OneNode, rest);
        ok := SkipTarget();
        LeftShrinks(ok, SkipStep(Names, rest), rest);
        ok := AfterFirst(ok, false, false, [OneNode, OneNode], SkipStep(Names, rest), s);
      } else if tag.value in {WHILE_LOOP, IF, ATTRIBUTE, SUBSCRIPT} {
        ok := SkipPair();
      } else if tag.value == IF_ELSE {
        ThreeSteps(OneNode, OneNode, OneNode, rest);
        ok := SkipNext();
        LeftShrinks(ok, SkipStep(OneNode, rest), rest);
        ok := AfterFirst(ok, false, false, [OneNode, OneNode], SkipStep(OneNode, rest), s);
      } else if tag.value == INDEX || tag.value == RETURN {
        OneStep(OneNode, rest);
        ok := SkipNext();
      } else if tag.value == INTEGER {
        OneStep(OneWord, rest);
        ok := SkipAWord();
      } else {
        ok := SkipOperatorOrList(tag.value, s);
        if !OtherCase(tag.value) {
          LeftIs(false, None);
        }
      }
    }

    /** m_data >> type, and the check that follows. */
    method ExpectTag(tag: nat) returns (ok: bool)
      requires data.Valid() && !data.failed
      modifies data`readPos, data`failed
      ensures Left(ok, Expect(tag, old(data.Rest())))
    {
      hide ReadU32, BitStream.Valid;
      var v := data.GetWord();
      ok := v.Some? && v.value == tag;
    }

    /** The loop over the arguments of a stub. */
    method ReadArgumentList(n: nat) returns (names: Option<seq<seq<byte>>>)
      requires data.Valid() && !data.failed
      modifies data`readPos, data`failed
      ensures data.Valid()
      ensures match ReadArguments(n, old(data.Rest()))
        case None => names == None
        case Some((texts, rest)) => names == Some(texts) && !data.failed && data.Rest() == rest
    {
      hide ReadName, BitStream.Valid;
      ghost var s := data.Rest();
      var read: seq<seq<byte>> := [];
      var i: nat := 0;
      PrependNothing(ReadArguments(n, s));
      while i < n
        invariant i <= n && data.Valid() && !data.failed
        invariant ReadArguments(n, s) == Prepend(read, ReadArguments(n - i, data.Rest()))
      {
        ghost var here := data.Rest();
        var name := ReadAName();
        if name == None {
          return None;
        }
        PrependNext(read, name.value, ReadArguments(n - i - 1, data.Rest()));
        read := read + [name.value];
        i := i + 1;
      }
      assert read + [] == read;
      return Some(read);
    }

    /** The loop over the defaults of a stub, as long as they are placeholders. */
    method ReadDefaultList(n: nat) returns (absent: bool, expression: bool)
      requires data.Valid() && !data.failed
      modifies data`readPos, data`failed
      ensures data.Valid()
      ensures match ReadDefaults(n, old(data.Rest()))
        case NoMore => !absent && !expression
        case Expression => !absent && expression
        case Absent(rest) => absent && !data.failed && data.Rest() == rest
    {
      hide ReadU32, BitStream.Valid;
      ghost var s := data.Rest();
      var i: nat := 0;
      while i < n
        invariant i <= n && data.Valid() && !data.failed
        invariant ReadDefaults(n, s) == ReadDefaults(n - i, data.Rest())
      {
        var tag := data.GetWord();
        if tag == None {
          return false, false;
        }
        if tag.value != PASS {
          return false, true;
        }
        i := i + 1;
      }
      return true, false;
    }

    /** read_function_stub, up to the point where a default would be executed. */
    method ReadFunctionStub() returns (r: StubOutcome)
      requires data.Valid() && !data.failed
      modifies data`readPos, data`failed
      ensures data.Valid() && r == ReadStub(old(data.Rest()))
      ensures r.Stub? ==> !data.failed && data.Rest() == r.rest
    {
      hide ReadU32, Expect, ReadArguments, ReadDefaults, BitStream.Valid;
      var totalStubLen := data.GetWord();
      if totalStubLen == None {
        return Throws;
      }
      var ok := ExpectTag(FUNCTION_START);
      if !ok {
        return Throws;
      }
      var numArgs := data.GetWord();
      if numArgs == None {
        return Throws;
      }
      var args := ReadArgumentList(numArgs.value);
      if args == None {
        return Throws;
      }
      r := ReadRestOfStub(totalStubLen.value, args.value);
    }

    /** The second half of read_function_stub, from the defaults on. */
    method ReadRestOfStub(totalStubLen: uint32, args: seq<seq<byte>>) returns (r: StubOutcome)
      requires data.Valid() && !data.failed
      modifies data`readPos, data`failed
      ensures data.Valid() && r == ReadDefaultsAndBody(totalStubLen, args, old(data.Rest()))
      ensures r.Stub? ==> !data.failed && data.Rest() == r.rest
    {
      hide ReadU32, Expect, ReadArguments, ReadDefaults, BitStream.Valid;
      var ok := ExpectTag(FUNCTION_START_DEFAULTS);
      if !ok {
        return Throws;
      }
      var numDefaults := data.GetWord();
      if numDefaults == None || numDefaults.value != |args| {
        return Throws;
      }
      var absent, expression := ReadDefaultList(numDefaults.value);
      if !absent {
        return if expression then Executes else Throws;
      }
      ok := ExpectTag(FUNCTION_START_STUB);
      if !ok {
        return Throws;
      }
      var stub := data.Read(totalStubLen);
      ok := ExpectEnd();
      if !ok {
        return Throws;
      }
      return Stub(args, stub, data.Rest());
    }

    /** The end marker, on a stream that may have failed. */
    method ExpectEnd() returns (ok: bool)
      requires data.Valid()
      modifies data`readPos, data`failed
      ensures data.Valid() && (ok ==> !data.failed)
      ensures old(data.failed) ==> !ok
      ensures !old(data.failed) ==> Left(ok, Expect(FUNCTION_END, old(data.Rest())))
    {
      hide ReadU32, BitStream.Valid;
      var v := data.GetWord();
      ok := v.Some? && v.value == FUNCTION_END;
    }
  }

  function Prepend(names: seq<seq<byte>>, r: Option<(seq<seq<byte>>, seq<byte>)>): Option<(seq<seq<byte>>, seq<byte>)> {
    match r
    case None => None
    case Some((more, rest)) => Some((names + more, rest))
  }

  lemma PrependNothing(r: Option<(seq<seq<byte>>, seq<byte>)>)
    ensures Prepend([], r) == r
  {
    if r.Some? {
      assert [] + r.value.0 == r.value.0;
    }
  }

  lemma PrependNext(names: seq<seq<byte>>, name: seq<byte>, r: Option<(seq<seq<byte>>, seq<byte>)>)
    ensures Prepend(names + [name], r) == Prepend(names, Prepend([name], r))
  {
    if r.Some? {
      ConcatAssociative(names, [name], r.value.0);
    }
  }

  /**
     Compiling a module and skipping its code: the interpreter ends up exactly at the end, or
     throws if something in the module can not be skipped.
   */
  method CompileAndSkip(body: Ast) returns (compiled: bool, skipped: bool, interpreter: Interpreter)
    requires |Code(body)| < 0x1_0000_0000
    ensures compiled <==> Emits(body)
    ensures skipped <==> Emits(body) && Skippable(body)
    ensures skipped ==> interpreter.data.Valid() && interpreter.data.Rest() == []
  {
    hide *;
    var compiler := new Compiler();
    compiled := compiler.Run(body);
    skipped := false;
    var code: seq<byte> := compiler.result.bytes;
    interpreter := new Interpreter(code);
    if compiled {
      SoundIs(body);
      SkipCode(body, []);
      VerdictIs(Skippable(body), []);
      assert code + [] == code;
      skipped := interpreter.SkipNext();
      interpreter.LeftFacts(skipped, Skip(code));
    }
  }

  /**
     Compiling a function without defaults and reading it back gives its name, the names of its
     arguments and the code of its body.
   */
  method CompileAndReadFunction(ast: Ast) returns (compiled: bool, name: Option<seq<byte>>, r: StubOutcome)
    requires ast.FunctionDef? && IsName(ast.fname) && Plain(ast) && |Code(ast)| < 0x1_0000_0000
    ensures compiled <==> Emits(ast)
    ensures compiled ==> name == Some(NameText(ast.fname)) && r == Stub(NameTexts(ast.arguments), Code(ast.body), [])
  {
    PlainFacts(ast);
    hide *;
    var compiler := new Compiler();
    compiled := compiler.Run(ast);
    name, r := None, Throws;
    var code: seq<byte> := compiler.result.bytes;
    var interpreter := new Interpreter(code);
    if compiled {
      NameOfFunction(ast, []);
      StubOfFunction(ast, []);
      assert code + [] == code;
      var ok := interpreter.ExpectTag(FUNCTION_DEF);
      interpreter.LeftFacts(ok, Expect(FUNCTION_DEF, code));
      if ok {
        name := interpreter.ReadAName();
        if name.Some? {
          r := interpreter.ReadFunctionStub();
        }
      }
    }
  }

  lemma TwoThen(a: Step, b: Step, s: seq<byte>)
    ensures SkipSteps([a, b], s) == Then(SkipStep(a, s), [b])
  {
    hide SkipStep;
    StepsUnfold(a, [b], s);
    assert [a] + [b] == [a, b];
  }

  lemma Bodies()
    ensures Body(false, false) == [OneNode] && Body(false, true) == [OneNode, OneNode]
      && Body(true, false) == [OneWord, OneNode]
  {
  }

  predicate FirstCase(tag: nat) {
    || tag in {PASS, BREAK, CONTINUE, NAME, STRING, FOR_LOOP, WHILE_LOOP}
    || tag in {IF, ATTRIBUTE, SUBSCRIPT, IF_ELSE, INDEX, RETURN, INTEGER}
  }

  lemma FirstCaseIs(tag: nat)
    ensures FirstCase(tag) <==>
      tag in {PASS, BREAK, CONTINUE, NAME, STRING, FOR_LOOP, WHILE_LOOP}
      || tag in {IF, ATTRIBUTE, SUBSCRIPT, IF_ELSE, INDEX, RETURN, INTEGER}
  {
  }

  predicate OtherCase(tag: nat) {
    || tag in {ASSIGN, CALL, STATEMENT_LIST, LIST, TUPLE, DICTIONARY}
    || tag in {COMPARE, UNARY_OP, BOOL_OP, AUGMENTED_ASSIGN, BINARY_OP}
  }

  lemma CasesOf(tag: nat)
    ensures tag in {PASS, BREAK, CONTINUE} ==> Steps(tag) == Some([])
    ensures tag == NAME || tag == STRING ==> Steps(tag) == Some([OneText])
    ensures tag == FOR_LOOP ==> Steps(tag) == Some([Names, OneNode, OneNode])
    ensures tag in {WHILE_LOOP, IF, ATTRIBUTE, SUBSCRIPT} ==> Steps(tag) == Some([OneNode, OneNode])
    ensures tag == IF_ELSE ==> Steps(tag) == Some([OneNode, OneNode, OneNode])
    ensures tag == INDEX || tag == RETURN ==> Steps(tag) == Some([OneNode])
    ensures tag == INTEGER ==> Steps(tag) == Some([OneWord])
    ensures OtherCase(tag) ==> Steps(tag).Some?
    ensures !FirstCase(tag) && !OtherCase(tag) ==> Steps(tag) == None
  {
  }

  lemma OtherCases(tag: nat)
    ensures tag == ASSIGN || tag == CALL ==> Steps(tag) == Some([OneNode, Counted([OneNode])])
    ensures tag in {STATEMENT_LIST, LIST, TUPLE} ==> Steps(tag) == Some([Counted([OneNode])])
    ensures tag == DICTIONARY ==> Steps(tag) == Some([Counted([OneNode, OneNode])])
    ensures tag == COMPARE ==> Steps(tag) == Some([OneNode, Counted([OneWord, OneNode])])
    ensures tag == UNARY_OP ==> Steps(tag) == Some([OneWord, OneNode])
    ensures tag == BOOL_OP ==> Steps(tag) == Some([OneWord, Counted([OneNode])])
    ensures tag == AUGMENTED_ASSIGN || tag == BINARY_OP ==> Steps(tag) == Some([OneWord, OneNode, OneNode])
    ensures OtherCase(tag) <==>
      tag in {ASSIGN, CALL, STATEMENT_LIST, LIST, TUPLE, DICTIONARY}
      || tag in {COMPARE, UNARY_OP, BOOL_OP, AUGMENTED_ASSIGN, BINARY_OP}
  {
  }

  lemma ThenIs(first: Option<seq<byte>>, steps: seq<Step>)
    ensures Then(first, steps) == if first.Some? then SkipSteps(steps, first.value) else None
  {
  }

  lemma CountedIs(body: seq<Step>, s: seq<byte>)
    ensures SkipStep(Counted(body), s) ==
      (match ReadU32(s) case None => None case Some((n, rest)) => SkipMany(body, n, rest))
  {
    hide ReadU32, SkipMany;
  }

  lemma ManyIs(body: seq<Step>, n: nat, s: seq<byte>)
    ensures n == 0 ==> SkipMany(body, n, s) == Some(s)
    ensures n > 0 && SkipSteps(body, s) == None ==> SkipMany(body, n, s) == None
    ensures n > 0 && SkipSteps(body, s).Some? ==>
      SkipMany(body, n, s) == SkipMany(body, n - 1, SkipSteps(body, s).value)
  {
    hide SkipSteps;
  }

  lemma SuffixSize(r: seq<byte>, s: seq<byte>)
    requires IsSuffix(r, s)
    ensures |r| <= |s|
  {
  }

  lemma LoopBodyIs(operator: bool, pair: bool, s: seq<byte>)
    ensures operator ==> Body(operator, pair) == [OneWord, OneNode]
    ensures !operator && pair ==> Body(operator, pair) == [OneNode, OneNode]
    ensures !operator && !pair ==> Body(operator, pair) == [OneNode]
  {
  }
}
