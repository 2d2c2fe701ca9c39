/** The sample program of the interpreter and a few small inputs, worked
    through the parser and the tick engine. */
module SampleProgram {
  import opened RustStd
  import opened Errors
  import opened Tis100
  import P = Parse
  import E = Emu

  /** The two nodes the sample program describes. */
  function SampleNodes(): seq<Node> {
    [Node(NewNodeState(), [Add(4)]), Node(NewNodeState(), [Add(1)])]
  }

  /** A node body that passes one line on to decoding is that line's
      instruction, or fails as that line does. */
  lemma BodyOfOneKept(body: string, line: string)
    requires P.Kept(P.NodeLines(body)) == [line]
    ensures P.ParsedNode(body) ==
      match P.DecodeLine(line)
      case Ok(i) => Ok(Node(NewNodeState(), [i]))
      case Err(k) => Err(k)
      case Panic => Panic
  {
    CollectAllSingle(line, P.DecodeLine);
  }

  /** A node body whose only non-empty line is an unlabelled instruction. */
  lemma SingleLineBody(body: string, line: string, i: Instruction)
    requires P.NodeLines(body) == [line]
    requires P.JumpmarkEnd(line).None? && P.DecodeLine(line) == Ok(i)
    ensures P.ParsedNode(body) == Ok(Node(NewNodeState(), [i]))
  {
    SingleLineKept(line);
    assert P.Remainder(line) == [line];
    BodyOfOneKept(body, line);
  }

  lemma UnlinesOne(a: string)
    ensures Unlines([a]) == a + "\n"
  {
    assert [a][1..] == [];
  }

  lemma UnlinesTwo(a: string, b: string)
    ensures Unlines([a, b]) == a + "\n" + b + "\n"
  {
    assert [a, b][1..] == [b];
    UnlinesOne(b);
    assert a + "\n" + (b + "\n") == a + "\n" + b + "\n";
  }

  /** The non-empty lines of a body made of one line. */
  lemma OneLine(line: string)
    requires |line| > 0 && PlainLine(line)
    ensures P.NodeLines(line + "\n") == [line]
  {
    UnlinesOne(line);
    LinesUnlines([line]);
    P.NonEmptyAll([line]);
  }

  /** The non-empty lines of a body made of one line and an empty one. */
  lemma LineThenBlank(line: string)
    requires |line| > 0 && PlainLine(line)
    ensures P.NodeLines(line + "\n\n") == [line]
  {
    LinesThenBlank(line);
    NonEmptyThenBlank(line);
  }

  lemma LinesThenBlank(line: string)
    requires PlainLine(line)
    ensures Lines(line + "\n\n") == [line, ""]
  {
    UnlinesTwo(line, "");
    assert line + "\n" + "" + "\n" == line + "\n\n";
    LinesUnlines([line, ""]);
  }

  lemma NonEmptyThenBlank(line: string)
    requires |line| > 0
    ensures P.NonEmpty([line, ""]) == [line]
  {
    P.NonEmptyAppend([line], [""]);
    assert [line] + [""] == [line, ""];
    assert P.NonEmpty([""]) == [];
    P.NonEmptyAll([line]);
  }

  /** A line without `':'` declares no jumpmark. */
  lemma NoColonNoJumpmark(line: string)
    requires ':' !in line
    ensures P.JumpmarkEnd(line) == None
  {
  }

  lemma FirstLine()
    ensures PlainLine("ADD4ADD2") && P.JumpmarkEnd("ADD4ADD2") == None
    ensures P.DecodeLine("ADD4ADD2") == Ok(Add(4))
  {
    NoColonNoJumpmark("ADD4ADD2");
    FirstInstruction();
    DecodeAddFour();
    P.DecodeLineIgnoresRest("ADD4", "ADD2");
  }

  lemma FirstInstruction()
    ensures "ADD4" + "ADD2" == "ADD4ADD2" && !IsDigit("ADD2"[0])
  {
  }

  lemma DecodeAddFour()
    ensures P.DecodeLine("ADD4") == Ok(Add(4))
  {
  }

  lemma SecondLine()
    ensures PlainLine("ADD1") && P.JumpmarkEnd("ADD1") == None
    ensures P.DecodeLine("ADD1") == Ok(Add(1))
  {
    NoColonNoJumpmark("ADD1");
  }

  /** The first node body: `ADD4ADD2` and an empty line. */
  lemma FirstBody()
    ensures P.ParsedNode("ADD4ADD2\n\n") == Ok(Node(NewNodeState(), [Add(4)]))
  {
    var line := "ADD4ADD2";
    FirstLine();
    LineThenBlank(line);
    assert line + "\n\n" == "ADD4ADD2\n\n";
    SingleLineBody("ADD4ADD2\n\n", line, Add(4));
  }

  /** The second node body: `ADD1`. */
  lemma SecondBody()
    ensures P.ParsedNode("ADD1\n") == Ok(Node(NewNodeState(), [Add(1)]))
  {
    var line := "ADD1";
    SecondLine();
    OneLine(line);
    assert line + "\n" == "ADD1\n";
    SingleLineBody("ADD1\n", line, Add(1));
  }

  /** Two spaces among otherwise significant text are all that is removed. */
  lemma StripTwoSpaces(a: string, b: string, c: string)
    requires P.Strip(a) == a && P.Strip(b) == b && P.Strip(c) == c
    ensures P.Strip(a + " " + b + " " + c) == a + b + c
  {
    StripSpaceBetween(a + " " + b, c);
    StripSpaceBetween(a, b);
  }

  /** A space between two texts is dropped. */
  lemma StripSpaceBetween(x: string, y: string)
    ensures P.Strip(x + " " + y) == P.Strip(x) + P.Strip(y)
  {
    var xs := x + " ";
    StripSpaceAfter(x);
    P.StripAppend(xs, y);
  }

  lemma StripSpaceAfter(x: string)
    ensures P.Strip(x + " ") == P.Strip(x)
  {
    var xs := x + " ";
    assert xs[..|xs| - 1] == x && xs[|xs| - 1] == ' ';
  }

  /** Text made of two `@`-introduced segments without `@`. */
  lemma TwoSegments(a: string, b: string)
    requires |a| > 0 && |b| > 0 && '@' !in a && '@' !in b
    ensures P.NonEmpty(Split("@" + a + "@" + b, '@')) == [a, b]
  {
    SplitTwo(a, b);
    NonEmptyTwo(a, b);
  }

  lemma SplitTwo(a: string, b: string)
    requires '@' !in a && '@' !in b
    ensures Split("@" + a + "@" + b, '@') == ["", a, b]
  {
    var pieces := ["", a, b];
    assert Join(pieces, '@') == "@" + a + "@" + b by {
      assert pieces[1..] == [a, b] && [a, b][1..] == [b];
      assert Join([a, b], '@') == a + "@" + b;
      assert Join(pieces, '@') == "" + "@" + (a + "@" + b);
      assert "" + "@" + (a + "@" + b) == "@" + a + "@" + b;
    }
    SplitJoin(pieces, '@');
  }

  lemma NonEmptyTwo(a: string, b: string)
    requires |a| > 0 && |b| > 0
    ensures P.NonEmpty(["", a, b]) == [a, b]
  {
    P.NonEmptyAppend([""], [a, b]);
    assert [""] + [a, b] == ["", a, b];
    assert P.NonEmpty([""]) == [];
    P.NonEmptyAll([a, b]);
  }

  /** Text with two spaces, which normalises to two `@`-introduced
      segments. */
  lemma SegmentsOf(code: string, x: string, y: string, z: string, a: string, b: string)
    requires code == x + " " + y + " " + z
    requires P.Strip(x) == x && P.Strip(y) == y && P.Strip(z) == z
    requires x + y + z == "@" + a + "@" + b
    requires |a| > 0 && |b| > 0 && '@' !in a && '@' !in b
    ensures P.Segments(code) == [a, b]
  {
    StripTwoSpaces(x, y, z);
    TwoSegments(a, b);
  }

  /** Text with two segments that both parse. */
  lemma ParseOfTwo(code: string, a: string, b: string, first: Node, second: Node)
    requires P.Segments(code) == [a, b] && |a| > 0 && |b| > 0
    requires P.ParsedNode(a[1..]) == Ok(first) && P.ParsedNode(b[1..]) == Ok(second)
    ensures P.Parse(code) == Ok([first, second])
  {
    var bodies := [a[1..], b[1..]];
    assert P.NodeBodies([a, b]) == bodies;
    CollectAllSingle(a[1..], P.ParsedNode);
    assert bodies[..1] == [a[1..]] && bodies[1] == b[1..];
    assert [first] + [second] == [first, second];
  }

  lemma SampleLayout()
    ensures SampleCode() == "@0" + " " + "ADD4ADD2\n\n@1" + " " + "ADD1\n"
    ensures "@0" + "ADD4ADD2\n\n@1" + "ADD1\n" == "@" + "0ADD4ADD2\n\n" + "@" + "1ADD1\n"
  {
  }

  lemma SampleSegmentFacts()
    ensures "0ADD4ADD2\n\n"[1..] == "ADD4ADD2\n\n" && "1ADD1\n"[1..] == "ADD1\n"
    ensures '@' !in "0ADD4ADD2\n\n" && '@' !in "1ADD1\n"
  {
  }

  /** The sample normalises to two segments, one per node. */
  lemma SampleSegments()
    ensures P.Segments(SampleCode()) == ["0ADD4ADD2\n\n", "1ADD1\n"]
  {
    SampleLayout();
    SampleSegmentFacts();
    SamplePiecesPlain();
    SegmentsOf(SampleCode(), "@0", "ADD4ADD2\n\n@1", "ADD1\n", "0ADD4ADD2\n\n", "1ADD1\n");
  }

  /** The pieces of the sample between its two spaces are plain. */
  lemma SamplePiecesPlain()
    ensures P.Strip("@0") == "@0" && P.Strip("ADD1\n") == "ADD1\n"
    ensures P.Strip("ADD4ADD2\n\n@1") == "ADD4ADD2\n\n@1"
  {
    StripNodeZero();
    P.StripPlain("ADD1\n");
    P.StripPlain("ADD4ADD2\n\n@1");
  }

  /** The sample parses to two nodes, `[Add(4)]` and `[Add(1)]`: the second
      `ADD2` on the first line is ignored. */
  lemma SampleParses()
    ensures P.Parse(SampleCode()) == Ok(SampleNodes())
  {
    SampleSegments();
    SampleSegmentFacts();
    FirstBody();
    SecondBody();
    ParseOfTwo(SampleCode(), "0ADD4ADD2\n\n", "1ADD1\n", SampleNodes()[0], SampleNodes()[1]);
  }

  /** After 3 ticks the sample's accumulators are 12 and 3. */
  lemma SampleTicks()
    ensures E.AccAfter(0, [Add(4)], 3) == 12
    ensures E.AccAfter(0, [Add(1)], 3) == 3
    ensures E.NoOverflow(0, [Add(4)], 3) && E.NoOverflow(0, [Add(1)], 3)
    ensures E.AllNoOverflow(SampleNodes(), 3)
  {
    RepeatedAdd(4, 3);
    RepeatedAdd(1, 3);
    assert SampleNodes()[0].instructions == [Add(4)] && SampleNodes()[1].instructions == [Add(1)];
  }

  /** A node whose program is one `ADD c` adds `c` on every tick. */
  lemma RepeatedAdd(c: U32, n: nat)
    requires c * n <= MaxU32
    ensures E.AccAfter(0, [Add(c)], n) == c * n
    ensures E.NoOverflow(0, [Add(c)], n)
  {
    forall k | 0 <= k <= n ensures E.AccAfter(0, [Add(c)], k) == c * k {
      AddTicks(c, k);
    }
    forall k | 0 <= k <= n ensures c * k <= c * n {
      assert c * n == c * k + c * (n - k);
    }
  }

  lemma {:induction false} AddTicks(c: U32, k: nat)
    ensures E.AccAfter(0, [Add(c)], k) == c * k
    decreases k
  {
    if k > 0 {
      AddTicks(c, k - 1);
      assert [Add(c)][(k - 1) % 1] == Add(c);
      assert c * k == c * (k - 1) + c;
    }
  }

  /** What the program's `main` computes: the sample parsed and ticked 3
      times. */
  method RunSample() returns (r: Outcome<seq<Node>>)
    ensures r == Ok([Node(NodeState(12, 0), [Add(4)]), Node(NodeState(3, 0), [Add(1)])])
  {
    var parsed := P.Parse(SampleCode());
    SampleParses();
    SampleTicks();
    var nodes := E.TickAllN(parsed.value, 3);
    SampleTicked(parsed.value, nodes);
    return Ok(nodes);
  }

  /** The sample's nodes after 3 ticks, from what `tick_all_n` promises. */
  lemma SampleTicked(nodes: seq<Node>, ticked: seq<Node>)
    requires nodes == SampleNodes()
    requires E.AccAfter(0, [Add(4)], 3) == 12 && E.AccAfter(0, [Add(1)], 3) == 3
    requires |ticked| == |nodes|
    requires forall i :: 0 <= i < |nodes| ==>
      && ticked[i].instructions == nodes[i].instructions
      && ticked[i].state.bak == nodes[i].state.bak
      && ticked[i].state.acc == E.AccAfter(nodes[i].state.acc, nodes[i].instructions, 3)
    ensures ticked == [Node(NodeState(12, 0), [Add(4)]), Node(NodeState(3, 0), [Add(1)])]
  {
    assert ticked[0].state.acc == E.AccAfter(0, [Add(4)], 3);
    assert ticked[1].state.acc == E.AccAfter(0, [Add(1)], 3);
  }

  /** 20 ticks of `ADD99` accumulate 1980. */
  lemma TwentyTicks()
    ensures E.AccAfter(0, [Add(99)], 20) == 1980
  {
    E.AccAfterClosedForm(0, [Add(99)], 20);
    assert [Add(99)][..0] == [];
  }

  // -------------------------------------------------------------------
  // Small inputs that fail or carry jumpmarks

  /** A body with one line keeps what that line passes on and records its
      label, if any, at index 0. */
  lemma SingleLineKept(line: string)
    ensures P.Kept([line]) == P.Remainder(line)
    ensures P.Jumpmarks([line]) == match P.Label(line) case Some(key) => map[key := 0] case None => map[]
  {
    P.FilterStep([line], 0);
    assert [line][..1] == [line] && [line][..0] == [];
  }

  /** With one character after the label colon skipped, `L:ADD1` is decoded
      from `DD1`, which starts no token: the node fails with a token error, and
      the label `L:` is recorded for line 0. */
  lemma LabelBeforeInstruction()
    ensures P.ParsedNode("L:ADD1\n") == Err(TokenError)
    ensures P.Jumpmarks(P.NodeLines("L:ADD1\n")) == map["L:" := 0]
  {
    var line := "L:ADD1";
    LabelledLine();
    OneLine(line);
    SingleLineKept(line);
    BodyOfOneKept("L:ADD1\n", "DD1");
  }

  lemma LabelledLine()
    ensures PlainLine("L:ADD1") && "L:ADD1" + "\n" == "L:ADD1\n"
    ensures P.Label("L:ADD1") == Some("L:") && P.Remainder("L:ADD1") == ["DD1"]
    ensures P.DecodeLine("DD1") == Err(TokenError)
  {
    var line := "L:ADD1";
    assert P.JumpmarkEnd(line) == Some(2);
    assert line[..2] == "L:" && line[3..] == "DD1";
  }

  /** The non-empty lines of a body of two lines. */
  lemma TwoLines(a: string, b: string)
    requires |a| > 0 && |b| > 0 && PlainLine(a) && PlainLine(b)
    ensures P.NodeLines(a + "\n" + b + "\n") == [a, b]
  {
    UnlinesTwo(a, b);
    LinesUnlines([a, b]);
    P.NonEmptyAll([a, b]);
  }

  /** A line that is only a label, then an unlabelled line. */
  lemma MarkThenLine(mark: string, line: string)
    requires P.JumpmarkEnd(mark) == Some(|mark|) && P.JumpmarkEnd(line).None?
    ensures P.Kept([mark, line]) == [line]
    ensures P.Jumpmarks([mark, line]) == map[mark := 0]
  {
    assert mark[..|mark|] == mark;
    SingleLineKept(mark);
    P.FilterStep([mark, line], 1);
    assert [mark, line][..1] == [mark] && [mark, line][..2] == [mark, line];
  }

  /** A label with nothing after its colon drops its line; the label is
      recorded at that line's index and the next line is decoded. */
  lemma LabelOnItsOwnLine()
    ensures P.ParsedNode("L:\nADD1\n") == Ok(Node(NewNodeState(), [Add(1)]))
    ensures P.Jumpmarks(P.NodeLines("L:\nADD1\n")) == map["L:" := 0]
  {
    var mark, line := "L:", "ADD1";
    MarkLine();
    SecondLine();
    TwoLines(mark, line);
    MarkThenLine(mark, line);
    BodyOfOneKept("L:\nADD1\n", line);
  }

  lemma MarkLine()
    ensures PlainLine("L:") && P.JumpmarkEnd("L:") == Some(2)
    ensures "L:" + "\n" + "ADD1" + "\n" == "L:\nADD1\n"
  {
  }

  /** Text with one `@`-introduced segment without `@`. */
  lemma OneSegment(a: string)
    requires |a| > 0 && '@' !in a
    ensures P.NonEmpty(Split("@" + a, '@')) == [a]
  {
    var pieces := ["", a];
    assert Join(pieces, '@') == "@" + a by {
      assert pieces[1..] == [a];
      assert Join(pieces, '@') == "" + "@" + a;
    }
    SplitJoin(pieces, '@');
    NonEmptyOne(a);
  }

  lemma NonEmptyOne(a: string)
    requires |a| > 0
    ensures P.NonEmpty(["", a]) == [a]
  {
    P.NonEmptyAppend([""], [a]);
    assert [""] + [a] == ["", a];
    assert P.NonEmpty([""]) == [];
    P.NonEmptyAll([a]);
  }

  /** Text with one segment, which fails. */
  lemma ParseOfOne(code: string, a: string)
    requires P.Segments(code) == [a] && |a| > 0
    requires !P.ParsedNode(a[1..]).Ok?
    ensures P.Parse(code) == Propagate(P.ParsedNode(a[1..]))
  {
    var bodies := P.NodeBodies([a]);
    assert bodies == [a[1..]];
    CollectAllSingle(a[1..], P.ParsedNode);
  }

  /** A line without `'\n'` is the only line of its text. */
  lemma NoNewline(line: string)
    requires |line| > 0 && '\n' !in line
    ensures P.NodeLines(line) == [line]
  {
    IndexOfAbsent(line, '\n');
    assert Lines(line) == [line];
    P.NonEmptyAll([line]);
  }

  /** A node body of one unlabelled line without `'\n'` is that line's
      instruction, or fails as that line does. */
  lemma OneLineNode(line: string)
    requires |line| > 0 && '\n' !in line && P.JumpmarkEnd(line).None?
    requires !P.DecodeLine(line).Ok?
    ensures P.ParsedNode(line) == Propagate(P.DecodeLine(line))
  {
    NoNewline(line);
    SingleLineKept(line);
    assert P.Remainder(line) == [line];
    BodyOfOneKept(line, line);
  }

  /** A program of one node `0` whose body is a single line without `'\n'`
      fails as that line does. */
  lemma ParseOneLineFailure(line: string)
    requires |line| > 0 && '@' !in line && '\n' !in line && P.Strip(line) == line
    requires P.JumpmarkEnd(line).None? && !P.DecodeLine(line).Ok?
    ensures P.Parse("@0" + line) == Propagate(P.DecodeLine(line))
  {
    NodeZeroSegments(line);
    OneLineNode(line);
    ParseOfOne("@0" + line, "0" + line);
    PropagateNode(line);
  }

  /** `"@0" + line` is one segment, `"0" + line`. */
  lemma NodeZeroSegments(line: string)
    requires '@' !in line && P.Strip(line) == line
    ensures P.Segments("@0" + line) == ["0" + line] && ("0" + line)[1..] == line
  {
    NodeZeroStrip(line);
    NodeZeroText(line);
    OneSegment("0" + line);
  }

  lemma NodeZeroStrip(line: string)
    requires P.Strip(line) == line
    ensures P.Strip("@0" + line) == "@0" + line
  {
    StripNodeZero();
    P.StripAppend("@0", line);
  }

  lemma StripNodeZero()
    ensures P.Strip("@0") == "@0"
  {
    P.StripPlain("@0");
  }

  /** A failure passed on twice is passed on once. */
  lemma PropagateNode(line: string)
    requires !P.DecodeLine(line).Ok?
    requires P.ParsedNode(line) == Propagate(P.DecodeLine(line))
    ensures Propagate<Node, seq<Node>>(P.ParsedNode(line)) == Propagate(P.DecodeLine(line))
  {
  }

  /** Where the pieces of `"@0" + line` are. */
  lemma NodeZeroText(line: string)
    requires '@' !in line
    ensures "@0" + line == "@" + ("0" + line)
    ensures ("0" + line)[1..] == line && '@' !in "0" + line
  {
    var a := "0" + line;
    assert a[1..] == line;
    assert forall k :: 0 <= k < |a| ==> a[k] == if k == 0 then '0' else line[k - 1];
  }

  /** The facts about a one-line body that `ParseOneLineFailure` needs. */
  predicate OneLineBody(line: string) {
    |line| > 0 && '@' !in line && '\n' !in line && P.Strip(line) == line && P.JumpmarkEnd(line).None?
  }

  lemma UnknownMnemonicLine()
    ensures OneLineBody("XYZ1") && "@0" + "XYZ1" == "@0XYZ1"
  {
    P.StripPlain("XYZ1");
    NoColonNoJumpmark("XYZ1");
  }

  lemma UnknownMnemonicDecode()
    ensures P.DecodeLine("XYZ1") == Err(TokenError)
  {
  }

  /** `XYZ1` starts no token: a token error. */
  lemma UnknownMnemonic()
    ensures P.Parse("@0XYZ1") == Err(TokenError)
  {
    UnknownMnemonicLine();
    UnknownMnemonicDecode();
    ParseOneLineFailure("XYZ1");
  }

  lemma MissingOperandLine()
    ensures OneLineBody("ADD") && "@0" + "ADD" == "@0ADD"
  {
    P.StripPlain("ADD");
    NoColonNoJumpmark("ADD");
  }

  lemma MissingOperandDecode()
    ensures P.DecodeLine("ADD") == Err(SyntaxError)
  {
    P.DecodeLineFailures("ADD");
  }

  /** `ADD` with no number after it: a syntax error. */
  lemma MissingOperand()
    ensures P.Parse("@0ADD") == Err(SyntaxError)
  {
    MissingOperandLine();
    MissingOperandDecode();
    ParseOneLineFailure("ADD");
  }

  lemma TruncatedOperatorLine()
    ensures OneLineBody("AD") && "@0" + "AD" == "@0AD"
  {
    P.StripPlain("AD");
    NoColonNoJumpmark("AD");
  }

  lemma TruncatedOperatorDecode()
    ensures P.DecodeLine("AD") == Panic
  {
  }

  /** `AD` at the end of a line makes `want` read past the end: a panic. */
  lemma TruncatedOperator()
    ensures P.Parse("@0AD") == Panic
  {
    TruncatedOperatorLine();
    TruncatedOperatorDecode();
    ParseOneLineFailure("AD");
  }
}
