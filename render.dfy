/** Program text for a list of node programs, in the syntax the parser reads,
    and the round trip back through the parser. */
module Render {
  import opened RustStd
  import opened Errors
  import opened Tis100
  import P = Parse

  /** The characters rendered instructions are made of. */
  predicate TextChar(c: char) {
    IsDigit(c) || 'A' <= c <= 'Z'
  }

  /** One instruction as a line: the mnemonic followed by the operand in
      decimal. `Nop` has no syntax; it is rendered as nothing. */
  function InstructionText(i: Instruction): (line: string)
    ensures forall k :: 0 <= k < |line| ==> TextChar(line[k])
    ensures i != Nop ==> |line| >= 4
  {
    match i
    case Add(n) => "ADD" + Decimal(n)
    case Sub(n) => "SUB" + Decimal(n)
    case Nop => ""
  }

  /** The lines of a node program. */
  function InstructionLines(program: seq<Instruction>): (lines: seq<string>)
    ensures |lines| == |program|
  {
    seq(|program|, i requires 0 <= i < |program| => InstructionText(program[i]))
  }

  /** A node body: one instruction per line, each line ended by `'\n'`. */
  function NodeText(program: seq<Instruction>): string {
    Unlines(InstructionLines(program))
  }

  /** Every node behind an `@` and a one-character id, which the parser
      discards. */
  function ProgramText(programs: seq<seq<Instruction>>): string {
    Join([""] + NodeSegments(programs), '@')
  }

  /** The `@`-separated segments of `ProgramText`, the empty one before the
      first `@` left out. */
  function NodeSegments(programs: seq<seq<Instruction>>): (segments: seq<string>)
    ensures |segments| == |programs|
  {
    seq(|programs|, i requires 0 <= i < |programs| => "0" + NodeText(programs[i]))
  }

  predicate NopFree(program: seq<Instruction>) {
    forall i :: 0 <= i < |program| ==> program[i] != Nop
  }

  /** A rendered instruction decodes to itself. */
  lemma DecodeInstructionText(i: Instruction)
    requires i != Nop
    ensures P.DecodeLine(InstructionText(i)) == Ok(i)
  {
    var line := InstructionText(i);
    var digits := Decimal(i.amount);
    assert line == (if i.Add? then "ADD" else "SUB") + digits;
    assert line[3..] == digits;
    assert line[..3] == (if i.Add? then "ADD" else "SUB");
    assert forall k :: 3 <= k < |line| ==> line[k] == digits[k - 3];
    DigitRunEndUnique(line, 3, |line|);
    assert line[3..DigitRunEnd(line, 3)] == digits;
    DecimalRoundTrip(i.amount);
    P.DecodeLineAccepts(line);
  }

  /** The `'\n'`s of `Unlines` are the only ones in it, given lines without. */
  lemma {:induction false} UnlinesAvoids(lines: seq<string>, c: char)
    requires c != '\n'
    requires forall k :: 0 <= k < |lines| ==> c !in lines[k]
    ensures c !in Unlines(lines)
    decreases |lines|
  {
    if lines != [] {
      UnlinesAvoids(lines[1..], c);
      assert Unlines(lines) == lines[0] + "\n" + Unlines(lines[1..]);
    }
  }

  lemma {:induction false} StripUnlines(lines: seq<string>)
    requires forall k :: 0 <= k < |lines| ==> P.Strip(lines[k]) == lines[k]
    ensures P.Strip(Unlines(lines)) == Unlines(lines)
    decreases |lines|
  {
    if lines != [] {
      StripUnlines(lines[1..]);
      P.StripAppend(lines[0] + "\n", Unlines(lines[1..]));
      P.StripAppend(lines[0], "\n");
      P.StripPlain("\n");
    }
  }

  lemma {:induction false} StripJoin(pieces: seq<string>, d: char)
    requires !P.Insignificant(d)
    requires forall k :: 0 <= k < |pieces| ==> P.Strip(pieces[k]) == pieces[k]
    ensures P.Strip(Join(pieces, d)) == Join(pieces, d)
    decreases |pieces|
  {
    if |pieces| > 1 {
      StripJoin(pieces[1..], d);
      P.StripAppend(pieces[0] + [d], Join(pieces[1..], d));
      P.StripAppend(pieces[0], [d]);
      P.StripPlain([d]);
    }
  }

  /** The facts about the lines of a rendered node that parsing relies on. */
  lemma InstructionLinesPlain(program: seq<Instruction>)
    requires NopFree(program)
    ensures forall k :: 0 <= k < |program| ==>
      var line := InstructionLines(program)[k];
      && |line| > 0
      && PlainLine(line)
      && P.JumpmarkEnd(line).None?
      && P.Strip(line) == line
      && '@' !in line
  {
    var lines := InstructionLines(program);
    forall k | 0 <= k < |program|
      ensures var line := lines[k];
        && |line| > 0 && PlainLine(line) && P.JumpmarkEnd(line).None?
        && P.Strip(line) == line && '@' !in line
    {
      var line := lines[k];
      assert line == InstructionText(program[k]);
      P.StripPlain(line);
    }
  }

  /** A rendered node body parses back to a fresh node running that program. */
  lemma NodeTextRoundTrip(program: seq<Instruction>)
    requires NopFree(program)
    ensures P.ParsedNode(NodeText(program)) == Ok(Node(NewNodeState(), program))
  {
    var lines := InstructionLines(program);
    InstructionLinesPlain(program);
    LinesUnlines(lines);
    NonEmptyAllLines(lines);
    P.KeptUnlabelled(lines);
    assert P.Kept(P.NodeLines(NodeText(program))) == lines;
    CollectAllOk(lines, P.DecodeLine);
    forall k | 0 <= k < |lines|
      ensures P.DecodeLine(lines[k]) == Ok(program[k])
    {
      DecodeInstructionText(program[k]);
    }
    assert CollectAll(lines, P.DecodeLine).value == program;
  }

  lemma NonEmptyAllLines(lines: seq<string>)
    requires forall k :: 0 <= k < |lines| ==> |lines[k]| > 0
    ensures P.NonEmpty(lines) == lines
  {
    P.NonEmptyAll(lines);
  }

  /** The facts about a segment of a rendered program that parsing relies
      on. */
  lemma SegmentPlain(programs: seq<seq<Instruction>>, i: nat)
    requires i < |programs| && NopFree(programs[i])
    ensures var segment := NodeSegments(programs)[i];
      && |segment| > 0
      && segment[1..] == NodeText(programs[i])
      && P.Strip(segment) == segment
      && '@' !in segment
  {
    var lines := InstructionLines(programs[i]);
    InstructionLinesPlain(programs[i]);
    StripUnlines(lines);
    UnlinesAvoids(lines, '@');
    var segment := NodeSegments(programs)[i];
    assert segment == "0" + Unlines(lines);
    P.StripAppend("0", Unlines(lines));
    P.StripPlain("0");
  }

  /** The node bodies the parser cuts out of a rendered program are the
      rendered node bodies. */
  lemma ProgramBodies(programs: seq<seq<Instruction>>)
    requires forall i :: 0 <= i < |programs| ==> NopFree(programs[i])
    ensures P.NodeBodies(P.Segments(ProgramText(programs))) ==
      seq(|programs|, i requires 0 <= i < |programs| => NodeText(programs[i]))
  {
    ProgramPieces(programs);
    SegmentBodies(programs);
  }

  /** Normalising and splitting a rendered program gives back its pieces. */
  lemma ProgramPieces(programs: seq<seq<Instruction>>)
    requires forall i :: 0 <= i < |programs| ==> NopFree(programs[i])
    ensures Split(P.Strip(ProgramText(programs)), '@') == [""] + NodeSegments(programs)
  {
    var pieces := [""] + NodeSegments(programs);
    PiecesPlain(programs);
    StripJoin(pieces, '@');
    SplitJoin(pieces, '@');
  }

  lemma SegmentBodies(programs: seq<seq<Instruction>>)
    requires forall i :: 0 <= i < |programs| ==> NopFree(programs[i])
    requires Split(P.Strip(ProgramText(programs)), '@') == [""] + NodeSegments(programs)
    ensures P.NodeBodies(P.Segments(ProgramText(programs))) ==
      seq(|programs|, i requires 0 <= i < |programs| => NodeText(programs[i]))
  {
    var segments := NodeSegments(programs);
    forall i | 0 <= i < |segments|
      ensures |segments[i]| > 0 && segments[i][1..] == NodeText(programs[i])
    {
      SegmentPlain(programs, i);
    }
    NonEmptyAfterEmpty(segments);
    assert P.Segments(ProgramText(programs)) == segments;
    var bodies := P.NodeBodies(segments);
    forall i | 0 <= i < |programs|
      ensures bodies[i] == NodeText(programs[i])
    {
      assert bodies[i] == segments[i][1..];
    }
  }

  /** The filter drops the empty piece before the first `@` and nothing else. */
  lemma NonEmptyAfterEmpty(segments: seq<string>)
    requires forall i :: 0 <= i < |segments| ==> |segments[i]| > 0
    ensures P.NonEmpty([""] + segments) == segments
  {
    P.NonEmptyAppend([""], segments);
    assert P.NonEmpty([""]) == [];
    P.NonEmptyAll(segments);
  }

  lemma PiecesPlain(programs: seq<seq<Instruction>>)
    requires forall i :: 0 <= i < |programs| ==> NopFree(programs[i])
    ensures var pieces := [""] + NodeSegments(programs);
      forall k :: 0 <= k < |pieces| ==> P.Strip(pieces[k]) == pieces[k] && '@' !in pieces[k]
  {
    var segments := NodeSegments(programs);
    var pieces := [""] + segments;
    forall k | 0 <= k < |pieces|
      ensures P.Strip(pieces[k]) == pieces[k] && '@' !in pieces[k]
    {
      if k == 0 {
        P.StripPlain("");
      } else {
        assert pieces[k] == segments[k - 1];
        SegmentPlain(programs, k - 1);
      }
    }
  }

  /** Rendering node programs and parsing the text gives back one fresh node
      per program, in order. */
  lemma ParseRoundTrip(programs: seq<seq<Instruction>>)
    requires forall i :: 0 <= i < |programs| ==> NopFree(programs[i])
    ensures P.Parse(ProgramText(programs)) ==
      Ok(seq(|programs|, i requires 0 <= i < |programs| => Node(NewNodeState(), programs[i])))
  {
    var bodies := seq(|programs|, i requires 0 <= i < |programs| => NodeText(programs[i]));
    var nodes := seq(|programs|, i requires 0 <= i < |programs| => Node(NewNodeState(), programs[i]));
    ProgramBodies(programs);
    BodiesParse(programs, bodies, nodes);
  }

  /** The rendered bodies parse to fresh nodes running their programs. */
  lemma BodiesParse(programs: seq<seq<Instruction>>, bodies: seq<string>, nodes: seq<Node>)
    requires forall i :: 0 <= i < |programs| ==> NopFree(programs[i])
    requires |bodies| == |programs| && forall i :: 0 <= i < |bodies| ==> bodies[i] == NodeText(programs[i])
    requires |nodes| == |programs| && forall i :: 0 <= i < |nodes| ==> nodes[i] == Node(NewNodeState(), programs[i])
    ensures CollectAll(bodies, P.ParsedNode) == Ok(nodes)
  {
    forall i | 0 <= i < |bodies| ensures P.ParsedNode(bodies[i]) == Ok(nodes[i]) {
      NodeTextRoundTrip(programs[i]);
    }
    CollectAllOk(bodies, P.ParsedNode);
    assert CollectAll(bodies, P.ParsedNode).value == nodes;
  }

  /** A node that `parse_node` returns has the initial registers, and none of
      its instructions is `Nop`. */
  lemma ParsedNodeFresh(body: string)
    requires P.ParsedNode(body).Ok?
    ensures P.ParsedNode(body).value.state == NewNodeState()
    ensures NopFree(P.ParsedNode(body).value.instructions)
  {
    var kept := P.Kept(P.NodeLines(body));
    CollectAllOk(kept, P.DecodeLine);
    var program := P.ParsedNode(body).value.instructions;
    forall i | 0 <= i < |program| ensures program[i] != Nop {
      P.DecodeLineAccepts(kept[i]);
    }
  }

  /** Every node `parse` returns has the initial registers and a program
      without `Nop`. */
  lemma ParsedFresh(text: string)
    requires P.Parse(text).Ok?
    ensures forall i :: 0 <= i < |P.Parse(text).value| ==>
      P.Parse(text).value[i].state == NewNodeState() && NopFree(P.Parse(text).value[i].instructions)
  {
    P.ParseOk(text);
    var segments := P.Segments(text);
    var nodes := P.Parse(text).value;
    forall i | 0 <= i < |nodes|
      ensures nodes[i].state == NewNodeState() && NopFree(nodes[i].instructions)
    {
      assert nodes[i] == P.ParsedNode(segments[i][1..]).value;
      ParsedNodeFresh(segments[i][1..]);
    }
  }

  /** Parsing, rendering the parsed programs and parsing again gives the same
      nodes: the printer loses nothing the parser reads. */
  lemma ParseRenderParse(text: string)
    requires P.Parse(text).Ok?
    ensures var nodes := P.Parse(text).value;
      P.Parse(ProgramText(seq(|nodes|, i requires 0 <= i < |nodes| => nodes[i].instructions))) == P.Parse(text)
  {
    var nodes := P.Parse(text).value;
    var programs := seq(|nodes|, i requires 0 <= i < |nodes| => nodes[i].instructions);
    ParsedFresh(text);
    ParseRoundTrip(programs);
    var rebuilt := seq(|programs|, i requires 0 <= i < |programs| => Node(NewNodeState(), programs[i]));
    forall i | 0 <= i < |nodes| ensures rebuilt[i] == nodes[i] {
    }
    assert rebuilt == nodes;
  }
}
