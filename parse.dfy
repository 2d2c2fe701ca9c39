/** The parser: program text to a list of nodes. The text is normalised,
    cut into node bodies at each `@`, each body is cut into lines with their
    jumpmark labels removed, and each line is decoded by a cursor-based lexer
    into one instruction. */
module Parse {
  import opened RustStd
  import opened Errors
  import T = Tis100

  datatype Operator = Add | Sub

  datatype Token = Number(value: U32) | NodeId(id: U32) | Eof | Op(op: Operator)

  /** A token and the position just after it. */
  type Lexed = (Token, nat)

  // ---------------------------------------------------------------------
  // Normalisation

  /** Spaces, tabs and commas carry no meaning and are removed first. */
  predicate Insignificant(c: char) {
    c == ' ' || c == '\t' || c == ','
  }

  /** The text with every insignificant character removed. */
  function Strip(text: string): (body: string)
    ensures forall i :: 0 <= i < |body| ==> !Insignificant(body[i])
    ensures |body| <= |text|
    decreases |text|
  {
    if text == [] then []
    else
      var c := text[|text| - 1];
      Strip(text[..|text| - 1]) + (if Insignificant(c) then [] else [c])
  }

  /** Stripping works character by character, so it keeps the order. */
  lemma {:induction false} StripAppend(a: string, b: string)
    ensures Strip(a + b) == Strip(a) + Strip(b)
    decreases |b|
  {
    if b == [] {
      assert a + b == a;
    } else {
      var init := b[..|b| - 1];
      assert (a + b)[..|a + b| - 1] == a + init;
      assert (a + b)[|a + b| - 1] == b[|b| - 1];
      StripAppend(a, init);
    }
  }

  /** Every other character, `'\n'` included, survives as often as it occurs. */
  lemma {:induction false} StripKeepsOthers(text: string, c: char)
    requires !Insignificant(c)
    ensures multiset(Strip(text))[c] == multiset(text)[c]
    decreases |text|
  {
    if text != [] {
      var init, last := text[..|text| - 1], text[|text| - 1];
      var kept := if Insignificant(last) then [] else [last];
      LastSplit(text);
      StripKeepsOthers(init, c);
      assert multiset(text)[c] == multiset(init)[c] + multiset([last])[c];
      assert multiset(Strip(text))[c] == multiset(Strip(init))[c] + multiset(kept)[c] by {
        assert Strip(text) == Strip(init) + kept;
      }
      assert multiset(kept)[c] == multiset([last])[c];
    }
  }

  /** A text without insignificant characters is left as it is. */
  lemma {:induction false} StripPlain(text: string)
    requires forall i :: 0 <= i < |text| ==> !Insignificant(text[i])
    ensures Strip(text) == text
    decreases |text|
  {
    if text != [] {
      StripPlain(text[..|text| - 1]);
    }
  }

  lemma StripIdempotent(text: string)
    ensures Strip(Strip(text)) == Strip(text)
  {
    StripPlain(Strip(text));
  }

  // ---------------------------------------------------------------------
  // Node bodies

  /** `.filter(|text| text.len() > 0)`. */
  function NonEmpty(pieces: seq<string>): (kept: seq<string>)
    ensures forall i :: 0 <= i < |kept| ==> |kept[i]| > 0
    ensures |kept| <= |pieces|
    decreases |pieces|
  {
    if pieces == [] then []
    else
      var last := pieces[|pieces| - 1];
      NonEmpty(pieces[..|pieces| - 1]) + (if |last| > 0 then [last] else [])
  }

  /** The filter keeps exactly the non-empty pieces. */
  lemma {:induction false} NonEmptyMembers(pieces: seq<string>, x: string)
    ensures x in NonEmpty(pieces) <==> x in pieces && |x| > 0
    decreases |pieces|
  {
    if pieces != [] {
      var init := pieces[..|pieces| - 1];
      NonEmptyMembers(init, x);
      assert pieces == init + [pieces[|pieces| - 1]];
    }
  }

  /** The filter keeps the order of the pieces. */
  lemma {:induction false} NonEmptyAppend(a: seq<string>, b: seq<string>)
    ensures NonEmpty(a + b) == NonEmpty(a) + NonEmpty(b)
    decreases |b|
  {
    if b == [] {
      assert a + b == a;
    } else {
      var init := b[..|b| - 1];
      assert (a + b)[..|a + b| - 1] == a + init;
      NonEmptyAppend(a, init);
    }
  }

  lemma {:induction false} NonEmptyAll(pieces: seq<string>)
    requires forall i :: 0 <= i < |pieces| ==> |pieces[i]| > 0
    ensures NonEmpty(pieces) == pieces
    decreases |pieces|
  {
    if pieces != [] {
      NonEmptyAll(pieces[..|pieces| - 1]);
    }
  }

  /** The non-empty `@`-separated segments of the normalised text. */
  function Segments(text: string): (segments: seq<string>)
    ensures forall i :: 0 <= i < |segments| ==> |segments[i]| > 0
  {
    NonEmpty(Split(Strip(text), '@'))
  }

  /** The segments, each without its first character (the node id, which is
      discarded). */
  function NodeBodies(segments: seq<string>): (bodies: seq<string>)
    requires forall i :: 0 <= i < |segments| ==> |segments[i]| > 0
    ensures |bodies| == |segments|
  {
    seq(|segments|, i requires 0 <= i < |segments| => segments[i][1..])
  }

  /** `parse`: one node per non-empty segment after `@`, in order, or the
      first segment's failure. */
  function Parse(text: string): Outcome<seq<T.Node>> {
    CollectAll(NodeBodies(Segments(text)), ParsedNode)
  }

  /** Parsing succeeds exactly when every segment parses, and then the i-th
      node is the i-th segment, cut after its first character, parsed as a
      node. */
  lemma ParseOk(text: string)
    ensures var segments := Segments(text);
      && (Parse(text).Ok? <==> forall i :: 0 <= i < |segments| ==> ParsedNode(segments[i][1..]).Ok?)
      && (Parse(text).Ok? ==>
            && |Parse(text).value| == |segments|
            && forall i :: 0 <= i < |segments| ==> Parse(text).value[i] == ParsedNode(segments[i][1..]).value)
  {
    var segments := Segments(text);
    var bodies := NodeBodies(segments);
    assert forall i :: 0 <= i < |bodies| ==> bodies[i] == segments[i][1..];
    CollectAllOk(bodies, ParsedNode);
  }

  /** A failed parse fails as its first failing segment does. */
  lemma ParseFirstFailure(text: string)
    requires !Parse(text).Ok?
    ensures var segments := Segments(text);
      exists i ::
        && 0 <= i < |segments|
        && (forall j :: 0 <= j < i ==> ParsedNode(segments[j][1..]).Ok?)
        && !ParsedNode(segments[i][1..]).Ok?
        && Parse(text) == Propagate(ParsedNode(segments[i][1..]))
  {
    var segments := Segments(text);
    var bodies := NodeBodies(segments);
    CollectAllFirstFailure(bodies, ParsedNode);
    var i :| && 0 <= i < |bodies|
             && (forall j :: 0 <= j < i ==> ParsedNode(bodies[j]).Ok?)
             && !ParsedNode(bodies[i]).Ok?
             && Parse(text) == Propagate(ParsedNode(bodies[i]));
    assert bodies[i] == segments[i][1..];
    assert forall j :: 0 <= j < i ==> bodies[j] == segments[j][1..];
  }

  // ---------------------------------------------------------------------
  // Lines and jumpmarks

  /** The word characters of the regex class `\w`, restricted to ASCII. */
  predicate IsWordChar(c: char) {
    ('a' <= c <= 'z') || ('A' <= c <= 'Z') || ('0' <= c <= '9') || c == '_'
  }

  /** A `':'` at `j` right after a word character. */
  predicate IsLabelColon(line: string, j: int) {
    1 <= j < |line| && line[j] == ':' && IsWordChar(line[j - 1])
  }

  /** The first label colon at or after `from`. */
  function LabelColonFrom(line: string, from: nat): (r: Option<nat>)
    requires from <= |line|
    ensures r.Some? ==> from <= r.value < |line| && IsLabelColon(line, r.value)
    ensures r.Some? ==> forall j :: from <= j < r.value ==> !IsLabelColon(line, j)
    ensures r.None? ==> forall j :: from <= j < |line| ==> !IsLabelColon(line, j)
    decreases |line| - from
  {
    if from == |line| then None
    else if IsLabelColon(line, from) then Some(from)
    else LabelColonFrom(line, from + 1)
  }

  /** The end of the leftmost match of the regex `\w+:` in `line`. Every match
      ends just after a label colon, and the leftmost one after the first
      label colon: `':'` is no word character, so the word run before a later
      colon starts after an earlier colon. */
  function JumpmarkEnd(line: string): (r: Option<nat>)
    ensures r.Some? ==> 2 <= r.value <= |line| && IsLabelColon(line, r.value - 1)
    ensures r.Some? ==> forall j :: 0 <= j < r.value - 1 ==> !IsLabelColon(line, j)
    ensures r.None? ==> forall j :: 0 <= j < |line| ==> !IsLabelColon(line, j)
  {
    match LabelColonFrom(line, 0)
    case Some(j) => Some(j + 1)
    case None => None
  }

  /** The jumpmark key of a line: the line up to and including the first
      label colon. */
  function Label(line: string): Option<string> {
    match JumpmarkEnd(line)
    case Some(end) => Some(line[..end])
    case None => None
  }

  /** What a line passes on to decoding: the whole line when it has no
      jumpmark; otherwise nothing when the colon ends the line, and else the
      line from the second character after the colon. */
  function Remainder(line: string): seq<string> {
    match JumpmarkEnd(line)
    case Some(end) => if end < |line| then [line[end + 1..]] else []
    case None => [line]
  }

  /** The lines `parse_node` decodes, from its non-empty lines. */
  function Kept(lines: seq<string>): seq<string>
    decreases |lines|
  {
    if lines == [] then []
    else Kept(lines[..|lines| - 1]) + Remainder(lines[|lines| - 1])
  }

  /** The jumpmark table of `parse_node`: each key maps to the index, among
      the non-empty lines, of the line that declared it, and a later line
      overwrites an earlier one. */
  function Jumpmarks(lines: seq<string>): map<string, nat>
    decreases |lines|
  {
    if lines == [] then map[]
    else
      var table := Jumpmarks(lines[..|lines| - 1]);
      match Label(lines[|lines| - 1])
      case Some(key) => table[key := |lines| - 1]
      case None => table
  }

  /** A key is recorded exactly when some line declares it. */
  lemma {:induction false} JumpmarksKeys(lines: seq<string>, key: string)
    ensures key in Jumpmarks(lines) <==> exists i :: 0 <= i < |lines| && Label(lines[i]) == Some(key)
    decreases |lines|
  {
    if lines != [] {
      var n := |lines| - 1;
      var init := lines[..n];
      JumpmarksKeys(init, key);
      if key in Jumpmarks(init) {
        var i :| 0 <= i < |init| && Label(init[i]) == Some(key);
        assert lines[i] == init[i];
      }
      if exists i :: 0 <= i < |lines| && Label(lines[i]) == Some(key) {
        var i :| 0 <= i < |lines| && Label(lines[i]) == Some(key);
        if i < n {
          assert init[i] == lines[i];
        }
      }
    }
  }

  /** The index recorded for a key is that of the last line declaring it. */
  lemma {:induction false} JumpmarksLatest(lines: seq<string>, key: string)
    requires key in Jumpmarks(lines)
    ensures Jumpmarks(lines)[key] < |lines|
    ensures Label(lines[Jumpmarks(lines)[key]]) == Some(key)
    ensures forall j :: Jumpmarks(lines)[key] < j < |lines| ==> Label(lines[j]) != Some(key)
    decreases |lines|
  {
    var n := |lines| - 1;
    var init := lines[..n];
    if Label(lines[n]) != Some(key) {
      JumpmarksLatest(init, key);
      assert lines[Jumpmarks(lines)[key]] == init[Jumpmarks(lines)[key]];
      assert forall j :: Jumpmarks(lines)[key] < j < n ==> lines[j] == init[j];
    }
  }

  /** Lines without jumpmarks are all decoded as they are and record nothing. */
  lemma {:induction false} KeptUnlabelled(lines: seq<string>)
    requires forall i :: 0 <= i < |lines| ==> JumpmarkEnd(lines[i]).None?
    ensures Kept(lines) == lines
    ensures Jumpmarks(lines) == map[]
    decreases |lines|
  {
    if lines != [] {
      var init, last := lines[..|lines| - 1], lines[|lines| - 1];
      LastSplit(lines);
      assert forall i :: 0 <= i < |init| ==> init[i] == lines[i];
      KeptUnlabelled(init);
      assert Remainder(last) == [last] && Label(last) == None;
    }
  }

  /** One more line extends the kept lines by its remainder and records its
      label, if any, at its index. */
  lemma FilterStep(lines: seq<string>, i: nat)
    requires i < |lines|
    ensures Kept(lines[..i + 1]) == Kept(lines[..i]) + Remainder(lines[i])
    ensures Jumpmarks(lines[..i + 1]) ==
      match Label(lines[i])
      case Some(key) => Jumpmarks(lines[..i])[key := i]
      case None => Jumpmarks(lines[..i])
  {
    assert lines[..i + 1][..i] == lines[..i];
  }

  /** The non-empty lines of a node body, numbered from 0 as `enumerate` does. */
  function NodeLines(nodeText: string): seq<string> {
    NonEmpty(Lines(nodeText))
  }

  /** What `parse_node` returns for a node body. */
  function ParsedNode(nodeText: string): Outcome<T.Node> {
    match CollectAll(Kept(NodeLines(nodeText)), DecodeLine)
    case Ok(instructions) => Ok(T.Node(T.NewNodeState(), instructions))
    case Err(k) => Err(k)
    case Panic => Panic
  }

  /** `parse_node`: fills the jumpmark table while it filters the lines, then
      decodes the kept lines into the node's instructions, stopping at the
      first failure. The source drops the table when it returns; here it is
      returned so that its contents can be stated. */
  method ParseNode(nodeText: string) returns (r: Outcome<T.Node>, jumpmarks: map<string, nat>)
    ensures r == ParsedNode(nodeText)
    ensures jumpmarks == Jumpmarks(NodeLines(nodeText))
  {
    var node := T.NewNode();
    var lines := NodeLines(nodeText);
    var text;
    text, jumpmarks := FilterLines(lines);
    var decoded := DecodeLines(text);
    match decoded
    case Ok(instructions) =>
      node := node.(instructions := instructions);
      r := Ok(node);
    case Err(k) =>
      r := Err(k);
    case Panic =>
      r := Panic;
  }

  /** The first loop of `parse_node`: records the jumpmark of each line under
      its index and keeps what follows it for decoding. */
  method FilterLines(lines: seq<string>) returns (text: seq<string>, jumpmarks: map<string, nat>)
    ensures text == Kept(lines)
    ensures jumpmarks == Jumpmarks(lines)
  {
    jumpmarks := map[];
    text := [];
    for lineIndex := 0 to |lines|
      invariant text == Kept(lines[..lineIndex])
      invariant jumpmarks == Jumpmarks(lines[..lineIndex])
    {
      var line := lines[lineIndex];
      FilterStep(lines, lineIndex);
      match JumpmarkEnd(line)
      case Some(end) =>
        jumpmarks := jumpmarks[line[..end] := lineIndex];
        if end < |line| {
          text := text + [line[end + 1..]];
        }
      case None =>
        text := text + [line];
    }
    assert lines[..|lines|] == lines;
  }

  /** The second loop of `parse_node`: decodes the kept lines in order and
      returns at the first failure. */
  method DecodeLines(text: seq<string>) returns (r: Outcome<seq<T.Instruction>>)
    ensures r == CollectAll(text, DecodeLine)
  {
    var instructions: seq<T.Instruction> := [];
    for i := 0 to |text|
      invariant CollectAll(text[..i], DecodeLine) == Ok(instructions)
    {
      var decoded := DecodeLine(text[i]);
      if !decoded.Ok? {
        assert text[..i + 1][..i] == text[..i];
        assert CollectAll(text[..i + 1], DecodeLine) == Propagate(decoded);
        CollectAllFailurePersists(text, DecodeLine, i + 1);
        return Propagate(decoded);
      }
      CollectAllSnoc(text, DecodeLine, i);
      instructions := instructions + [decoded.value];
    }
    assert text[..|text|] == text;
    r := Ok(instructions);
  }

  // ---------------------------------------------------------------------
  // The lexer

  /** `want`: checks for a three-letter operator whose first letter has been
      seen at `position`. With exactly two characters left, both the test and
      the error message read one past the end, which panics. */
  function Want(text: string, position: nat, a: char, b: char, op: Operator): Outcome<Lexed>
    requires position < |text|
  {
    if position < |text| - 1 then
      if position + 2 < |text| then
        if text[position + 1] == a && text[position + 2] == b then Ok((Op(op), position + 3))
        else Err(TokenError)
      else Panic
    else Err(TokenError)
  }

  /** `next_token`: the token at `position` and the position after it. */
  function TokenAt(text: string, position: nat): (r: Outcome<Lexed>)
    ensures position >= |text| ==> r == Ok((Eof, position))
    ensures r.Ok? ==> (r.value.0 == Eof <==> position >= |text|)
    ensures r.Ok? && r.value.0 != Eof ==> position < r.value.1 <= |text|
  {
    if position + 1 > |text| then Ok((Eof, position))
    else
      var c := text[position];
      if c == '@' then
        var end := DigitRunEnd(text, position + 1);
        if end == position + 1 then Err(TokenError)
        else
          match ParseU32(text[position + 1..end])
          case Some(id) => Ok((NodeId(id), end))
          case None => Panic
      else if c == 'A' then Want(text, position, 'D', 'D', Add)
      else if c == 'S' then Want(text, position, 'U', 'B', Sub)
      else if IsDigit(c) then
        var end := DigitRunEnd(text, position + 1);
        match ParseU32(text[position..end])
        case Some(n) => Ok((Number(n), end))
        case None => Panic
      else Err(TokenError)
  }

  /** `next_token` with its digit scans as loops. */
  method NextToken(text: string, position: nat) returns (r: Outcome<Lexed>)
    ensures r == TokenAt(text, position)
  {
    if position + 1 > |text| {
      return Ok((Eof, position));
    }
    var currentChar := text[position];
    if currentChar == '@' {
      var rightBound := position + 1;
      while rightBound < |text| && IsDigit(text[rightBound])
        invariant position + 1 <= rightBound <= |text|
        invariant DigitRunEnd(text, rightBound) == DigitRunEnd(text, position + 1)
        invariant forall i :: position + 1 <= i < rightBound ==> IsDigit(text[i])
        decreases |text| - rightBound
      {
        rightBound := rightBound + 1;
      }
      if rightBound == position + 1 {
        return Err(TokenError);
      }
      DigitSlice(text, position + 1, rightBound);
      match ParseU32(text[position + 1..rightBound])
      case Some(id) => r := Ok((NodeId(id), rightBound));
      case None => r := Panic;
    } else if currentChar == 'A' {
      r := Want(text, position, 'D', 'D', Add);
    } else if currentChar == 'S' {
      r := Want(text, position, 'U', 'B', Sub);
    } else if IsDigit(currentChar) {
      var rightBound := position + 1;
      while rightBound < |text| && IsDigit(text[rightBound])
        invariant position + 1 <= rightBound <= |text|
        invariant DigitRunEnd(text, rightBound) == DigitRunEnd(text, position + 1)
        invariant forall i :: position <= i < rightBound ==> IsDigit(text[i])
        decreases |text| - rightBound
      {
        rightBound := rightBound + 1;
      }
      DigitSlice(text, position, rightBound);
      match ParseU32(text[position..rightBound])
      case Some(n) => r := Ok((Number(n), rightBound));
      case None => r := Panic;
    } else {
      r := Err(TokenError);
    }
  }

  /** On a digit, the lexer takes the whole maximal run of digits: it returns
      the run's value and the position after it, or panics when the value
      does not fit in `u32`. */
  lemma TokenAtNumber(text: string, position: nat, end: nat)
    requires position < end <= |text|
    requires forall i :: position <= i < end ==> IsDigit(text[i])
    requires end == |text| || !IsDigit(text[end])
    ensures AllDigits(text[position..end])
    ensures TokenAt(text, position) ==
      if DecimalValue(text[position..end]) <= MaxU32
      then Ok((Number(DecimalValue(text[position..end])), end))
      else Panic
  {
    DigitRunEndUnique(text, position + 1, end);
  }

  /** The lexer yields an operator exactly on `ADD` and `SUB`, and then moves
      three characters on. */
  lemma TokenAtOperator(text: string, position: nat)
    ensures (TokenAt(text, position).Ok? && TokenAt(text, position).value.0.Op?) <==>
      position + 3 <= |text| &&
      (text[position..position + 3] == "ADD" || text[position..position + 3] == "SUB")
    ensures TokenAt(text, position).Ok? && TokenAt(text, position).value.0.Op? ==>
      && TokenAt(text, position).value.1 == position + 3
      && (TokenAt(text, position).value.0.op == Add <==> text[position..position + 3] == "ADD")
  {
    if position + 3 <= |text| {
      var w := text[position..position + 3];
      assert w[0] == text[position] && w[1] == text[position + 1] && w[2] == text[position + 2];
      assert w == "ADD" <==> text[position] == 'A' && text[position + 1] == 'D' && text[position + 2] == 'D';
      assert w == "SUB" <==> text[position] == 'S' && text[position + 1] == 'U' && text[position + 2] == 'B';
    }
  }

  /** When the lexer fails with an error and when it panics. Its errors are
      all token errors: an `@` without digits, an `A` or `S` as the last
      character or followed by two characters that do not complete the
      operator, and any other character that starts no token. It panics on an
      `A` or `S` with exactly one character after it, and on a number or node
      id too large for `u32`. */
  lemma TokenAtFailures(text: string, position: nat)
    requires position < |text|
    ensures TokenAt(text, position).Err? ==> TokenAt(text, position).kind == TokenError
    ensures TokenAt(text, position).Err? <==>
      || (text[position] == '@' && (position + 1 == |text| || !IsDigit(text[position + 1])))
      || ((text[position] == 'A' || text[position] == 'S') && position + 1 == |text|)
      || (text[position] == 'A' && position + 3 <= |text| && text[position..position + 3] != "ADD")
      || (text[position] == 'S' && position + 3 <= |text| && text[position..position + 3] != "SUB")
      || !(text[position] == '@' || text[position] == 'A' || text[position] == 'S' || IsDigit(text[position]))
    ensures TokenAt(text, position).Panic? <==>
      || ((text[position] == 'A' || text[position] == 'S') && position + 2 == |text|)
      || (IsDigit(text[position]) && DecimalValue(text[position..DigitRunEnd(text, position)]) > MaxU32)
      || (text[position] == '@' && DigitRunEnd(text, position + 1) > position + 1 &&
          DecimalValue(text[position + 1..DigitRunEnd(text, position + 1)]) > MaxU32)
  {
    TokenAtOperator(text, position);
  }

  // ---------------------------------------------------------------------
  // Decoding one line

  /** The per-line step of `parse_node`: an operator token, then a number
      token; whatever follows the number is not read. */
  function DecodeLine(line: string): Outcome<T.Instruction> {
    match TokenAt(line, 0)
    case Ok((token, position)) =>
      if !token.Op? then Err(SyntaxError)
      else
        (match TokenAt(line, position)
         case Ok((operand, _)) =>
           if !operand.Number? then Err(SyntaxError)
           else if token.op == Add then Ok(T.Add(operand.value))
           else Ok(T.Sub(operand.value))
         case Err(k) => Err(k)
         case Panic => Panic)
    case Err(k) => Err(k)
    case Panic => Panic
  }

  /** A line decodes exactly when it starts with `ADD` or `SUB` followed by a
      run of digits whose value fits in `u32`; it then decodes to `Add` or
      `Sub` of that value, and so never to `Nop`. */
  lemma DecodeLineAccepts(line: string)
    ensures DecodeLine(line).Ok? <==>
      && |line| >= 4
      && (line[..3] == "ADD" || line[..3] == "SUB")
      && IsDigit(line[3])
      && DecimalValue(line[3..DigitRunEnd(line, 3)]) <= MaxU32
    ensures DecodeLine(line).Ok? ==>
      var n := DecimalValue(line[3..DigitRunEnd(line, 3)]);
      DecodeLine(line).value == if line[..3] == "ADD" then T.Add(n) else T.Sub(n)
    ensures DecodeLine(line) != Ok(T.Nop)
  {
    TokenAtOperator(line, 0);
    if |line| >= 3 {
      assert line[0..3] == line[..3];
    }
    if TokenAt(line, 0).Ok? && TokenAt(line, 0).value.0.Op? {
      var op := TokenAt(line, 0).value.0.op;
      DecodeAfterOperator(line, op);
      if |line| >= 4 && IsDigit(line[3]) {
        TokenAtNumber(line, 3, DigitRunEnd(line, 3));
      } else {
        NumberStartsWithDigit(line, 3);
      }
    } else {
      DecodeNeedsOperator(line);
    }
  }

  /** A number token starts at a digit. */
  lemma NumberStartsWithDigit(text: string, position: nat)
    ensures TokenAt(text, position).Ok? && TokenAt(text, position).value.0.Number? ==>
      position < |text| && IsDigit(text[position])
  {
  }

  /** After an operator, the line decodes exactly when a number follows. */
  lemma DecodeAfterOperator(line: string, op: Operator)
    requires TokenAt(line, 0) == Ok((Op(op), 3))
    ensures var second := TokenAt(line, 3);
      && (DecodeLine(line).Ok? <==> second.Ok? && second.value.0.Number?)
      && (DecodeLine(line).Ok? ==>
            DecodeLine(line).value ==
              if op == Add then T.Add(second.value.0.value) else T.Sub(second.value.0.value))
  {
  }

  lemma DecodeNeedsOperator(line: string)
    requires !(TokenAt(line, 0).Ok? && TokenAt(line, 0).value.0.Op?)
    ensures !DecodeLine(line).Ok?
  {
  }

  /** How a line fails: a first token that is no operator, or a second token
      that is no number (the end of the line included), is a syntax error,
      and a lexer failure is passed on unchanged. */
  lemma DecodeLineFailures(line: string)
    ensures TokenAt(line, 0).Ok? && !TokenAt(line, 0).value.0.Op? ==> DecodeLine(line) == Err(SyntaxError)
    ensures !TokenAt(line, 0).Ok? ==> DecodeLine(line) == Propagate(TokenAt(line, 0))
    ensures TokenAt(line, 0).Ok? && TokenAt(line, 0).value.0.Op? ==>
      var second := TokenAt(line, TokenAt(line, 0).value.1);
      && (second.Ok? && !second.value.0.Number? ==> DecodeLine(line) == Err(SyntaxError))
      && (!second.Ok? ==> DecodeLine(line) == Propagate(second))
    ensures line == "ADD" || line == "SUB" ==> DecodeLine(line) == Err(SyntaxError)
  {
    if line == "ADD" || line == "SUB" {
      TokenAtOperator(line, 0);
      assert line[0..3] == line;
    }
  }

  /** Whatever follows the number is ignored, as long as it does not extend
      the number. */
  lemma DecodeLineIgnoresRest(line: string, rest: string)
    requires DecodeLine(line).Ok?
    requires rest == [] || !IsDigit(rest[0])
    ensures DecodeLine(line + rest) == DecodeLine(line)
  {
    DecodeLineAccepts(line);
    var full := line + rest;
    var end := DigitRunEnd(line, 3);
    assert forall i :: 0 <= i < |line| ==> full[i] == line[i];
    assert full[..3] == line[..3];
    assert end == |line| ==> end == |full| || full[end] == rest[0];
    DigitRunEndUnique(full, 3, end);
    assert full[3..end] == line[3..end];
    DecodeLineAccepts(full);
  }
}
