/** The draft addition parser: a lexer for numbers and `+`, and a parser
    for `Number '+' Number` that returns the sum. */
module Simple {
  import opened RustStd
  import opened Errors

  datatype Token = Number(value: U32) | Add | Eof

  /** A token and the position just after it. */
  type Lexed = (Token, nat)

  /** `next_token_pure`: the token at `position`. Its end test computes
      `text.len() - 1`, which underflows, and so panics, on an empty text. */
  function TokenAt(text: string, position: nat): (r: Outcome<Lexed>)
    ensures |text| == 0 ==> r == Panic
    ensures |text| > 0 && position >= |text| ==> r == Ok((Eof, position))
    ensures r.Ok? && r.value.0 == Eof ==> position >= |text| && r.value.1 == position
    ensures r.Ok? && r.value.0 != Eof ==> position < r.value.1 <= |text|
    ensures r.Err? <==> |text| > 0 && position < |text| && !IsDigit(text[position]) && text[position] != '+'
    ensures r.Err? ==> r.kind == TokenError
    ensures r.Ok? && r.value.0 == Add ==> position < |text| && text[position] == '+' && r.value.1 == position + 1
  {
    if |text| == 0 then Panic
    else if position > |text| - 1 then Ok((Eof, position))
    else if IsDigit(text[position]) then
      var end := DigitRunEnd(text, position + 1);
      match ParseU32(text[position..end])
      case Some(n) => Ok((Number(n), end))
      case None => Panic
    else if text[position] == '+' then Ok((Add, position + 1))
    else Err(TokenError)
  }

  /** `next_token_pure` with its digit scan as a loop. */
  method NextTokenPure(text: string, position: nat) returns (r: Outcome<Lexed>)
    ensures r == TokenAt(text, position)
  {
    if |text| == 0 {
      return Panic;
    }
    if position > |text| - 1 {
      return Ok((Eof, position));
    }
    var currentChar := text[position];
    if IsDigit(currentChar) {
      var rightBound := position + 1;
      while rightBound < |text| && IsDigit(text[rightBound])
        invariant position + 1 <= rightBound <= |text|
        invariant DigitRunEnd(text, rightBound) == DigitRunEnd(text, position + 1)
        invariant forall i :: position <= i < rightBound ==> IsDigit(text[i])
        decreases |text| - rightBound
      {
        rightBound := rightBound + 1;
      }
      DigitSlice(text, position, rightBound);
      match ParseU32(text[position..rightBound])
      case Some(n) => r := Ok((Number(n), rightBound));
      case None => r := Panic;
    } else if currentChar == '+' {
      r := Ok((Add, position + 1));
    } else {
      r := Err(TokenError);
    }
  }

  /** On a digit, the lexer takes the maximal run of digits. */
  lemma TokenAtNumber(text: string, position: nat, end: nat)
    requires position < end <= |text|
    requires forall i :: position <= i < end ==> IsDigit(text[i])
    requires end == |text| || !IsDigit(text[end])
    ensures AllDigits(text[position..end])
    ensures TokenAt(text, position) ==
      if DecimalValue(text[position..end]) <= MaxU32
      then Ok((Number(DecimalValue(text[position..end])), end))
      else Panic
  {
    DigitRunEndUnique(text, position + 1, end);
  }

  /** What `expr_pure` returns: a number, `+` and a number give their sum,
      computed with the `u32` addition that panics on overflow; the input
      after the second number is not read. */
  function Sum(text: string, position: nat): Outcome<nat> {
    match TokenAt(text, position)
    case Ok((first, afterFirst)) =>
      if first.Number? then SumAfterLeft(text, first.value, afterFirst) else Err(SyntaxError)
    case Err(k) => Err(k)
    case Panic => Panic
  }

  /** The rest of `expr_pure` once the left operand has been read. */
  function SumAfterLeft(text: string, left: U32, position: nat): Outcome<nat> {
    match TokenAt(text, position)
    case Ok((plus, afterPlus)) =>
      if plus.Add? then SumAfterPlus(text, left, afterPlus) else Err(SyntaxError)
    case Err(k) => Err(k)
    case Panic => Panic
  }

  /** The rest of `expr_pure` once the `+` has been read. */
  function SumAfterPlus(text: string, left: U32, position: nat): Outcome<nat> {
    match TokenAt(text, position)
    case Ok((second, _)) =>
      if !second.Number? then Err(SyntaxError)
      else if left + second.value > MaxU32 then Panic
      else Ok(left + second.value)
    case Err(k) => Err(k)
    case Panic => Panic
  }

  /** `expr_pure`: three token reads that thread the position along. */
  method ExprPure(text: string, position: nat) returns (r: Outcome<nat>)
    ensures r == Sum(text, position)
  {
    var pos := position;
    var left: U32;
    var right: U32;

    var first := NextTokenPure(text, pos);
    if !first.Ok? {
      return Propagate(first);
    }
    if !first.value.0.Number? {
      return Err(SyntaxError);
    }
    left, pos := first.value.0.value, first.value.1;

    var plus := NextTokenPure(text, pos);
    if !plus.Ok? {
      return Propagate(plus);
    }
    if !plus.value.0.Add? {
      return Err(SyntaxError);
    }
    pos := plus.value.1;

    var second := NextTokenPure(text, pos);
    if !second.Ok? {
      return Propagate(second);
    }
    if !second.value.0.Number? {
      return Err(SyntaxError);
    }
    right := second.value.0.value;

    if left + right > MaxU32 {
      return Panic;
    }
    return Ok(left + right);
  }

  /** Two numerals around a `+` give the sum of their values (or the
      addition's panic), whatever follows that does not extend the second
      numeral. */
  lemma SumOfNumerals(text: string, position: nat, plus: nat, end: nat)
    requires position < plus && plus + 1 < end <= |text|
    requires forall i :: position <= i < plus ==> IsDigit(text[i])
    requires text[plus] == '+'
    requires forall i :: plus + 1 <= i < end ==> IsDigit(text[i])
    requires end == |text| || !IsDigit(text[end])
    ensures AllDigits(text[position..plus]) && AllDigits(text[plus + 1..end])
    ensures var left, right := DecimalValue(text[position..plus]), DecimalValue(text[plus + 1..end]);
      Sum(text, position) == if left + right <= MaxU32 then Ok(left + right) else Panic
  {
    TokenAtNumber(text, position, plus);
    TokenAtPlus(text, plus);
    TokenAtNumber(text, plus + 1, end);
    SumOfTokens(text, position, plus, end, DecimalValue(text[position..plus]), DecimalValue(text[plus + 1..end]));
  }

  lemma TokenAtPlus(text: string, plus: nat)
    requires plus < |text| && text[plus] == '+'
    ensures TokenAt(text, plus) == Ok((Add, plus + 1))
  {
  }

  /** The sum as the three token reads decide it. */
  lemma SumOfTokens(text: string, position: nat, plus: nat, end: nat, left: nat, right: nat)
    requires TokenAt(text, position) == if left <= MaxU32 then Ok((Number(left), plus)) else Panic
    requires TokenAt(text, plus) == Ok((Add, plus + 1))
    requires TokenAt(text, plus + 1) == if right <= MaxU32 then Ok((Number(right), end)) else Panic
    ensures Sum(text, position) == if left + right <= MaxU32 then Ok(left + right) else Panic
  {
  }

  /** Only text of that shape is summed: a successful call read digits, a
      `+` right after them, and a digit right after the `+`. */
  lemma SumOkShape(text: string, position: nat)
    requires Sum(text, position).Ok?
    ensures position < |text| && IsDigit(text[position])
    ensures var plus := DigitRunEnd(text, position);
      plus + 1 < |text| && text[plus] == '+' && IsDigit(text[plus + 1])
  {
    TokenAtNumber(text, position, DigitRunEnd(text, position + 1));
    DigitRunEndUnique(text, position, DigitRunEnd(text, position + 1));
  }

  /** The pieces of `x + "+" + y + rest`, where they are. */
  lemma SumTextLayout(x: string, y: string, rest: string)
    ensures var text := x + "+" + y + rest;
      && |text| == |x| + 1 + |y| + |rest|
      && text[..|x|] == x
      && text[0..|x|] == x
      && text[|x|] == '+'
      && text[|x| + 1..|x| + 1 + |y|] == y
      && (|rest| > 0 ==> text[|x| + 1 + |y|] == rest[0])
  {
    var text := x + "+" + y + rest;
    assert text == x + ("+" + y + rest);
    assert text[..|x|] == x;
    assert text[|x| + 1..] == y + rest;
    assert (y + rest)[..|y|] == y;
  }

  /** A numeral copied into a text at `position`, and not followed by a
      digit, is read back as its value. */
  lemma TokenAtNumeral(text: string, position: nat, end: nat, digits: string, n: nat)
    requires position < end <= |text| && text[position..end] == digits
    requires AllDigits(digits) && DecimalValue(digits) == n
    requires end == |text| || !IsDigit(text[end])
    ensures TokenAt(text, position) == if n <= MaxU32 then Ok((Number(n), end)) else Panic
  {
    forall i | position <= i < end ensures IsDigit(text[i]) {
      assert text[i] == digits[i - position];
    }
    TokenAtNumber(text, position, end);
  }

  /** Rendering `a + b` and parsing it back gives `a + b`. */
  lemma SumRoundTrip(a: U32, b: U32, rest: string)
    requires rest == [] || !IsDigit(rest[0])
    ensures Sum(Decimal(a) + "+" + Decimal(b) + rest, 0) == if a + b <= MaxU32 then Ok(a + b) else Panic
  {
    var x, y := Decimal(a), Decimal(b);
    var text := x + "+" + y + rest;
    var plus, end := |x|, |x| + 1 + |y|;
    SumTextLayout(x, y, rest);
    DecimalRoundTrip(a);
    DecimalRoundTrip(b);
    TokenAtNumeral(text, 0, plus, x, a);
    TokenAtPlus(text, plus);
    TokenAtNumeral(text, plus + 1, end, y, b);
    SumOfTokens(text, 0, plus, end, a, b);
  }

  /** How `expr_pure` fails: a token of the wrong kind in any of the three
      places is a syntax error, a lexer failure is passed on unchanged, and an
      empty text panics. */
  lemma SumFailures(text: string, position: nat)
    ensures |text| == 0 ==> Sum(text, position) == Panic
    ensures !TokenAt(text, position).Ok? ==> Sum(text, position) == Propagate(TokenAt(text, position))
    ensures TokenAt(text, position).Ok? && !TokenAt(text, position).value.0.Number? ==>
      Sum(text, position) == Err(SyntaxError)
    ensures TokenAt(text, position).Ok? && TokenAt(text, position).value.0.Number? ==>
      var plus := TokenAt(text, TokenAt(text, position).value.1);
      && (plus.Ok? && !plus.value.0.Add? ==> Sum(text, position) == Err(SyntaxError))
      && (!plus.Ok? ==> Sum(text, position) == Propagate(plus))
    ensures TokenAt(text, position).Ok? && TokenAt(text, position).value.0.Number? ==>
      var plus := TokenAt(text, TokenAt(text, position).value.1);
      plus.Ok? && plus.value.0.Add? ==>
        var second := TokenAt(text, plus.value.1);
        && (second.Ok? && !second.value.0.Number? ==> Sum(text, position) == Err(SyntaxError))
        && (!second.Ok? ==> Sum(text, position) == Propagate(second))
        && (second.Ok? && second.value.0.Number? ==>
              Sum(text, position) ==
                var total := TokenAt(text, position).value.0.value + second.value.0.value;
                if total <= MaxU32 then Ok(total) else Panic)
    ensures |text| > 0 && position < |text| && text[position] == '+' ==> Sum(text, position) == Err(SyntaxError)
    ensures |text| > 0 && position >= |text| ==> Sum(text, position) == Err(SyntaxError)
  {
  }
}
