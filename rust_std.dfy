/** The pieces of Rust's standard library that the interpreter relies on,
    stated over `seq<char>`: the `u32` range, `char::is_digit(10)`,
    `str::parse::<u32>`, `str::split` and `str::lines`. */
module RustStd {

  const MaxU32: int := 0xFFFF_FFFF

  /** Rust's `u32`. */
  type U32 = x: int | 0 <= x <= MaxU32

  datatype Option<+T> = None | Some(value: T)

  /** `char::is_digit(10)`: true of the ASCII digits only. */
  predicate IsDigit(c: char) {
    '0' <= c <= '9'
  }

  predicate AllDigits(s: string) {
    forall i :: 0 <= i < |s| ==> IsDigit(s[i])
  }

  function DigitValue(c: char): nat
    requires IsDigit(c)
  {
    (c as int) - ('0' as int)
  }

  /** The value of a decimal numeral, most significant digit first. */
  function DecimalValue(s: string): nat
    requires AllDigits(s)
  {
    if s == [] then 0 else 10 * DecimalValue(s[..|s| - 1]) + DigitValue(s[|s| - 1])
  }

  /** `s.parse::<u32>()` on a non-empty run of ASCII digits (the only strings
      the interpreter ever parses): `None` exactly when the value does not
      fit in 32 bits. Leading zeros are accepted. */
  function ParseU32(digits: string): (r: Option<U32>)
    requires |digits| > 0 && AllDigits(digits)
  {
    if DecimalValue(digits) <= MaxU32 then Some(DecimalValue(digits)) else None
  }

  /** The shortest decimal numeral of `n`; the inverse of `DecimalValue`. */
  function Decimal(n: nat): (s: string)
    ensures |s| > 0 && AllDigits(s)
    decreases n
  {
    if n < 10 then [('0' as int + n) as char]
    else Decimal(n / 10) + [('0' as int + n % 10) as char]
  }

  lemma {:induction false} DecimalRoundTrip(n: nat)
    ensures DecimalValue(Decimal(n)) == n
    decreases n
  {
    if n >= 10 {
      DecimalRoundTrip(n / 10);
      var s := Decimal(n);
      assert s[..|s| - 1] == Decimal(n / 10);
    }
  }

  /** Reading back a rendered `u32` gives the number again. */
  lemma ParseU32Decimal(n: U32)
    ensures ParseU32(Decimal(n)) == Some(n)
  {
    DecimalRoundTrip(n);
  }

  /** The end of the longest run of digits in `text` that starts at `from`:
      the position where a `while right_bound < len && text[right_bound].is_digit(10)`
      scan stops. */
  function DigitRunEnd(text: string, from: nat): (end: nat)
    requires from <= |text|
    ensures from <= end <= |text|
    ensures forall i :: from <= i < end ==> IsDigit(text[i])
    ensures end == |text| || !IsDigit(text[end])
    decreases |text| - from
  {
    if from < |text| && IsDigit(text[from]) then DigitRunEnd(text, from + 1) else from
  }

  /** The maximal digit run is unique: any position that ends a run of digits
      from `from` and is not followed by a digit is `DigitRunEnd(text, from)`. */
  lemma {:induction false} DigitRunEndUnique(text: string, from: nat, end: nat)
    requires from <= end <= |text|
    requires forall i :: from <= i < end ==> IsDigit(text[i])
    requires end == |text| || !IsDigit(text[end])
    ensures DigitRunEnd(text, from) == end
    decreases end - from
  {
    if from < end {
      DigitRunEndUnique(text, from + 1, end);
    }
  }

  /** A slice of digits is a numeral. */
  lemma DigitSlice(text: string, from: nat, end: nat)
    requires from <= end <= |text|
    requires forall i :: from <= i < end ==> IsDigit(text[i])
    ensures AllDigits(text[from..end])
  {
    forall k | 0 <= k < end - from ensures IsDigit(text[from..end][k]) {
      assert text[from..end][k] == text[from + k];
    }
  }

  lemma LastSplit<T>(s: seq<T>)
    requires |s| > 0
    ensures s == s[..|s| - 1] + [s[|s| - 1]]
  {
  }

  /** The first index of `c` in `s`, or `|s|` when `c` does not occur. */
  function IndexOf(s: string, c: char): (i: nat)
    ensures i <= |s|
    ensures i < |s| ==> s[i] == c
    ensures forall j :: 0 <= j < i ==> s[j] != c
  {
    if s == [] then 0 else if s[0] == c then 0 else 1 + IndexOf(s[1..], c)
  }

  /** `s.split(d)`: the pieces between the occurrences of `d`, empty pieces
      included, so that there is always one piece more than there are `d`s. */
  function Split(s: string, d: char): (pieces: seq<string>)
    ensures |pieces| >= 1
    ensures forall k :: 0 <= k < |pieces| ==> d !in pieces[k]
    decreases |s|
  {
    var i := IndexOf(s, d);
    if i == |s| then [s] else [s[..i]] + Split(s[i + 1..], d)
  }

  /** `pieces.join(d)`, the inverse of `Split`. */
  function Join(pieces: seq<string>, d: char): string
    decreases |pieces|
  {
    if |pieces| == 0 then []
    else if |pieces| == 1 then pieces[0]
    else pieces[0] + [d] + Join(pieces[1..], d)
  }

  lemma {:induction false} JoinSplit(s: string, d: char)
    ensures Join(Split(s, d), d) == s
    decreases |s|
  {
    var i := IndexOf(s, d);
    if i < |s| {
      var rest := Split(s[i + 1..], d);
      assert Split(s, d) == [s[..i]] + rest;
      assert Join([s[..i]] + rest, d) == s[..i] + [d] + Join(rest, d) by {
        assert ([s[..i]] + rest)[1..] == rest;
      }
      JoinSplit(s[i + 1..], d);
      assert s == s[..i] + [d] + s[i + 1..];
    }
  }

  lemma {:induction false} SplitJoin(pieces: seq<string>, d: char)
    requires |pieces| >= 1
    requires forall k :: 0 <= k < |pieces| ==> d !in pieces[k]
    ensures Split(Join(pieces, d), d) == pieces
    decreases |pieces|
  {
    var p := pieces[0];
    IndexOfAbsent(p, d);
    if |pieces| > 1 {
      var s := Join(pieces, d);
      IndexOfAfter(p, d, Join(pieces[1..], d));
      assert s[..|p|] == p;
      assert s[|p| + 1..] == Join(pieces[1..], d);
      SplitJoin(pieces[1..], d);
    }
  }

  lemma IndexOfAbsent(s: string, c: char)
    requires c !in s
    ensures IndexOf(s, c) == |s|
  {
  }

  lemma IndexOfAfter(p: string, c: char, rest: string)
    requires c !in p
    ensures IndexOf(p + [c] + rest, c) == |p|
  {
    var s := p + [c] + rest;
    assert forall j :: 0 <= j < |p| ==> s[j] == p[j];
    assert s[|p|] == c;
  }

  /** Drops one `'\r'` at the end of a line. */
  function StripCr(line: string): string {
    if |line| > 0 && line[|line| - 1] == '\r' then line[..|line| - 1] else line
  }

  /** `s.lines()`: splits after each `'\n'`, drops a `'\r'` just before a
      `'\n'`, and yields no empty final line after a trailing `'\n'`. */
  function Lines(s: string): (lines: seq<string>)
    ensures forall k :: 0 <= k < |lines| ==> '\n' !in lines[k]
    decreases |s|
  {
    if s == [] then []
    else
      var i := IndexOf(s, '\n');
      if i == |s| then [s] else [StripCr(s[..i])] + Lines(s[i + 1..])
  }

  /** Each line followed by `'\n'`. */
  function Unlines(lines: seq<string>): string
    decreases |lines|
  {
    if lines == [] then [] else lines[0] + "\n" + Unlines(lines[1..])
  }

  /** A line as `str::lines` can yield it after a `'\n'`. */
  predicate PlainLine(line: string) {
    '\n' !in line && (|line| == 0 || line[|line| - 1] != '\r')
  }

  lemma {:induction false} LinesUnlines(lines: seq<string>)
    requires forall k :: 0 <= k < |lines| ==> PlainLine(lines[k])
    ensures Lines(Unlines(lines)) == lines
    decreases |lines|
  {
    if lines != [] {
      var l := lines[0];
      var rest := Unlines(lines[1..]);
      IndexOfAfter(l, '\n', rest);
      var s := Unlines(lines);
      assert s == l + ['\n'] + rest;
      assert s[..|l|] == l;
      assert s[|l| + 1..] == rest;
      LinesUnlines(lines[1..]);
    }
  }

  /** Without carriage returns, `lines` loses only a final missing `'\n'`. */
  lemma {:induction false} UnlinesLines(s: string)
    requires '\r' !in s
    ensures Unlines(Lines(s)) == if s == [] || s[|s| - 1] == '\n' then s else s + "\n"
    decreases |s|
  {
    if s != [] {
      var i := IndexOf(s, '\n');
      if i == |s| {
        assert Unlines([s]) == s + "\n";
      } else {
        var head, tail := s[..i], s[i + 1..];
        assert s == head + "\n" + tail;
        assert StripCr(head) == head by {
          if |head| > 0 {
            assert head[|head| - 1] == s[i - 1];
          }
        }
        assert '\r' !in tail by {
          forall j | 0 <= j < |tail| ensures tail[j] != '\r' {
            assert tail[j] == s[i + 1 + j];
          }
        }
        assert Unlines(Lines(s)) == head + "\n" + Unlines(Lines(tail)) by {
          assert Lines(s) == [head] + Lines(tail);
        }
        UnlinesLines(tail);
        if tail != [] {
          assert tail[|tail| - 1] == s[|s| - 1];
          if tail[|tail| - 1] != '\n' {
            assert head + "\n" + (tail + "\n") == s + "\n";
          }
        }
      }
    }
  }
}
