/**
 The two static line parsers of `sfTestsToXUnitUtil`: the test number and the
 optional test name carried by an `ok` / `not ok` line. Both return PHP's
 `false` when their pattern does not match, modelled here as `None`.
 */
module LineUtil {
  import opened Wrappers
  import opened Strings

  /** Length of the result token, `ok` or `not ok` in any case, that `line` starts with. */
  function ResultToken(line: string): Option<nat>
  {
    if StartsWithIgnoreCase(line, "ok") then Some(2)
    else if StartsWithIgnoreCase(line, "not ok") then Some(6)
    else None
  }

  /**
   `line` has the shape `/^(ok|not ok) ([0-9]+)/i` asks for: a result token,
   exactly one space, then at least one digit.
   */
  predicate NumberedResult(line: string, token: string)
  {
    && StartsWithIgnoreCase(line, token)
    && |token| + 1 < |line|
    && line[|token|] == ' '
    && IsDigit(line[|token| + 1])
  }

  /**
   getTestNumberFromLine: the integer value of the digit run after the token
   and its single space, or `None` when the pattern does not match.
   */
  function TestNumberFromLine(line: string): (r: Option<nat>)
    ensures r.Some? <==> NumberedResult(line, "ok") || NumberedResult(line, "not ok")
    ensures r.Some? ==> r.value <= PhpIntMax
  {
    TokensExclusive(line);
    match ResultToken(line)
    case None => None
    case Some(k) =>
      if k < |line| && line[k] == ' ' && DigitRun(line[k + 1..]) > 0 then
        var digits := line[k + 1..][..DigitRun(line[k + 1..])];
        Some(ToPhpInt(NumeralValue(digits)))
      else
        assert k + 1 < |line| ==> line[k + 1..][0] == line[k + 1];
        None
  }

  /**
   What `([^\n]+$)` captures when it starts at `j`: the rest of the line,
   which must be non-empty and free of newlines except for one final newline
   that `$` may stand before.
   */
  function NameCaptureAt(line: string, j: nat): (r: Option<string>)
    requires j <= |line|
    ensures r.Some? ==> |r.value| > 0 && '\n' !in r.value
  {
    var rest := line[j..];
    var k := RunWithout(rest, '\n');
    if k == 0 then None
    else if k == |rest| || k == |rest| - 1 then Some(rest[..k])
    else None
  }

  /** The leftmost match of `/ - ([^\n]+$)/` at or after position `i`, as its capture. */
  function NameFrom(line: string, i: nat): (r: Option<string>)
    requires i <= |line|
    ensures r.Some? ==> |r.value| > 0 && '\n' !in r.value
    decreases |line| - i
  {
    if i + 3 > |line| then None
    else if OccursAt(line, " - ", i) && NameCaptureAt(line, i + 3).Some? then NameCaptureAt(line, i + 3)
    else NameFrom(line, i + 1)
  }

  /** getTestNameFromLine: the text after ` - ` up to the end of the line, or `None`. */
  function TestNameFromLine(line: string): (r: Option<string>)
    ensures r.Some? ==> |r.value| > 0 && '\n' !in r.value
  {
    NameFrom(line, 0)
  }

  // ---------------------------------------------------------------------
  // Properties
  // ---------------------------------------------------------------------

  /** The tokens `ok` and `not ok` cannot both start a line: their first letters differ in every case. */
  lemma TokensExclusive(line: string)
    ensures !(StartsWithIgnoreCase(line, "ok") && StartsWithIgnoreCase(line, "not ok"))
  {
    if StartsWithIgnoreCase(line, "ok") {
      assert Lower(line[0]) == 'o';
    }
  }

  /** The digit run of a numeral followed by a non-digit is exactly that numeral. */
  lemma {:induction false} DigitRunOfNumeral(digits: string, rest: string)
    requires AllDigits(digits)
    requires |rest| == 0 || !IsDigit(rest[0])
    ensures DigitRun(digits + rest) == |digits|
  {
    if |digits| > 0 {
      assert (digits + rest)[1..] == digits[1..] + rest;
      DigitRunOfNumeral(digits[1..], rest);
    } else {
      assert digits + rest == rest;
    }
  }

  /**
   Rendering a number after a result token reads it back: the value is that
   of the digit run directly after the single space, whatever follows the
   digits, in any letter case of the token.
   */
  lemma NumberRoundTrip(token: string, n: nat, rest: string)
    requires EqualsIgnoreCase(token, "ok") || EqualsIgnoreCase(token, "not ok")
    requires n <= PhpIntMax
    requires |rest| == 0 || !IsDigit(rest[0])
    ensures TestNumberFromLine(token + " " + (NatToString(n) + rest)) == Some(n)
  {
    NumeralAfterToken(token, NatToString(n), rest);
  }

  /** The number of a result line is the value of the numeral after the token, however the line goes on. */
  lemma NumeralAfterToken(token: string, digits: string, rest: string)
    requires EqualsIgnoreCase(token, "ok") || EqualsIgnoreCase(token, "not ok")
    requires AllDigits(digits) && |digits| > 0
    requires |rest| == 0 || !IsDigit(rest[0])
    ensures TestNumberFromLine(token + " " + (digits + rest)) == Some(ToPhpInt(NumeralValue(digits)))
  {
    var line := token + " " + (digits + rest);
    var k := |token|;
    assert ResultToken(line) == Some(k) by {
      ResultTokenOf(token, " ", digits + rest);
    }
    AfterToken(token, digits + rest);
    assert DigitRun(digits + rest) == |digits| by {
      DigitRunOfNumeral(digits, rest);
    }
    NumberAfterToken(line, k, digits, rest);
  }

  /** What follows a token and its space. */
  lemma AfterToken(token: string, tail: string)
    ensures (token + " " + tail)[|token|] == ' '
    ensures (token + " " + tail)[|token| + 1..] == tail
  {
  }

  /** Once the token, the space and the digit run are located, the number is the run's value. */
  lemma NumberAfterToken(line: string, k: nat, digits: string, rest: string)
    requires ResultToken(line) == Some(k)
    requires k < |line| && line[k] == ' ' && line[k + 1..] == digits + rest
    requires AllDigits(digits) && |digits| > 0
    requires DigitRun(digits + rest) == |digits|
    ensures TestNumberFromLine(line) == Some(ToPhpInt(NumeralValue(digits)))
  {
    assert (digits + rest)[..|digits|] == digits;
  }

  /** A line starting with a result token in any letter case reports that token's length. */
  lemma ResultTokenOf(token: string, space: string, rest: string)
    requires EqualsIgnoreCase(token, "ok") || EqualsIgnoreCase(token, "not ok")
    ensures ResultToken(token + space + rest) == Some(|token|)
  {
    var line := token + space + rest;
    assert line[..|token|] == token;
    TokensExclusive(line);
  }

  /** Two spaces after the token are no match. */
  lemma TwoSpacesNoNumber(token: string, rest: string)
    requires EqualsIgnoreCase(token, "ok") || EqualsIgnoreCase(token, "not ok")
    ensures TestNumberFromLine(token + "  " + rest) == None
  {
    var line := token + "  " + rest;
    assert line[..|token|] == token;
    TokensExclusive(line);
    assert line[|token| + 1] == ' ';
  }

  /** `NOT OK 3` yields 3: the token is matched regardless of case. */
  lemma UpperCaseFailNumber()
    ensures TestNumberFromLine("NOT OK 3") == Some(3)
  {
    assert EqualsIgnoreCase("NOT OK", "not ok") by {
      assert Lower('N') == 'n' && Lower('O') == 'o' && Lower('T') == 't' && Lower('K') == 'k';
    }
    assert NatToString(3) == "3";
    NumberRoundTrip("NOT OK", 3, "");
    assert "NOT OK" + " " + ("3" + "") == "NOT OK 3";
  }

  /** `ok 12abc` yields 12: only the leading digits count. */
  lemma LeadingDigitsOnly()
    ensures TestNumberFromLine("ok 12abc") == Some(12)
  {
    assert NatToString(12) == "12";
    NumberRoundTrip("ok", 12, "abc");
    assert "ok" + " " + ("12" + "abc") == "ok 12abc";
  }

  /** A bare `ok`, or a word merely starting with `ok`, carries no number. */
  lemma NoNumberExamples()
    ensures TestNumberFromLine("ok") == None
    ensures TestNumberFromLine("okay 4") == None
  {
    assert "okay 4"[2] == 'a';
  }

  /**
   On a line without newlines (every line the parser sees), the name is
   everything after the first ` - `, and there is none when ` - ` is absent
   or ends the line.
   */
  lemma {:induction false} NameAfterFirstSeparator(line: string)
    requires '\n' !in line
    ensures TestNameFromLine(line) ==
      match IndexOf(line, " - ", 0)
      case Some(i) => if i + 3 < |line| then Some(line[i + 3..]) else None
      case None => None
  {
    NameFromSingleLine(line, 0);
  }

  lemma {:induction false} NameFromSingleLine(line: string, i: nat)
    requires '\n' !in line
    requires i <= |line|
    ensures NameFrom(line, i) ==
      match IndexOf(line, " - ", i)
      case Some(j) => if j + 3 < |line| then Some(line[j + 3..]) else None
      case None => None
    decreases |line| - i
  {
    if i + 3 <= |line| {
      var rest := line[i + 3..];
      assert '\n' !in rest by {
        forall c | c in rest ensures c != '\n' {
          var m :| 0 <= m < |rest| && rest[m] == c;
          assert line[i + 3 + m] == c;
        }
      }
      var k := RunWithout(rest, '\n');
      assert k == |rest|;
      assert rest[..k] == rest;
      if !OccursAt(line, " - ", i) || i + 3 == |line| {
        NameFromSingleLine(line, i + 1);
      }
    }
  }
}
