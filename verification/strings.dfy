/**
 ASCII string helpers shared by the line parsers and the report builder:
 the comparison PCRE's `/i` flag performs, decimal digit runs, and the PHP
 string functions the plugin relies on (`trim`, `explode`, `str_replace`
 with an empty replacement, `basename`), plus the newline join the model
 uses to describe accumulated information.
 */
module Strings {
  import opened Wrappers

  // ---------------------------------------------------------------------
  // Case-insensitive comparison
  // ---------------------------------------------------------------------

  /** Lower-cases an ASCII letter; outside UTF mode PCRE's `/i` folds only these. */
  function Lower(c: char): char
  {
    if 'A' <= c <= 'Z' then (c as int - 'A' as int + 'a' as int) as char else c
  }

  /** `a` and `b` are equal up to ASCII case. */
  predicate EqualsIgnoreCase(a: string, b: string)
  {
    |a| == |b| && forall i :: 0 <= i < |a| ==> Lower(a[i]) == Lower(b[i])
  }

  /** `s` begins with `prefix` up to ASCII case: the anchored pattern `/^prefix/i`. */
  predicate StartsWithIgnoreCase(s: string, prefix: string)
  {
    |prefix| <= |s| && EqualsIgnoreCase(s[..|prefix|], prefix)
  }

  // ---------------------------------------------------------------------
  // Decimal digits
  // ---------------------------------------------------------------------

  predicate IsDigit(c: char)
  {
    '0' <= c <= '9'
  }

  predicate AllDigits(s: string)
  {
    forall i :: 0 <= i < |s| ==> IsDigit(s[i])
  }

  /** Length of the maximal run of digits at the start of `s`: what the greedy `[0-9]+` consumes. */
  function DigitRun(s: string): (n: nat)
    ensures n <= |s|
    ensures forall i :: 0 <= i < n ==> IsDigit(s[i])
    ensures n < |s| ==> !IsDigit(s[n])
  {
    if |s| > 0 && IsDigit(s[0]) then 1 + DigitRun(s[1..]) else 0
  }

  /** The value of a decimal numeral. */
  function NumeralValue(digits: string): nat
    requires AllDigits(digits)
  {
    if |digits| == 0 then 0
    else 10 * NumeralValue(digits[..|digits| - 1]) + (digits[|digits| - 1] as int - '0' as int)
  }

  /** Decimal rendering of a natural number, as PHP turns an integer into a string. */
  function NatToString(n: nat): (s: string)
    ensures |s| > 0 && AllDigits(s)
    ensures NumeralValue(s) == n
    ensures s[0] == '0' ==> n == 0 && |s| == 1
  {
    var last := [(n % 10 + '0' as int) as char];
    if n < 10 then last
    else
      var prefix := NatToString(n / 10);
      assert (prefix + last)[..|prefix + last| - 1] == prefix;
      prefix + last
  }

  /** The largest PHP integer on a 64-bit build. */
  const PhpIntMax: nat := 0x7FFF_FFFF_FFFF_FFFF

  /**
   The smallest numeral a double cannot hold: 2^1024 - 2^970, the point from
   which decimal-to-double conversion rounds to infinity.
   */
  const DoubleOverflow: nat := 0xFF_FFFF_FFFF_FFFC_0000_0000_0000_0000_0000_0000_0000_0000_0000_0000_0000_0000_0000_0000_0000_0000_0000_0000_0000_0000_0000_0000_0000_0000_0000_0000_0000_0000_0000_0000_0000_0000_0000_0000_0000_0000_0000_0000_0000_0000_0000_0000_0000_0000_0000_0000_0000_0000_0000_0000_0000_0000_0000_0000_0000_0000_0000_0000_0000_000000

  /**
   PHP's `(int)` cast of a numeral (PHP 7 and later): a value too large for
   an integer is read as a double and saturates at `PhpIntMax`, unless the
   double is infinite, which casts to 0.
   */
  function ToPhpInt(v: nat): (r: nat)
    ensures r <= PhpIntMax
    ensures v <= PhpIntMax ==> r == v
    ensures PhpIntMax < v < DoubleOverflow ==> r == PhpIntMax
    ensures v >= DoubleOverflow ==> r == 0
  {
    if v >= DoubleOverflow then 0
    else if v > PhpIntMax then PhpIntMax
    else v
  }

  // ---------------------------------------------------------------------
  // trim()
  // ---------------------------------------------------------------------

  /** The characters PHP's `trim()` strips by default: space, tab, LF, CR, NUL and vertical tab. */
  predicate IsTrimChar(c: char)
  {
    c == ' ' || c == '\t' || c == '\n' || c == '\r' || c == '\0' || c == '\U{0B}'
  }

  /** Number of trim characters at the start of `s`. */
  function LeadingTrim(s: string): (n: nat)
    ensures n <= |s|
    ensures forall i :: 0 <= i < n ==> IsTrimChar(s[i])
    ensures n < |s| ==> !IsTrimChar(s[n])
  {
    if |s| > 0 && IsTrimChar(s[0]) then 1 + LeadingTrim(s[1..]) else 0
  }

  /** Number of trim characters at the end of `s`. */
  function TrailingTrim(s: string): (n: nat)
    ensures n <= |s|
    ensures forall i :: |s| - n <= i < |s| ==> IsTrimChar(s[i])
    ensures n < |s| ==> !IsTrimChar(s[|s| - n - 1])
  {
    if |s| > 0 && IsTrimChar(s[|s| - 1]) then 1 + TrailingTrim(s[..|s| - 1]) else 0
  }

  /** `s` has no trim character at either end: the shape every result of `trim()` has. */
  predicate IsTrimmed(s: string)
  {
    |s| == 0 || (!IsTrimChar(s[0]) && !IsTrimChar(s[|s| - 1]))
  }

  /** PHP's `trim()`: the part of `s` left after stripping trim characters from both ends. */
  function Trim(s: string): (r: string)
    ensures IsTrimmed(r)
    ensures |r| <= |s|
    ensures |r| == 0 <==> forall i :: 0 <= i < |s| ==> IsTrimChar(s[i])
    ensures |r| > 0 ==> r == s[LeadingTrim(s)..|s| - TrailingTrim(s)]
  {
    var lo := LeadingTrim(s);
    if lo == |s| then ""
    else
      assert !IsTrimChar(s[lo]);
      s[lo..|s| - TrailingTrim(s)]
  }

  /** Trimming what is already trimmed changes nothing; in particular `trim()` is idempotent. */
  lemma TrimTrimmed(s: string)
    requires IsTrimmed(s)
    ensures Trim(s) == s
  {
    if |s| > 0 {
      assert LeadingTrim(s) == 0;
      assert TrailingTrim(s) == 0;
    }
  }

  // ---------------------------------------------------------------------
  // explode() and the newline join
  // ---------------------------------------------------------------------

  /** PHP's `explode()` with a one-character separator: the pieces between separators, never none. */
  function Split(s: string, sep: char): (parts: seq<string>)
    ensures |parts| >= 1
    ensures forall i :: 0 <= i < |parts| ==> sep !in parts[i]
  {
    if |s| == 0 then [""]
    else
      var rest := Split(s[1..], sep);
      if s[0] == sep then [""] + rest
      else [[s[0]] + rest[0]] + rest[1..]
  }

  /** The pieces in order with `sep` between consecutive ones: the inverse of `explode()`. */
  function Join(parts: seq<string>, sep: string): string
  {
    if |parts| == 0 then ""
    else if |parts| == 1 then parts[0]
    else parts[0] + sep + Join(parts[1..], sep)
  }

  /** Joining the pieces of `explode()` with the separator gives the text back. */
  lemma {:induction false} JoinSplit(s: string, sep: char)
    ensures Join(Split(s, sep), [sep]) == s
  {
    if |s| > 0 {
      var rest := Split(s[1..], sep);
      JoinSplit(s[1..], sep);
      if s[0] == sep {
        assert Split(s, sep) == [""] + rest;
        assert ([""] + rest)[1..] == rest;
      } else {
        var parts := Split(s, sep);
        assert parts == [[s[0]] + rest[0]] + rest[1..];
        if |rest| > 1 {
          assert parts[1..] == rest[1..];
          assert Join(rest, [sep]) == rest[0] + [sep] + Join(rest[1..], [sep]);
        }
      }
    }
  }

  /** Appending a piece adds one separator and the piece at the end. */
  lemma {:induction false} JoinSnoc(parts: seq<string>, sep: string, last: string)
    requires |parts| >= 1
    ensures Join(parts + [last], sep) == Join(parts, sep) + sep + last
  {
    if |parts| > 1 {
      assert (parts + [last])[1..] == parts[1..] + [last];
      JoinSnoc(parts[1..], sep, last);
    } else {
      assert (parts + [last])[1..] == [last];
    }
  }

  /** Splitting a piece with no separator in it, followed by a separator, peels that piece off. */
  lemma {:induction false} SplitPeel(piece: string, sep: char, rest: string)
    requires sep !in piece
    ensures Split(piece + [sep] + rest, sep) == [piece] + Split(rest, sep)
  {
    var s := piece + [sep] + rest;
    if |piece| == 0 {
      assert s == [sep] + rest;
      assert s[1..] == rest;
    } else {
      assert s[1..] == piece[1..] + [sep] + rest;
      SplitPeel(piece[1..], sep, rest);
      assert [s[0]] + piece[1..] == piece;
    }
  }

  /** A piece with no separator in it splits into itself. */
  lemma {:induction false} SplitWhole(piece: string, sep: char)
    requires sep !in piece
    ensures Split(piece, sep) == [piece]
  {
    if |piece| > 0 {
      SplitWhole(piece[1..], sep);
      assert [piece[0]] + piece[1..] == piece;
    }
  }

  /** `explode()` undoes the join when no piece holds the separator. */
  lemma {:induction false} SplitJoin(parts: seq<string>, sep: char)
    requires |parts| >= 1
    requires forall i :: 0 <= i < |parts| ==> sep !in parts[i]
    ensures Split(Join(parts, [sep]), sep) == parts
  {
    if |parts| == 1 {
      SplitWhole(parts[0], sep);
    } else {
      SplitJoin(parts[1..], sep);
      SplitPeel(parts[0], sep, Join(parts[1..], [sep]));
      assert [parts[0]] + parts[1..] == parts;
    }
  }

  // ---------------------------------------------------------------------
  // str_replace(pattern, '', s)
  // ---------------------------------------------------------------------

  /** `pattern` occurs in `s` at position `i`. */
  predicate OccursAt(s: string, pattern: string, i: nat)
  {
    i + |pattern| <= |s| && s[i..i + |pattern|] == pattern
  }

  /** The leftmost occurrence of `pattern` in `s` at or after `from`, as an unanchored regex search finds it. */
  function IndexOf(s: string, pattern: string, from: nat): (r: Option<nat>)
    requires from <= |s|
    ensures r.Some? ==> from <= r.value && OccursAt(s, pattern, r.value)
    ensures r.Some? ==> forall j :: from <= j < r.value ==> !OccursAt(s, pattern, j)
    ensures r.None? ==> forall j :: from <= j <= |s| ==> !OccursAt(s, pattern, j)
    decreases |s| - from
  {
    if from + |pattern| > |s| then None
    else if OccursAt(s, pattern, from) then Some(from)
    else IndexOf(s, pattern, from + 1)
  }

  /** Length of the longest prefix of `s` free of `c`. */
  function RunWithout(s: string, c: char): (n: nat)
    ensures n <= |s|
    ensures c !in s[..n]
    ensures n < |s| ==> s[n] == c
  {
    if |s| > 0 && s[0] != c then
      var m := RunWithout(s[1..], c);
      assert s[..1 + m] == [s[0]] + s[1..][..m];
      1 + m
    else 0
  }

  /** PHP's `str_replace(pattern, '', s)`: deletes the occurrences of `pattern` met scanning left to right. */
  function RemoveAll(s: string, pattern: string): (r: string)
    requires |pattern| > 0
    ensures |r| <= |s|
    ensures forall c :: c in r ==> c in s
    decreases |s|
  {
    if |s| == 0 then ""
    else if OccursAt(s, pattern, 0) then RemoveAll(s[|pattern|..], pattern)
    else [s[0]] + RemoveAll(s[1..], pattern)
  }

  /** A string in which `pattern` never occurs is left as it is. */
  lemma {:induction false} RemoveAllAbsent(s: string, pattern: string)
    requires |pattern| > 0
    requires forall i :: 0 <= i <= |s| ==> !OccursAt(s, pattern, i)
    ensures RemoveAll(s, pattern) == s
  {
    if |s| > 0 {
      assert !OccursAt(s, pattern, 0);
      forall i | 0 <= i <= |s[1..]|
        ensures !OccursAt(s[1..], pattern, i)
      {
        assert !OccursAt(s, pattern, i + 1);
        if i + |pattern| <= |s[1..]| {
          assert s[1..][i..i + |pattern|] == s[i + 1..i + 1 + |pattern|];
        }
      }
      RemoveAllAbsent(s[1..], pattern);
      assert [s[0]] + s[1..] == s;
    }
  }

  /** `.php` has no proper border, so a trailing `.php` is always removed on its own. */
  lemma {:induction false} RemovePhpSuffix(s: string)
    ensures RemoveAll(s + ".php", ".php") == RemoveAll(s, ".php")
    decreases |s|
  {
    var t := s + ".php";
    if |s| == 0 {
      assert t == ".php";
      assert OccursAt(t, ".php", 0);
      assert t[4..] == "";
    } else if OccursAt(s, ".php", 0) {
      assert OccursAt(t, ".php", 0);
      assert t[4..] == s[4..] + ".php";
      RemovePhpSuffix(s[4..]);
    } else {
      if |s| < 4 {
        assert t[|s|] == '.';
      } else {
        assert s[..4] == t[..4];
      }
      assert !OccursAt(t, ".php", 0);
      assert t[1..] == s[1..] + ".php";
      RemovePhpSuffix(s[1..]);
    }
  }

  // ---------------------------------------------------------------------
  // basename()
  // ---------------------------------------------------------------------

  /** `s` without its trailing slashes. */
  function DropTrailingSlashes(s: string): (r: string)
    ensures |r| <= |s| && r == s[..|r|]
    ensures |r| == 0 || r[|r| - 1] != '/'
    ensures forall i :: |r| <= i < |s| ==> s[i] == '/'
  {
    if |s| > 0 && s[|s| - 1] == '/' then DropTrailingSlashes(s[..|s| - 1]) else s
  }

  /** The part of `s` after its last slash. */
  function LastSegment(s: string): (r: string)
    ensures |r| <= |s| && r == s[|s| - |r|..]
    ensures '/' !in r
    ensures |r| < |s| ==> s[|s| - |r| - 1] == '/'
  {
    if |s| == 0 || s[|s| - 1] == '/' then ""
    else
      var r := LastSegment(s[..|s| - 1]) + [s[|s| - 1]];
      assert s[|s| - |r|..] == s[..|s| - 1][|s| - |r|..] + [s[|s| - 1]];
      r
  }

  /** PHP's `basename()` on a `/`-separated path: the last non-empty component. */
  function Basename(path: string): (r: string)
    ensures '/' !in r
    ensures |r| <= |path|
  {
    LastSegment(DropTrailingSlashes(path))
  }

  /** For a path not ending in a slash, the base name is the suffix after the last slash. */
  lemma BasenameSplits(dir: string, name: string)
    requires |dir| == 0 || dir[|dir| - 1] == '/'
    requires '/' !in name && |name| > 0
    ensures Basename(dir + name) == name
  {
    var p := dir + name;
    assert DropTrailingSlashes(p) == p;
    var r := LastSegment(p);
    assert r == p[|p| - |r|..];
    assert p[|dir|..] == name;
  }
}
