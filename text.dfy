/** The string primitives the console-command framework relies on from .NET:
    white-space tests, invariant lower-casing, `String.Split(char)`,
    `String.Join(char, ...)`, trimming, and the `Int32` and `Boolean` parsers
    that `Convert.ChangeType` uses for a string. Characters are modelled as
    UTF-16 code units; casing covers ASCII letters only. */
module Text {
  import opened Wrappers

  // ---------------------------------------------------------------------
  // White space

  /** `char.IsWhiteSpace` restricted to the Latin-1 range: TAB, LF, VT, FF,
      CR, SPACE, NEL and NO-BREAK SPACE. */
  predicate IsWhiteSpace(c: char) {
    c == ' ' || ('\t' <= c <= '\r') || c as int == 0x85 || c as int == 0xA0
  }

  /** The white space that `Int32.Parse` skips before and after a number
      (`NumberStyles.AllowLeadingWhite` / `AllowTrailingWhite`). */
  predicate IsNumberWhiteSpace(c: char) {
    c == ' ' || ('\t' <= c <= '\r')
  }

  /** `string.IsNullOrWhiteSpace` on a non-null string. */
  predicate IsBlank(s: string) {
    forall i :: 0 <= i < |s| ==> IsWhiteSpace(s[i])
  }

  /** `string.IsNullOrWhiteSpace` on a string that may be null. */
  predicate IsNullOrWhiteSpace(s: Option<string>) {
    s.None? || IsBlank(s.value)
  }

  // ---------------------------------------------------------------------
  // Lower-casing (`ToLowerInvariant`, ASCII letters only)

  function LowerChar(c: char): char {
    if 'A' <= c <= 'Z' then (c as int + 32) as char else c
  }

  function ToLower(s: string): string {
    seq(|s|, i requires 0 <= i < |s| => LowerChar(s[i]))
  }

  predicate IsLowerCase(s: string) {
    ToLower(s) == s
  }

  predicate HasUpperCaseLetter(s: string) {
    exists i :: 0 <= i < |s| && 'A' <= s[i] <= 'Z'
  }

  /** `StringComparison.OrdinalIgnoreCase` equality. */
  predicate EqualsIgnoreCase(a: string, b: string) {
    ToLower(a) == ToLower(b)
  }

  /** Lower-casing yields a string that lower-casing leaves alone. */
  lemma ToLowerIsLowerCase(s: string)
    ensures |ToLower(s)| == |s|
    ensures IsLowerCase(ToLower(s))
  {
    var t := ToLower(s);
    assert forall i :: 0 <= i < |t| ==> LowerChar(t[i]) == t[i];
    assert ToLower(t) == t;
  }

  /** A string holding an upper-case letter is never its own lower-case form. */
  lemma UpperCaseIsNotLowerCase(s: string)
    requires HasUpperCaseLetter(s)
    ensures !IsLowerCase(s)
  {
    var i :| 0 <= i < |s| && 'A' <= s[i] <= 'Z';
    assert ToLower(s)[i] != s[i];
  }

  /** Lower-casing keeps a blank string blank and a non-blank one non-blank. */
  lemma ToLowerKeepsBlankness(s: string)
    ensures IsBlank(ToLower(s)) <==> IsBlank(s)
  {
    assert forall i :: 0 <= i < |s| ==> (IsWhiteSpace(ToLower(s)[i]) <==> IsWhiteSpace(s[i]));
  }

  // ---------------------------------------------------------------------
  // Splitting and joining on one separator character

  /** `s.Split(sep)`: every occurrence of `sep` separates two pieces, empty
      pieces included, so there is always at least one piece. */
  function Split(s: string, sep: char): (parts: seq<string>)
    ensures |parts| >= 1
    decreases |s|
  {
    if |s| == 0 then [""]
    else
      var rest := Split(s[1..], sep);
      if s[0] == sep then [""] + rest
      else [[s[0]] + rest[0]] + rest[1..]
  }

  /** There is one more piece than there are separators in the input. */
  lemma {:induction false} SplitCount(s: string, sep: char)
    ensures |Split(s, sep)| == multiset(s)[sep] + 1
    decreases |s|
  {
    if |s| > 0 {
      SplitCount(s[1..], sep);
      assert s == [s[0]] + s[1..];
      assert multiset(s) == multiset([s[0]]) + multiset(s[1..]);
    }
  }

  /** `string.Join(sep, parts)`. */
  function Join(parts: seq<string>, sep: char): string
    decreases |parts|
  {
    if |parts| == 0 then ""
    else if |parts| == 1 then parts[0]
    else parts[0] + [sep] + Join(parts[1..], sep)
  }

  predicate NoSeparator(parts: seq<string>, sep: char) {
    forall i :: 0 <= i < |parts| ==> sep !in parts[i]
  }

  lemma {:induction false} JoinConsChar(c: char, parts: seq<string>, sep: char)
    requires |parts| >= 1
    ensures Join([[c] + parts[0]] + parts[1..], sep) == [c] + Join(parts, sep)
  {
    var ps := [[c] + parts[0]] + parts[1..];
    if |parts| > 1 {
      assert ps[1..] == parts[1..];
      calc {
        Join(ps, sep);
        ([c] + parts[0]) + [sep] + Join(parts[1..], sep);
        [c] + (parts[0] + [sep] + Join(parts[1..], sep));
      }
    }
  }

  /** Joining the pieces of a split gives back the input. */
  lemma {:induction false} JoinSplit(s: string, sep: char)
    ensures Join(Split(s, sep), sep) == s
    decreases |s|
  {
    if |s| > 0 {
      var rest := Split(s[1..], sep);
      JoinSplit(s[1..], sep);
      if s[0] == sep {
        assert ([""] + rest)[1..] == rest;
        assert Join([""] + rest, sep) == [sep] + s[1..];
      } else {
        JoinConsChar(s[0], rest, sep);
      }
      assert [s[0]] + s[1..] == s;
    }
  }

  /** No piece of a split contains the separator. */
  lemma {:induction false} SplitHasNoSeparator(s: string, sep: char)
    ensures NoSeparator(Split(s, sep), sep)
    decreases |s|
  {
    if |s| > 0 {
      SplitHasNoSeparator(s[1..], sep);
      var rest := Split(s[1..], sep);
      if s[0] != sep {
        var ps := [[s[0]] + rest[0]] + rest[1..];
        forall i | 0 <= i < |ps| ensures sep !in ps[i] {
          if i > 0 { assert ps[i] == rest[i]; }
        }
      }
    }
  }

  lemma {:induction false} SplitWithoutSeparator(x: string, sep: char)
    requires sep !in x
    ensures Split(x, sep) == [x]
    decreases |x|
  {
    if |x| > 0 {
      SplitWithoutSeparator(x[1..], sep);
      assert [x[0]] + x[1..] == x;
    }
  }

  lemma {:induction false} SplitAfterFirst(x: string, y: string, sep: char)
    requires sep !in x
    ensures Split(x + [sep] + y, sep) == [x] + Split(y, sep)
    decreases |x|
  {
    var s := x + [sep] + y;
    if |x| == 0 {
      assert s[1..] == y;
    } else {
      assert s[1..] == x[1..] + [sep] + y;
      SplitAfterFirst(x[1..], y, sep);
      assert [x[0]] + x[1..] == x;
    }
  }

  /** Splitting a join of separator-free pieces gives back the pieces. */
  lemma {:induction false} SplitJoin(parts: seq<string>, sep: char)
    requires |parts| >= 1
    requires NoSeparator(parts, sep)
    ensures Split(Join(parts, sep), sep) == parts
    decreases |parts|
  {
    if |parts| == 1 {
      SplitWithoutSeparator(parts[0], sep);
    } else {
      SplitJoin(parts[1..], sep);
      SplitAfterFirst(parts[0], Join(parts[1..], sep), sep);
      assert [parts[0]] + parts[1..] == parts;
    }
  }

  /** The first piece of a split is the text before the first separator:
      a separator-free prefix of the input, followed in the input by the
      separator unless it is all of the input. The remaining pieces are the
      split of what follows that separator. */
  lemma {:induction false} SplitHead(s: string, sep: char)
    ensures var h := Split(s, sep)[0];
      && h <= s
      && sep !in h
      && (|h| < |s| ==> s[|h|] == sep && Split(s, sep)[1..] == Split(s[|h| + 1..], sep))
      && (|h| == |s| ==> Split(s, sep) == [s])
    decreases |s|
  {
    if |s| > 0 {
      SplitHead(s[1..], sep);
      var rest := Split(s[1..], sep);
      if s[0] != sep {
        var h := [s[0]] + rest[0];
        assert Split(s, sep)[0] == h;
        assert s == [s[0]] + s[1..];
        if |h| < |s| {
          assert s[|h| + 1..] == s[1..][|rest[0]| + 1..];
        }
      }
    }
  }

  // ---------------------------------------------------------------------
  // Trimming

  function TrimStart(s: string, white: char -> bool): (r: string)
    decreases |s|
  {
    if |s| > 0 && white(s[0]) then TrimStart(s[1..], white) else s
  }

  function TrimEnd(s: string, white: char -> bool): (r: string)
    decreases |s|
  {
    if |s| > 0 && white(s[|s| - 1]) then TrimEnd(s[..|s| - 1], white) else s
  }

  /** `String.Trim()`. */
  function Trim(s: string): string {
    TrimEnd(TrimStart(s, IsWhiteSpace), IsWhiteSpace)
  }

  lemma TrimKeeps(s: string, white: char -> bool)
    requires |s| > 0 && !white(s[0]) && !white(s[|s| - 1])
    ensures TrimEnd(TrimStart(s, white), white) == s
  {
  }

  // ---------------------------------------------------------------------
  // Numbers: `Int32.Parse` with `NumberStyles.Integer`, and `Int32.ToString()`

  const Int32Min: int := -0x8000_0000
  const Int32Max: int := 0x7FFF_FFFF

  predicate IsDigit(c: char) {
    '0' <= c <= '9'
  }

  predicate AllDigits(d: string) {
    forall i :: 0 <= i < |d| ==> IsDigit(d[i])
  }

  function DigitsValue(d: string): nat
    requires AllDigits(d)
    decreases |d|
  {
    if |d| == 0 then 0
    else DigitsValue(d[..|d| - 1]) * 10 + (d[|d| - 1] as int - '0' as int)
  }

  /** Leading and trailing white space, an optional sign, one or more ASCII
      digits; values outside the 32-bit range are an overflow (null). */
  function ParseInt32(s: string): (r: Option<int>)
    ensures r.Some? ==> Int32Min <= r.value <= Int32Max
  {
    var t := TrimEnd(TrimStart(s, IsNumberWhiteSpace), IsNumberWhiteSpace);
    var signed := |t| > 0 && (t[0] == '-' || t[0] == '+');
    var digits := if signed then t[1..] else t;
    if |digits| == 0 || !AllDigits(digits) then None
    else
      var v: int := if signed && t[0] == '-' then -(DigitsValue(digits) as int) else DigitsValue(digits);
      if Int32Min <= v <= Int32Max then Some(v) else None
  }

  function NatDigits(n: nat): (d: string)
    decreases n
  {
    if n < 10 then [('0' as int + n) as char]
    else NatDigits(n / 10) + [('0' as int + n % 10) as char]
  }

  /** `Int32.ToString()` with the invariant culture's minus sign. */
  function DecimalString(n: int): string {
    if n < 0 then "-" + NatDigits(-n) else NatDigits(n)
  }

  lemma {:induction false} NatDigitsValue(n: nat)
    ensures |NatDigits(n)| >= 1 && AllDigits(NatDigits(n)) && NatDigits(n)[0] != '-' && NatDigits(n)[0] != '+'
    ensures DigitsValue(NatDigits(n)) == n
    decreases n
  {
    if n >= 10 {
      NatDigitsValue(n / 10);
      var d := NatDigits(n);
      assert d[..|d| - 1] == NatDigits(n / 10);
    }
  }

  /** Formatting a 32-bit integer and parsing it back gives the integer. */
  lemma ParseDecimalString(n: int)
    requires Int32Min <= n <= Int32Max
    ensures ParseInt32(DecimalString(n)) == Some(n)
  {
    var d := NatDigits(if n < 0 then -n else n);
    NatDigitsValue(if n < 0 then -n else n);
    var s := DecimalString(n);
    TrimKeeps(s, IsNumberWhiteSpace);
    if n < 0 {
      assert s[1..] == d;
    }
  }

  // ---------------------------------------------------------------------
  // Booleans: `Boolean.Parse` and `Boolean.ToString()`

  /** "True" or "False" in any case, surrounded by any white space. */
  function ParseBoolean(s: string): (r: Option<bool>)
    ensures r.Some? ==> EqualsIgnoreCase(Trim(s), BooleanString(r.value))
  {
    var t := Trim(s);
    if EqualsIgnoreCase(t, "True") then Some(true)
    else if EqualsIgnoreCase(t, "False") then Some(false)
    else None
  }

  function BooleanString(b: bool): string {
    if b then "True" else "False"
  }

  /** Formatting a Boolean and parsing it back gives the Boolean. */
  lemma ParseBooleanString(b: bool)
    ensures ParseBoolean(BooleanString(b)) == Some(b)
  {
    var s := BooleanString(b);
    TrimKeeps(s, IsWhiteSpace);
    if !b {
      assert ToLower(s) != ToLower("True") by { assert ToLower(s)[0] == 'f'; }
    }
  }
}
