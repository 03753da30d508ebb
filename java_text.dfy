/**
 * The pieces of the Java standard library that the application's core leans
 * on, written out: 32-bit int arithmetic, Integer.parseInt, String.valueOf(int),
 * String.trim, String.split with a literal separator and Boolean.parseBoolean.
 */
module JavaText {

  datatype Option<+T> = None | Some(value: T)

  // ---------------------------------------------------------------------------
  // 32-bit int arithmetic
  // ---------------------------------------------------------------------------

  const MinInt: int := -0x8000_0000
  const MaxInt: int := 0x7fff_ffff
  const Modulus: int := 0x1_0000_0000

  predicate IsInt32(x: int) {
    MinInt <= x <= MaxInt
  }

  /** The int that Java's wrapping + and * leave behind for the exact value x. */
  function Wrap32(x: int): (r: int)
    ensures IsInt32(r)
    ensures IsInt32(x) ==> r == x
    ensures (x - r) % Modulus == 0
  {
    (x - MinInt) % Modulus + MinInt
  }

  /** Wrapping after every step of a sum is the same as wrapping once at the end. */
  lemma WrapAdd(a: int, b: int)
    ensures Wrap32(Wrap32(a) + b) == Wrap32(a + b)
  {
    var q := (a - MinInt) / Modulus;
    assert Wrap32(a) == a - q * Modulus;
    assert Wrap32(a) + b - MinInt == (a + b - MinInt) - q * Modulus;
    ModShift(a + b - MinInt, q);
  }

  lemma ModShift(x: int, q: int)
    ensures (x - q * Modulus) % Modulus == x % Modulus
  {
    var y := x - q * Modulus;
    assert y == (x / Modulus - q) * Modulus + x % Modulus;
    assert 0 <= x % Modulus < Modulus;
  }

  /** Java's int division rounds toward zero, unlike Dafny's. */
  function JavaDiv(a: int, b: int): (q: int)
    requires b > 0
    ensures a >= 0 ==> q * b <= a < q * b + b
    ensures a < 0 ==> q * b - b < a <= q * b
  {
    if a >= 0 then a / b else -((-a) / b)
  }

  /** Java's %: the remainder carries the sign of the dividend. */
  function JavaRem(a: int, b: int): (r: int)
    requires b > 0
    ensures JavaDiv(a, b) * b + r == a
    ensures a >= 0 ==> 0 <= r < b
    ensures a < 0 ==> -b < r <= 0
  {
    a - JavaDiv(a, b) * b
  }

  // ---------------------------------------------------------------------------
  // Decimal digits: Integer.parseInt and String.valueOf(int)
  // ---------------------------------------------------------------------------

  predicate IsDigit(c: char) {
    '0' <= c <= '9'
  }

  predicate AllDigits(s: string) {
    forall i :: 0 <= i < |s| ==> IsDigit(s[i])
  }

  function DigitValue(c: char): nat
    requires IsDigit(c)
  {
    c as int - '0' as int
  }

  function DigitChar(d: nat): (c: char)
    requires d < 10
    ensures IsDigit(c) && DigitValue(c) == d
  {
    ('0' as int + d) as char
  }

  /** The value of a run of decimal digits, read most significant first. */
  function DigitsValue(s: string): nat
    requires AllDigits(s)
  {
    if s == [] then 0 else DigitsValue(s[..|s| - 1]) * 10 + DigitValue(s[|s| - 1])
  }

  /** The value of a non-empty run of ASCII digits; None when s is empty or holds anything else. */
  function ReadDigits(s: string): Option<nat> {
    if s == [] || !IsDigit(s[|s| - 1]) then None
    else if |s| == 1 then Some(DigitValue(s[0]))
    else
      var front := ReadDigits(s[..|s| - 1]);
      if front.None? then None else Some(front.value * 10 + DigitValue(s[|s| - 1]))
  }

  /** A text is all digits exactly when its front is and its last char is one. */
  lemma AllDigitsSnoc(s: string)
    requires s != []
    ensures AllDigits(s) <==> AllDigits(s[..|s| - 1]) && IsDigit(s[|s| - 1])
  {
    var front := s[..|s| - 1];
    assert forall i :: 0 <= i < |front| ==> front[i] == s[i];
  }

  /** Reading digits succeeds exactly on non-empty runs of digits, with their decimal value. */
  lemma {:induction false} ReadDigitsValue(s: string)
    ensures ReadDigits(s) == if s != [] && AllDigits(s) then Some(DigitsValue(s)) else None
  {
    if s != [] {
      AllDigitsSnoc(s);
      var front := s[..|s| - 1];
      if IsDigit(s[|s| - 1]) {
        if |s| == 1 {
          assert front == [];
        } else {
          ReadDigitsValue(front);
        }
      }
    }
  }

  /**
   * Integer.parseInt(s) in radix 10: an optional '+' or '-', then at least one
   * ASCII digit and nothing else (no blanks are skipped), and the value must be
   * a 32-bit int. None stands for NumberFormatException.
   */
  function ParseInt(s: string): Option<int> {
    if s == [] then None
    else
      var negative := s[0] == '-';
      var digits := ReadDigits(if s[0] == '-' || s[0] == '+' then s[1..] else s);
      if digits.None? then None
      else
        var v: int := if negative then -(digits.value as int) else digits.value as int;
        if IsInt32(v) then Some(v) else None
  }

  /** A parsed int fits in 32 bits and carries the sign its text shows. */
  lemma ParseIntShape(s: string)
    ensures var r := ParseInt(s);
            && (r.Some? ==> IsInt32(r.value))
            && (r.Some? ==> s != [] && (IsDigit(s[0]) || s[0] == '-' || s[0] == '+'))
            && (r.Some? && s[0] == '-' ==> r.value <= 0)
            && (r.Some? && s[0] != '-' ==> r.value >= 0)
  {
    if s != [] && !(s[0] == '-' || s[0] == '+') {
      ReadDigitsValue(s);
    }
  }

  /** The shortest decimal numeral of n. */
  function NatToString(n: nat): string {
    if n < 10 then [DigitChar(n)] else NatToString(n / 10) + [DigitChar(n % 10)]
  }

  /** The numeral of n is a non-empty run of digits, worth n, without a leading zero unless n is 0. */
  lemma {:induction false} NatToStringShape(n: nat)
    ensures var s := NatToString(n);
            && s != [] && AllDigits(s) && DigitsValue(s) == n
            && (n > 0 ==> s[0] != '0')
  {
    if n >= 10 {
      NatToStringShape(n / 10);
      var prefix := NatToString(n / 10);
      var s := NatToString(n);
      assert s[..|s| - 1] == prefix;
      assert s[0] == prefix[0];
    }
  }

  /** String.valueOf(int) and the int operand of a string concatenation. */
  function IntToString(n: int): string {
    if n < 0 then "-" + NatToString(-n) else NatToString(n)
  }

  /** The decimal text of an int is non-empty and holds only digits and '-'. */
  lemma IntToStringShape(n: int)
    ensures var s := IntToString(n);
            s != [] && forall i :: 0 <= i < |s| ==> IsDigit(s[i]) || s[i] == '-'
  {
    if n < 0 {
      var t := NatToString(-n);
      NatToStringShape(-n);
      var s := IntToString(n);
      assert s == "-" + t;
      forall i | 0 <= i < |s|
        ensures IsDigit(s[i]) || s[i] == '-'
      {
        if i > 0 {
          assert s[i] == t[i - 1];
        }
      }
    } else {
      NatToStringShape(n);
    }
  }

  /** Every 32-bit int is read back by parseInt from its own decimal text. */
  lemma ParseIntToString(n: int)
    requires IsInt32(n)
    ensures ParseInt(IntToString(n)) == Some(n)
  {
    var s := IntToString(n);
    if n < 0 {
      NatToStringShape(-n);
      assert s[1..] == NatToString(-n);
      ReadDigitsValue(s[1..]);
    } else {
      NatToStringShape(n);
      assert !(s[0] == '-' || s[0] == '+');
      ReadDigitsValue(s);
    }
  }

  /** Distinct naturals have distinct numerals. */
  lemma NatToStringInjective(a: nat, b: nat)
    requires NatToString(a) == NatToString(b)
    ensures a == b
  {
    NatToStringShape(a);
    NatToStringShape(b);
  }

  /** Distinct ints have distinct decimal texts. */
  lemma IntToStringInjective(m: int, n: int)
    requires IntToString(m) == IntToString(n)
    ensures m == n
  {
    var s := IntToString(m);
    if m < 0 && n < 0 {
      assert NatToString(-m) == s[1..] == NatToString(-n);
      NatToStringInjective(-m, -n);
    } else if m >= 0 && n >= 0 {
      NatToStringInjective(m, n);
    } else if m < 0 {
      NatToStringShape(n);
    } else {
      NatToStringShape(m);
    }
  }

  // ---------------------------------------------------------------------------
  // String.trim
  // ---------------------------------------------------------------------------

  /** String.trim removes every char whose code is at most that of ' '. */
  predicate IsBlank(c: char) {
    c <= ' '
  }

  /** String.trim: s without its leading and trailing blanks. */
  function Trim(s: string): string
    decreases |s|
  {
    if s != [] && IsBlank(s[0]) then Trim(s[1..])
    else if s != [] && IsBlank(s[|s| - 1]) then Trim(s[..|s| - 1])
    else s
  }

  /**
   * What String.trim promises of its result: it neither starts nor ends with a
   * blank, and it is empty exactly when s is all blanks.
   */
  lemma {:induction false} TrimShape(s: string)
    ensures var r := Trim(s);
            && (r == [] || (!IsBlank(r[0]) && !IsBlank(r[|r| - 1])))
            && (r == [] <==> forall i :: 0 <= i < |s| ==> IsBlank(s[i]))
    decreases |s|
  {
    if s != [] && IsBlank(s[0]) {
      TrimShape(s[1..]);
      if forall k :: 0 <= k < |s[1..]| ==> IsBlank(s[1..][k]) {
        forall k | 0 <= k < |s| ensures IsBlank(s[k]) {
          if k > 0 { assert s[k] == s[1..][k - 1]; }
        }
      }
    } else if s != [] && IsBlank(s[|s| - 1]) {
      TrimShape(s[..|s| - 1]);
    }
  }

  /** r is s[i..j], and every character of s before i and from j on is a blank. */
  predicate CutAt(s: string, r: string, i: int, j: int) {
    && 0 <= i <= j <= |s| && r == s[i..j]
    && (forall k :: 0 <= k < i ==> IsBlank(s[k]))
    && (forall k :: j <= k < |s| ==> IsBlank(s[k]))
  }

  lemma CutAtBlankFirst(s: string, r: string, i: int, j: int)
    requires s != [] && IsBlank(s[0]) && CutAt(s[1..], r, i, j)
    ensures CutAt(s, r, i + 1, j + 1)
  {
    assert forall k :: 0 < k < |s| ==> s[k] == s[1..][k - 1];
  }

  lemma CutAtBlankLast(s: string, r: string, i: int, j: int)
    requires s != [] && IsBlank(s[|s| - 1]) && CutAt(s[..|s| - 1], r, i, j)
    ensures CutAt(s, r, i, j)
  {
    assert forall k :: 0 <= k < |s| - 1 ==> s[k] == s[..|s| - 1][k];
  }

  /** Trim(s) is s with a run of blanks cut from each end, and nothing else. */
  lemma {:induction false} TrimCutsBlanks(s: string)
    ensures exists i, j :: CutAt(s, Trim(s), i, j)
    decreases |s|
  {
    if s != [] && IsBlank(s[0]) {
      TrimCutsBlanks(s[1..]);
      var i, j :| CutAt(s[1..], Trim(s[1..]), i, j);
      CutAtBlankFirst(s, Trim(s), i, j);
    } else if s != [] && IsBlank(s[|s| - 1]) {
      TrimCutsBlanks(s[..|s| - 1]);
      var i, j :| CutAt(s[..|s| - 1], Trim(s[..|s| - 1]), i, j);
      CutAtBlankLast(s, Trim(s), i, j);
    } else {
      assert CutAt(s, Trim(s), 0, |s|);
    }
  }

  // ---------------------------------------------------------------------------
  // String.split with a literal separator
  // ---------------------------------------------------------------------------

  predicate StartsWith(s: string, p: string) {
    |p| <= |s| && s[..|p|] == p
  }

  /** p occurs somewhere in s. */
  predicate Contains(s: string, p: string)
    decreases |s|
  {
    StartsWith(s, p) || (s != [] && Contains(s[1..], p))
  }

  /** The pieces between occurrences of sep, found from the left without overlap. */
  function Split(s: string, sep: string): (parts: seq<string>)
    requires sep != []
    ensures parts != []
    decreases |s|
  {
    if StartsWith(s, sep) then [""] + Split(s[|sep|..], sep)
    else if s == [] then [""]
    else
      var rest := Split(s[1..], sep);
      [[s[0]] + rest[0]] + rest[1..]
  }

  function Join(parts: seq<string>, sep: string): string
    requires parts != []
  {
    if |parts| == 1 then parts[0] else parts[0] + sep + Join(parts[1..], sep)
  }

  /** Putting a char in front of the first piece puts it in front of the joined text. */
  lemma JoinConsHead(c: char, rest: seq<string>, sep: string)
    requires rest != []
    ensures Join([[c] + rest[0]] + rest[1..], sep) == [c] + Join(rest, sep)
  {
    var parts := [[c] + rest[0]] + rest[1..];
    if |rest| > 1 {
      assert parts[1..] == rest[1..];
    }
  }

  /** Split loses nothing: joining the pieces with the separator restores the text. */
  lemma {:induction false} SplitJoin(s: string, sep: string)
    requires sep != []
    ensures Join(Split(s, sep), sep) == s
    decreases |s|
  {
    if StartsWith(s, sep) {
      SplitJoin(s[|sep|..], sep);
      assert s == sep + s[|sep|..];
    } else if s != [] {
      SplitJoin(s[1..], sep);
      JoinConsHead(s[0], Split(s[1..], sep), sep);
      assert s == [s[0]] + s[1..];
    }
  }

  function DropTrailingEmpty(parts: seq<string>): (r: seq<string>)
    ensures |r| <= |parts|
  {
    if parts == [] then []
    else if parts[|parts| - 1] == "" then DropTrailingEmpty(parts[..|parts| - 1])
    else parts
  }

  /**
   * Java's s.split(sep) for a separator without regular-expression meta
   * characters: a text without the separator is returned whole; otherwise the
   * pieces, less the empty ones at the end.
   */
  function JavaSplit(s: string, sep: string): seq<string>
    requires sep != []
  {
    var parts := Split(s, sep);
    if |parts| == 1 then parts else DropTrailingEmpty(parts)
  }

  /** A text that does not contain the separator is one piece. */
  lemma {:induction false} SplitAbsent(s: string, sep: string)
    requires sep != [] && !Contains(s, sep)
    ensures Split(s, sep) == [s]
    decreases |s|
  {
    if s != [] {
      SplitAbsent(s[1..], sep);
      assert [s[0]] + s[1..] == s;
    }
  }

  /**
   * For a two-character separator whose characters differ, the first piece of
   * a + sep + rest is a, when a itself does not contain sep.
   */
  lemma {:induction false} SplitAfter(a: string, sep: string, rest: string)
    requires |sep| == 2 && sep[0] != sep[1]
    requires !Contains(a, sep)
    ensures Split(a + sep + rest, sep) == [a] + Split(rest, sep)
    decreases |a|
  {
    var s := a + sep + rest;
    if a == [] {
      assert s == sep + rest;
      assert s[|sep|..] == rest;
    } else {
      if |a| >= 2 {
        assert s[..2] == a[..2];
        assert !StartsWith(a, sep);
      } else {
        assert s[..2] == [a[0], sep[0]];
      }
      assert !StartsWith(s, sep);
      assert s[1..] == a[1..] + sep + rest;
      SplitAfter(a[1..], sep, rest);
      assert [a[0]] + a[1..] == a;
    }
  }

  /** A two-character pattern in a + b lies in a, in b, or across the seam. */
  lemma {:induction false} ContainsConcat(a: string, b: string, p: string)
    requires |p| == 2 && Contains(a + b, p)
    ensures Contains(a, p) || Contains(b, p) || (a != [] && b != [] && a[|a| - 1] == p[0] && b[0] == p[1])
    decreases |a|
  {
    if a == [] {
      assert a + b == b;
    } else {
      if StartsWith(a + b, p) {
        if |a| == 1 {
          assert (a + b)[..2] == [a[0], b[0]];
        } else {
          assert (a + b)[..2] == a[..2];
          assert StartsWith(a, p);
        }
      } else {
        assert (a + b)[1..] == a[1..] + b;
        ContainsConcat(a[1..], b, p);
      }
    }
  }

  /** A pattern can only occur where its first character does. */
  lemma {:induction false} ContainsHasHead(s: string, p: string)
    requires p != [] && Contains(s, p)
    ensures p[0] in s
    decreases |s|
  {
    if StartsWith(s, p) {
      assert s[0] == p[0];
    } else {
      ContainsHasHead(s[1..], p);
    }
  }

  // ---------------------------------------------------------------------------
  // Boolean.parseBoolean
  // ---------------------------------------------------------------------------

  function ToLowerAscii(c: char): char {
    if 'A' <= c <= 'Z' then (c as int - 'A' as int + 'a' as int) as char else c
  }

  /**
   * Boolean.parseBoolean: true exactly for "true" in any mix of cases. No char
   * outside ASCII folds onto a letter of "true", so ASCII folding is exact here.
   */
  function ParseBoolean(s: string): (b: bool)
    ensures b ==> |s| == 4
  {
    |s| == 4 && ToLowerAscii(s[0]) == 't' && ToLowerAscii(s[1]) == 'r'
    && ToLowerAscii(s[2]) == 'u' && ToLowerAscii(s[3]) == 'e'
  }

  /** The text Java prints for a boolean. */
  function BoolText(b: bool): string {
    if b then "true" else "false"
  }

  /** s with every ASCII capital letter turned into its lower-case letter. */
  function LowerAscii(s: string): (t: string)
    ensures |t| == |s|
    ensures forall i :: 0 <= i < |s| ==> t[i] == ToLowerAscii(s[i])
  {
    if s == [] then [] else [ToLowerAscii(s[0])] + LowerAscii(s[1..])
  }

  /** parseBoolean reads back what Java prints for a boolean. */
  lemma ParseBooleanOfBoolText(b: bool)
    ensures ParseBoolean(BoolText(b)) == b
  {
  }

  /** parseBoolean ignores case: it is true exactly when s, in lower case, is "true". */
  lemma ParseBooleanIgnoresCase(s: string)
    ensures ParseBoolean(s) <==> LowerAscii(s) == "true"
    ensures ParseBoolean(s) == ParseBoolean(LowerAscii(s))
  {
    var t := LowerAscii(s);
    if ParseBoolean(s) {
      assert t == "true";
    }
    if t == "true" {
      assert t[0] == 't' && t[1] == 'r' && t[2] == 'u' && t[3] == 'e';
    }
  }
}
