/**
 * The JavaScript string primitives the scraper relies on, written out:
 * `toLowerCase`, `trim`, `split`, `includes`, `parseInt` and `Number`.
 */
module JsText {
  import opened Wrappers

  /** The WhiteSpace and LineTerminator code points of ECMAScript: what `\s`, `trim()` and `Number()` skip. */
  predicate IsWhite(c: char) {
    || c == '\t' || c == '\n' || c == '\U{B}' || c == '\U{C}' || c == '\r' || c == ' '
    || c == '\U{A0}' || c == '\U{1680}' || ('\U{2000}' <= c <= '\U{200A}')
    || c == '\U{2028}' || c == '\U{2029}' || c == '\U{202F}' || c == '\U{205F}'
    || c == '\U{3000}' || c == '\U{FEFF}'
  }

  /** Capital letters of Basic Latin and of Latin-1 Supplement (the multiplication sign excepted). */
  predicate IsUpper(c: char) {
    ('A' <= c <= 'Z') || ('\U{C0}' <= c <= '\U{DE}' && c != '\U{D7}')
  }

  /** `toLowerCase` on one character: each of those capitals maps 32 code points up. */
  function LowerChar(c: char): (r: char)
    ensures !IsUpper(r)
    ensures !IsUpper(c) ==> r == c
  {
    if IsUpper(c) then (c as int + 32) as char else c
  }

  /** `s.toLowerCase()`, character by character. */
  function Lower(s: string): (r: string)
    ensures |r| == |s|
    ensures forall i :: 0 <= i < |s| ==> r[i] == LowerChar(s[i])
  {
    seq(|s|, i requires 0 <= i < |s| => LowerChar(s[i]))
  }

  /** Lower-casing twice is lower-casing once. */
  lemma LowerIdempotent(s: string)
    ensures Lower(Lower(s)) == Lower(s)
  {
    var once := Lower(s);
    assert forall i :: 0 <= i < |s| ==> Lower(once)[i] == once[i];
  }

  predicate StartsWith(s: string, prefix: string) {
    |prefix| <= |s| && s[..|prefix|] == prefix
  }

  /** `s.includes(k)`: k starts at some position of s. */
  predicate Includes(s: string, k: string)
    ensures Includes(s, k) ==> |k| <= |s|
    decreases |s|
  {
    StartsWith(s, k) || (s != [] && Includes(s[1..], k))
  }

  ghost predicate OccursAt(s: string, k: string, i: int) {
    0 <= i && i + |k| <= |s| && s[i..i + |k|] == k
  }

  /** `Includes` finds exactly the occurrences of k in s. */
  lemma {:induction false} IncludesIff(s: string, k: string)
    ensures Includes(s, k) <==> exists i :: OccursAt(s, k, i)
    decreases |s|
  {
    if s != [] {
      IncludesIff(s[1..], k);
      if Includes(s, k) {
        if StartsWith(s, k) {
          assert OccursAt(s, k, 0);
        } else {
          var i :| OccursAt(s[1..], k, i);
          assert s[1..][i..i + |k|] == s[i + 1..i + 1 + |k|];
          assert OccursAt(s, k, i + 1);
        }
      }
      if i :| OccursAt(s, k, i) {
        if i > 0 {
          assert s[1..][i - 1..i - 1 + |k|] == s[i..i + |k|];
          assert OccursAt(s[1..], k, i - 1);
        } else {
          assert StartsWith(s, k);
        }
      }
    } else if Includes(s, k) {
      assert OccursAt(s, k, 0);
    }
  }

  /** `s.trimStart()`: the longest suffix of s not starting with white space. */
  function TrimStart(s: string): (r: string)
    ensures |r| <= |s| && r == s[|s| - |r|..]
    ensures r == [] || !IsWhite(r[0])
    ensures forall i :: 0 <= i < |s| - |r| ==> IsWhite(s[i])
  {
    if s != [] && IsWhite(s[0]) then
      var r := TrimStart(s[1..]);
      assert forall i :: 1 <= i < |s| - |r| ==> s[i] == s[1..][i - 1];
      r
    else s
  }

  /** `s.trimEnd()`: the longest prefix of s not ending with white space. */
  function TrimEnd(s: string): (r: string)
    ensures |r| <= |s| && r == s[..|r|]
    ensures r == [] || !IsWhite(r[|r| - 1])
    ensures forall i :: |r| <= i < |s| ==> IsWhite(s[i])
  {
    if s != [] && IsWhite(s[|s| - 1]) then TrimEnd(s[..|s| - 1]) else s
  }

  /** `s.trim()`. */
  function Trim(s: string): (r: string)
    ensures |r| <= |s|
  {
    TrimEnd(TrimStart(s))
  }

  /** A string with no white space at either end is its own trim. */
  lemma TrimUntrimmed(s: string)
    requires s == [] || (!IsWhite(s[0]) && !IsWhite(s[|s| - 1]))
    ensures Trim(s) == s
  {
  }

  /** The separators of the pattern `/[\s,]+/`. */
  predicate IsFieldSeparator(c: char) {
    IsWhite(c) || c == ','
  }

  /** The characters of s that are not separators, in order. */
  function Squeeze(s: string): (r: string)
    ensures |r| <= |s|
  {
    if s == [] then [] else (if IsFieldSeparator(s[0]) then [] else [s[0]]) + Squeeze(s[1..])
  }

  /** s without its leading run of separators. */
  function DropSeparators(s: string): (r: string)
    ensures |r| <= |s| && r == s[|s| - |r|..]
    ensures r == [] || !IsFieldSeparator(r[0])
    ensures Squeeze(r) == Squeeze(s)
  {
    if s != [] && IsFieldSeparator(s[0]) then DropSeparators(s[1..]) else s
  }

  function Concat(fields: seq<string>): string {
    if fields == [] then [] else fields[0] + Concat(fields[1..])
  }

  /**
   * `s.split(/[\s,]+/)`: the pieces between maximal runs of separators. A run
   * at either end leaves an empty first or last piece, and the empty string
   * splits into one empty piece.
   */
  function SplitFields(s: string): (r: seq<string>)
    ensures |r| >= 1
    ensures forall f, c :: f in r && c in f ==> !IsFieldSeparator(c)
    decreases |s|
  {
    if s == [] then [[]]
    else if IsFieldSeparator(s[0]) then [[]] + SplitFields(DropSeparators(s))
    else
      var rest := SplitFields(s[1..]);
      [[s[0]] + rest[0]] + rest[1..]
  }

  predicate NoSeparators(s: string) {
    forall i :: 0 <= i < |s| ==> !IsFieldSeparator(s[i])
  }

  /** Pieces none of whose characters is a separator, taken one by one. */
  lemma FieldsHaveNoSeparators(r: seq<string>)
    requires forall f, c :: f in r && c in f ==> !IsFieldSeparator(c)
    ensures forall i :: 0 <= i < |r| ==> NoSeparators(r[i])
  {
    forall i | 0 <= i < |r| ensures NoSeparators(r[i]) {
      forall j | 0 <= j < |r[i]| ensures !IsFieldSeparator(r[i][j]) {
        assert r[i] in r && r[i][j] in r[i];
      }
    }
  }

  /** The pieces hold every non-separator character of s, in order. */
  lemma {:induction false} SplitFieldsConcat(s: string)
    ensures Concat(SplitFields(s)) == Squeeze(s)
    decreases |s|
  {
    if s != [] {
      if IsFieldSeparator(s[0]) {
        var d := DropSeparators(s);
        SplitFieldsConcat(d);
        assert Concat(SplitFields(s)) == [] + Concat(SplitFields(d));
      } else {
        var rest := SplitFields(s[1..]);
        SplitFieldsConcat(s[1..]);
        var r := SplitFields(s);
        assert r[1..] == rest[1..];
        assert Concat(rest) == rest[0] + Concat(rest[1..]);
        assert Concat(r) == ([s[0]] + rest[0]) + Concat(rest[1..]);
      }
    }
  }

  /** There is more than one piece exactly when s holds a separator. */
  lemma {:induction false} SplitFieldsSingle(s: string)
    ensures |SplitFields(s)| == 1 <==> NoSeparators(s)
    decreases |s|
  {
    if s != [] {
      if IsFieldSeparator(s[0]) {
        assert !NoSeparators(s);
      } else {
        SplitFieldsSingle(s[1..]);
        assert |SplitFields(s)| == |SplitFields(s[1..])|;
        if NoSeparators(s) {
          forall i | 0 <= i < |s[1..]| ensures !IsFieldSeparator(s[1..][i]) {
            assert s[1..][i] == s[i + 1];
          }
        }
        if NoSeparators(s[1..]) {
          forall i | 0 <= i < |s| ensures !IsFieldSeparator(s[i]) {
            if i > 0 {
              assert s[i] == s[1..][i - 1];
            }
          }
        }
      }
    }
  }

  /** A word without separators is a single field. */
  lemma SplitFieldsWord(w: string)
    requires NoSeparators(w)
    ensures SplitFields(w) == [w]
  {
    var r := SplitFields(w);
    SqueezeWord(w);
    SplitFieldsConcat(w);
    SplitFieldsSingle(w);
    assert r == [r[0]] && Concat(r) == r[0] + Concat([]);
  }

  lemma {:induction false} SqueezeWord(w: string)
    requires NoSeparators(w)
    ensures Squeeze(w) == w
  {
    if w != [] {
      SqueezeWord(w[1..]);
      assert [w[0]] + w[1..] == w;
    }
  }

  /** A non-empty run made only of separators. */
  predicate IsSeparatorRun(run: string) {
    run != [] && forall i :: 0 <= i < |run| ==> IsFieldSeparator(run[i])
  }

  /** Dropping the leading separators of a run followed by a non-separator leaves what follows the run. */
  lemma {:induction false} DropSeparatorRun(run: string, rest: string)
    requires forall i :: 0 <= i < |run| ==> IsFieldSeparator(run[i])
    requires rest == [] || !IsFieldSeparator(rest[0])
    ensures DropSeparators(run + rest) == rest
  {
    if run == [] {
      assert run + rest == rest;
    } else {
      assert (run + rest)[1..] == run[1..] + rest;
      DropSeparatorRun(run[1..], rest);
    }
  }

  /** A leading run of separators leaves an empty first piece, and the rest splits on its own. */
  lemma SplitFieldsLeadingRun(run: string, rest: string)
    requires IsSeparatorRun(run)
    requires rest == [] || !IsFieldSeparator(rest[0])
    ensures SplitFields(run + rest) == [[]] + SplitFields(rest)
  {
    assert (run + rest)[0] == run[0];
    DropSeparatorRun(run, rest);
  }

  /**
   * A word followed by a run of separators splits off as the first piece,
   * and the rest splits on its own: the whole run is one cut.
   */
  lemma {:induction false} SplitFieldsAtRun(w: string, run: string, rest: string)
    requires NoSeparators(w) && IsSeparatorRun(run)
    requires rest == [] || !IsFieldSeparator(rest[0])
    ensures SplitFields(w + run + rest) == [w] + SplitFields(rest)
    decreases |w|
  {
    var s := w + run + rest;
    if w == [] {
      assert s == run + rest;
      SplitFieldsLeadingRun(run, rest);
    } else {
      assert s[1..] == w[1..] + run + rest;
      SplitFieldsAtRun(w[1..], run, rest);
      assert [w[0]] + w[1..] == w;
    }
  }

  /** Two words separated by a run split into the two words. */
  lemma SplitFieldsTwo(a: string, run: string, b: string)
    requires NoSeparators(a) && NoSeparators(b) && b != []
    requires IsSeparatorRun(run)
    ensures SplitFields(a + run + b) == [a, b]
  {
    assert !IsFieldSeparator(b[0]);
    SplitFieldsWord(b);
    SplitFieldsAtRun(a, run, b);
  }

  /** Three words separated by two runs split into the three words. */
  lemma SplitFieldsThree(a: string, r1: string, b: string, r2: string, c: string)
    requires NoSeparators(a) && NoSeparators(b) && NoSeparators(c) && b != [] && c != []
    requires IsSeparatorRun(r1) && IsSeparatorRun(r2)
    ensures SplitFields(a + r1 + b + r2 + c) == [a, b, c]
  {
    var tail := b + r2 + c;
    GroupTail(a, r1, b, r2, c);
    SplitFieldsTwo(b, r2, c);
    SplitFieldsAtRun(a, r1, tail);
  }

  lemma GroupTail(a: string, r1: string, b: string, r2: string, c: string)
    requires b != []
    ensures a + r1 + b + r2 + c == a + r1 + (b + r2 + c)
    ensures (b + r2 + c)[0] == b[0]
  {
  }

  /** `s.split(sep)` for a one-character separator: every occurrence separates, empty pieces included. */
  function SplitOn(s: string, sep: char): (r: seq<string>)
    ensures |r| >= 1
    ensures forall f :: f in r ==> sep !in f
  {
    if s == [] then [[]]
    else if s[0] == sep then [[]] + SplitOn(s[1..], sep)
    else
      var rest := SplitOn(s[1..], sep);
      [[s[0]] + rest[0]] + rest[1..]
  }

  /** `fields.join(sep)`. */
  function Join(fields: seq<string>, sep: char): string {
    if fields == [] then []
    else if |fields| == 1 then fields[0]
    else fields[0] + [sep] + Join(fields[1..], sep)
  }

  /** A piece free of the separator splits off whole at the first separator. */
  lemma {:induction false} SplitOnFirst(a: string, sep: char, rest: string)
    requires sep !in a
    ensures SplitOn(a + [sep] + rest, sep) == [a] + SplitOn(rest, sep)
    ensures SplitOn(a, sep) == [a]
    decreases |a|
  {
    if a != [] {
      SplitOnFirst(a[1..], sep, rest);
      assert (a + [sep] + rest)[1..] == a[1..] + [sep] + rest;
      assert [a[0]] + a[1..] == a;
    } else {
      assert a + [sep] + rest == [sep] + rest;
    }
  }

  /** Splitting undoes joining, when no piece contains the separator. */
  lemma {:induction false} SplitOnJoin(fields: seq<string>, sep: char)
    requires |fields| >= 1
    requires forall f :: f in fields ==> sep !in f
    ensures SplitOn(Join(fields, sep), sep) == fields
  {
    if |fields| == 1 {
      SplitOnFirst(fields[0], sep, []);
    } else {
      SplitOnJoin(fields[1..], sep);
      SplitOnFirst(fields[0], sep, Join(fields[1..], sep));
    }
  }

  /** The value of c as a digit of bases up to 16, and 16 for any other character. */
  function DigitValue(c: char): (v: nat)
    ensures v <= 16
  {
    if '0' <= c <= '9' then c as int - '0' as int
    else if 'a' <= c <= 'f' then c as int - 'a' as int + 10
    else if 'A' <= c <= 'F' then c as int - 'A' as int + 10
    else 16
  }

  predicate IsDigitIn(c: char, radix: nat) {
    DigitValue(c) < radix
  }

  predicate AllDigitsIn(s: string, radix: nat) {
    forall i :: 0 <= i < |s| ==> IsDigitIn(s[i], radix)
  }

  /** The leading run of radix digits of s. */
  function LeadingDigits(s: string, radix: nat): (r: string)
    ensures |r| <= |s| && r == s[..|r|]
    ensures AllDigitsIn(r, radix)
    ensures |r| < |s| ==> !IsDigitIn(s[|r|], radix)
  {
    if s != [] && IsDigitIn(s[0], radix) then [s[0]] + LeadingDigits(s[1..], radix) else []
  }

  /** The number a digit string denotes, most significant digit first. */
  function ValueIn(digits: string, radix: nat): nat {
    if digits == [] then 0
    else ValueIn(digits[..|digits| - 1], radix) * radix + DigitValue(digits[|digits| - 1])
  }

  /**
   * `parseInt(s, 10)` when detectHex is false and `parseInt(s)` when it is
   * true: leading white space and one sign are skipped, then (for `parseInt(s)`
   * only) a `0x`/`0X` prefix switches to base 16, and the longest run of digits
   * that follows is read. None is NaN: no digit at all.
   */
  function ParseInt(s: string, detectHex: bool): (r: Option<int>)
    ensures TrimStart(s) == [] ==> r.None?
    ensures r.Some? && r.value < 0 ==> TrimStart(s)[0] == '-'
  {
    var t := TrimStart(s);
    var negative := t != [] && t[0] == '-';
    var unsigned := if t != [] && (t[0] == '-' || t[0] == '+') then t[1..] else t;
    var hex := detectHex && |unsigned| >= 2 && unsigned[0] == '0' && (unsigned[1] == 'x' || unsigned[1] == 'X');
    var radix := if hex then 16 else 10;
    var digits := LeadingDigits(if hex then unsigned[2..] else unsigned, radix);
    var magnitude: int := ValueIn(digits, radix);
    if digits == [] then None
    else Some(if negative then -magnitude else magnitude)
  }

  /** The radix a `0b`, `0o` or `0x` literal prefix selects in `Number`; 0 for any other character. */
  function PrefixRadix(c: char): nat {
    if c == 'b' || c == 'B' then 2
    else if c == 'o' || c == 'O' then 8
    else if c == 'x' || c == 'X' then 16
    else 0
  }

  /** The first index of c1 or c2 in s, and |s| when neither occurs. */
  function Find(s: string, c1: char, c2: char): (i: nat)
    ensures i <= |s|
    ensures forall j :: 0 <= j < i ==> s[j] != c1 && s[j] != c2
    ensures i < |s| ==> s[i] == c1 || s[i] == c2
  {
    if s == [] || s[0] == c1 || s[0] == c2 then 0 else 1 + Find(s[1..], c1, c2)
  }

  /** x times ten to the power e, one factor of ten at a time. */
  function Scale(x: real, e: int): (r: real)
    ensures 0.0 <= x ==> 0.0 <= r
    decreases if e < 0 then -e else e
  {
    if e == 0 then x
    else if e > 0 then Scale(x * 10.0, e - 1)
    else Scale(x / 10.0, e + 1)
  }

  /** The digits of a decimal literal around its optional point: "12.5", "12.", ".5", "12". */
  function MantissaValue(m: string): (r: Option<real>)
    ensures r.Some? ==> 0.0 <= r.value
  {
    var point := Find(m, '.', '.');
    var whole := m[..point];
    var fraction := if point < |m| then m[point + 1..] else [];
    if (whole != [] || fraction != []) && AllDigitsIn(whole, 10) && AllDigitsIn(fraction, 10) then
      Some(DecimalValue(whole, fraction))
    else None
  }

  /** The value of the decimal digits whole, a point, and the digits fraction. */
  function DecimalValue(whole: string, fraction: string): real {
    ValueIn(whole, 10) as real + FractionValue(fraction)
  }

  /** The value of the digits after a decimal point: "5" is 0.5, "25" is 0.25. */
  function FractionValue(fraction: string): (r: real)
    ensures 0.0 <= r
  {
    if fraction == [] then 0.0 else (DigitValue(fraction[0]) as real + FractionValue(fraction[1..])) / 10.0
  }

  /** The exponent after `e` or `E`: an optional sign and at least one decimal digit. */
  function ExponentValue(x: string): Option<int> {
    var negative := x != [] && x[0] == '-';
    var digits := if x != [] && (x[0] == '-' || x[0] == '+') then x[1..] else x;
    var magnitude: int := ValueIn(digits, 10);
    if digits != [] && AllDigitsIn(digits, 10) then Some(if negative then -magnitude else magnitude)
    else None
  }

  /** An unsigned decimal literal: a mantissa and an optional exponent part. */
  function UnsignedDecimal(u: string): (r: Option<real>)
    ensures r.Some? ==> 0.0 <= r.value
  {
    var e := Find(u, 'e', 'E');
    var mantissa := MantissaValue(u[..e]);
    var exponent := if e < |u| then ExponentValue(u[e + 1..]) else Some(0);
    if mantissa.None? || exponent.None? then None else Some(Scale(mantissa.value, exponent.value))
  }

  /**
   * `Number(s)` when that is finite, as the exact value of the literal: white
   * space around it is ignored, the empty string is 0, a signed decimal
   * literal may have a fraction and an exponent, and an unsigned `0b`/`0o`/`0x`
   * literal is read in full. None stands for NaN and for the literal
   * "Infinity"; a literal too large for a double keeps its exact value here,
   * where JavaScript reads it as Infinity.
   */
  function NumberValue(s: string): (r: Option<real>)
    ensures Trim(s) == [] ==> r == Some(0.0)
    ensures r.Some? && r.value < 0.0 ==> Trim(s)[0] == '-'
  {
    var t := Trim(s);
    if t == [] then Some(0.0)
    else if |t| >= 2 && t[0] == '0' && PrefixRadix(t[1]) != 0 then
      var radix := PrefixRadix(t[1]);
      if t[2..] != [] && AllDigitsIn(t[2..], radix) then Some(ValueIn(t[2..], radix) as real) else None
    else
      var negative := t[0] == '-';
      var magnitude := UnsignedDecimal(if t[0] == '-' || t[0] == '+' then t[1..] else t);
      if magnitude.None? then None else Some(if negative then -magnitude.value else magnitude.value)
  }

  /** `ToIntegerOrInfinity` on a finite value: the fraction is cut off, toward zero. */
  function Trunc(x: real): (n: int)
    ensures 0.0 <= x ==> n as real <= x < n as real + 1.0
    ensures x < 0.0 ==> n as real - 1.0 < x <= n as real
    ensures -1.0 < x - n as real < 1.0
    ensures 0.0 <= x ==> 0 <= n
  {
    if x >= 0.0 then x.Floor else -((-x).Floor)
  }

  /** A run of decimal digits, followed by anything that is not a digit, reads as its value in base 10. */
  lemma ParseIntDecimalPrefix(digits: string, rest: string)
    requires digits != [] && AllDigitsIn(digits, 10)
    requires rest == [] || !IsDigitIn(rest[0], 10)
    ensures ParseInt(digits + rest, false) == Some(ValueIn(digits, 10))
  {
    var s := digits + rest;
    assert !IsWhite(s[0]) && s[0] != '-' && s[0] != '+';
    assert TrimStart(s) == s;
    LeadingDigitsOf(digits, rest, 10);
  }

  /** A string of decimal digits alone reads as its value in base 10, whether or not a hex prefix is looked for. */
  lemma ParseIntOfDigits(digits: string, detectHex: bool)
    ensures digits != [] && AllDigitsIn(digits, 10) ==> ParseInt(digits, detectHex) == Some(ValueIn(digits, 10))
  {
    if digits != [] && AllDigitsIn(digits, 10) {
      ParseIntDecimalPrefix(digits, []);
      assert digits + [] == digits;
      DecimalDigit(digits[0]);
      assert TrimStart(digits) == digits;
      if |digits| >= 2 {
        DecimalDigit(digits[1]);
      }
      assert ParseInt(digits, true) == ParseInt(digits, false);
    }
  }

  lemma {:induction false} LeadingDigitsOf(digits: string, rest: string, radix: nat)
    requires AllDigitsIn(digits, radix)
    requires rest == [] || !IsDigitIn(rest[0], radix)
    ensures LeadingDigits(digits + rest, radix) == digits
    decreases |digits|
  {
    if digits != [] {
      assert (digits + rest)[1..] == digits[1..] + rest;
      LeadingDigitsOf(digits[1..], rest, radix);
    } else {
      assert digits + rest == rest;
    }
  }

  /** A non-empty run of decimal digits is the number it spells. */
  lemma NumberValueOfDigits(digits: string)
    requires digits != [] && AllDigitsIn(digits, 10)
    ensures NumberValue(digits) == Some(ValueIn(digits, 10) as real)
  {
    DecimalDigit(digits[0]);
    DecimalDigit(digits[|digits| - 1]);
    if |digits| >= 2 {
      DecimalDigit(digits[1]);
    }
    NumberValueOfUnsigned(digits);
    UnsignedOfDigits(digits);
  }

  /** The unsigned literal made of decimal digits alone is their value. */
  lemma UnsignedOfDigits(digits: string)
    requires digits != [] && AllDigitsIn(digits, 10)
    ensures UnsignedDecimal(digits) == Some(ValueIn(digits, 10) as real)
  {
    forall j | 0 <= j < |digits| ensures digits[j] != 'e' && digits[j] != 'E' && digits[j] != '.' {
      DecimalDigit(digits[j]);
    }
    UnsignedWithoutExponent(digits);
    FindAbsent(digits, '.', '.');
    assert digits[..|digits|] == digits;
    assert MantissaValue(digits) == Some(DecimalValue(digits, []));
    assert ValueIn([], 10) == 0 && FractionValue([]) == 0.0;
  }

  /**
   * "ddd.fff" is the integer ddd plus the fraction fff, and its integer part
   * is ddd: a fraction below one never carries into the integer part.
   */
  lemma NumberValueOfDecimal(whole: string, fraction: string)
    requires whole != [] && AllDigitsIn(whole, 10) && AllDigitsIn(fraction, 10)
    ensures NumberValue(whole + "." + fraction) == Some(DecimalValue(whole, fraction))
    ensures Trunc(DecimalValue(whole, fraction)) == ValueIn(whole, 10)
  {
    DecimalLiteral(whole, fraction);
    TruncOfDecimal(whole, fraction);
  }

  /** "ddd.fff", with no white space, sign or prefix around it, is read as the unsigned decimal it spells. */
  lemma DecimalLiteral(whole: string, fraction: string)
    requires whole != [] && AllDigitsIn(whole, 10) && AllDigitsIn(fraction, 10)
    ensures NumberValue(whole + "." + fraction) == Some(DecimalValue(whole, fraction))
  {
    var s := whole + "." + fraction;
    DecimalDigit(whole[0]);
    if |whole| >= 2 {
      DecimalDigit(whole[1]);
    } else {
      assert s[1] == '.';
    }
    if fraction != [] {
      assert s[|s| - 1] == fraction[|fraction| - 1];
      DecimalDigit(s[|s| - 1]);
    }
    NumberValueOfUnsigned(s);
    UnsignedOfDecimal(whole, fraction);
  }

  /** The fraction of "ddd.fff" never carries into its integer part. */
  lemma TruncOfDecimal(whole: string, fraction: string)
    requires AllDigitsIn(fraction, 10)
    ensures Trunc(DecimalValue(whole, fraction)) == ValueIn(whole, 10)
  {
    FractionBelowOne(fraction);
    TruncPlusFraction(ValueIn(whole, 10), FractionValue(fraction));
  }

  /** The unsigned literal "ddd.fff" has no exponent, so it is its mantissa. */
  lemma UnsignedOfDecimal(whole: string, fraction: string)
    requires whole != [] && AllDigitsIn(whole, 10) && AllDigitsIn(fraction, 10)
    ensures UnsignedDecimal(whole + "." + fraction) == Some(DecimalValue(whole, fraction))
  {
    var s := whole + "." + fraction;
    forall j | 0 <= j < |s| ensures s[j] != 'e' && s[j] != 'E' {
      if j < |whole| { DecimalDigit(whole[j]); }
      else if j > |whole| { DecimalDigit(fraction[j - |whole| - 1]); }
    }
    UnsignedWithoutExponent(s);
    MantissaOfDecimal(whole, fraction);
  }

  /** A whole number plus a proper fraction truncates to the whole number. */
  lemma TruncPlusFraction(w: nat, q: real)
    requires 0.0 <= q < 1.0
    ensures Trunc(w as real + q) == w
  {
  }

  /** A literal that starts with a digit, has no radix prefix and ends in no white space is read as unsigned decimal. */
  lemma NumberValueOfUnsigned(t: string)
    requires t != [] && IsDigitIn(t[0], 10)
    requires |t| >= 2 ==> PrefixRadix(t[1]) == 0
    requires !IsWhite(t[|t| - 1])
    ensures NumberValue(t) == UnsignedDecimal(t)
  {
    DecimalDigit(t[0]);
    TrimUntrimmed(t);
  }

  /** Without an exponent mark the literal is its mantissa. */
  lemma UnsignedWithoutExponent(u: string)
    requires forall j :: 0 <= j < |u| ==> u[j] != 'e' && u[j] != 'E'
    ensures UnsignedDecimal(u) == MantissaValue(u)
  {
    FindAbsent(u, 'e', 'E');
    assert u[..|u|] == u;
    var m := MantissaValue(u);
    if m.Some? {
      assert Scale(m.value, 0) == m.value;
    }
  }

  lemma MantissaOfDecimal(whole: string, fraction: string)
    requires whole != [] || fraction != []
    requires AllDigitsIn(whole, 10) && AllDigitsIn(fraction, 10)
    ensures MantissaValue(whole + "." + fraction) == Some(DecimalValue(whole, fraction))
  {
    var s := whole + "." + fraction;
    forall j | 0 <= j < |whole| ensures whole[j] != '.' { DecimalDigit(whole[j]); }
    FindAfter(whole, ".", fraction);
    var point := Find(s, '.', '.');
    assert point == |whole| < |s|;
    assert s[..point] == whole;
    assert s[point + 1..] == fraction;
  }

  /** A decimal digit is no white space, no sign, no literal prefix letter, no point and no exponent mark. */
  lemma DecimalDigit(c: char)
    requires IsDigitIn(c, 10)
    ensures !IsWhite(c) && c != '-' && c != '+' && PrefixRadix(c) == 0
    ensures c != '.' && c != 'e' && c != 'E'
  {
  }

  /** Find reaches the end of a string holding neither character. */
  lemma {:induction false} FindAbsent(s: string, c1: char, c2: char)
    requires forall j :: 0 <= j < |s| ==> s[j] != c1 && s[j] != c2
    ensures Find(s, c1, c2) == |s|
  {
    if s != [] {
      FindAbsent(s[1..], c1, c2);
    }
  }

  /** Find stops at a marker that follows a prefix free of both characters. */
  lemma {:induction false} FindAfter(a: string, b: string, c: string)
    requires forall j :: 0 <= j < |a| ==> a[j] != '.'
    requires b == "."
    ensures Find(a + b + c, '.', '.') == |a|
  {
    if a != [] {
      assert (a + b + c)[1..] == a[1..] + b + c;
      FindAfter(a[1..], b, c);
    }
  }

  /** The digits after a point make a proper fraction. */
  lemma {:induction false} FractionBelowOne(fraction: string)
    requires AllDigitsIn(fraction, 10)
    ensures 0.0 <= FractionValue(fraction) < 1.0
  {
    if fraction != [] {
      assert AllDigitsIn(fraction[1..], 10);
      FractionBelowOne(fraction[1..]);
      assert DigitValue(fraction[0]) <= 9;
    }
  }
}
