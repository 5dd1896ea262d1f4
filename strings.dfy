/**
 * The behaviour of the Rust string operations the tool relies on:
 * `str::split` with a one-character pattern, `join`, `ends_with`,
 * `u32::from_str` and the acceptance rule of `f32::from_str`.
 */
module Strings {
  import opened Wrappers

  const U32_LIMIT: nat := 0x1_0000_0000

  /** The values of Rust's `u32`. */
  type U32 = n: nat | n < U32_LIMIT

  // ---------------------------------------------------------------------
  // Splitting and joining
  // ---------------------------------------------------------------------

  /**
   * `s.split(c).collect()`: the pieces of `s` between occurrences of `c`.
   * There is always at least one piece (the empty string splits into `[""]`)
   * and no piece contains the separator.
   */
  function Split(s: string, c: char): (pieces: seq<string>)
    ensures |pieces| >= 1
    ensures forall i :: 0 <= i < |pieces| ==> c !in pieces[i]
    decreases |s|
  {
    if s == [] then [[]]
    else
      var rest := Split(s[1..], c);
      if s[0] == c then [[]] + rest
      else [[s[0]] + rest[0]] + rest[1..]
  }

  /** `pieces.join(c)`: the pieces with one separator between neighbours. */
  function Join(pieces: seq<string>, c: char): string
    decreases |pieces|
  {
    if pieces == [] then []
    else if |pieces| == 1 then pieces[0]
    else pieces[0] + [c] + Join(pieces[1..], c)
  }

  /** `s.ends_with(c)` */
  predicate EndsWith(s: string, c: char) {
    |s| > 0 && s[|s| - 1] == c
  }

  /** Joining the pieces of a split gives back the original text. */
  lemma {:induction false} SplitJoin(s: string, c: char)
    ensures Join(Split(s, c), c) == s
    decreases |s|
  {
    if s != [] {
      var rest := Split(s[1..], c);
      SplitJoin(s[1..], c);
      if s[0] == c {
        assert Split(s, c) == [[]] + rest;
        assert ([[]] + rest)[1..] == rest;
        assert s == [c] + s[1..];
      } else {
        var first := [s[0]] + rest[0];
        assert Split(s, c) == [first] + rest[1..];
        if |rest| == 1 {
          assert Join(rest, c) == rest[0];
        } else {
          assert Join(rest, c) == rest[0] + [c] + Join(rest[1..], c);
          assert ([first] + rest[1..])[1..] == rest[1..];
        }
        assert s == [s[0]] + s[1..];
      }
    }
  }

  /** A text without the separator is a single piece. */
  lemma {:induction false} SplitWithout(s: string, c: char)
    requires c !in s
    ensures Split(s, c) == [s]
    decreases |s|
  {
    if s != [] {
      assert c !in s[1..] by {
        forall i | 0 <= i < |s[1..]| ensures s[1..][i] != c {
          assert s[1..][i] == s[i + 1];
        }
      }
      SplitWithout(s[1..], c);
      assert s == [s[0]] + s[1..];
    }
  }

  /** Splitting `a + c + b`, where `a` has no separator, gives `a` and then the pieces of `b`. */
  lemma {:induction false} SplitAt(a: string, c: char, b: string)
    requires c !in a
    ensures Split(a + [c] + b, c) == [a] + Split(b, c)
    decreases |a|
  {
    var s := a + [c] + b;
    if a == [] {
      assert s == [c] + b;
      assert s[1..] == b;
    } else {
      assert s[0] == a[0];
      assert s[1..] == a[1..] + [c] + b;
      assert c !in a[1..] by {
        forall i | 0 <= i < |a[1..]| ensures a[1..][i] != c {
          assert a[1..][i] == a[i + 1];
        }
      }
      SplitAt(a[1..], c, b);
      assert a == [a[0]] + a[1..];
    }
  }

  /** Splitting a join of separator-free pieces gives back the pieces. */
  lemma {:induction false} JoinSplit(pieces: seq<string>, c: char)
    requires |pieces| >= 1
    requires forall i :: 0 <= i < |pieces| ==> c !in pieces[i]
    ensures Split(Join(pieces, c), c) == pieces
    decreases |pieces|
  {
    if |pieces| == 1 {
      SplitWithout(pieces[0], c);
    } else {
      JoinSplit(pieces[1..], c);
      SplitAt(pieces[0], c, Join(pieces[1..], c));
      assert pieces == [pieces[0]] + pieces[1..];
    }
  }

  /** There is one more piece than there are separators. */
  lemma {:induction false} SplitCount(s: string, c: char)
    ensures |Split(s, c)| == multiset(s)[c] + 1
    decreases |s|
  {
    if s != [] {
      SplitCount(s[1..], c);
      assert s == [s[0]] + s[1..];
      assert multiset(s) == multiset([s[0]]) + multiset(s[1..]);
    }
  }

  /** The first piece is empty exactly when the text is empty or starts with the separator. */
  lemma SplitFirstEmpty(s: string, c: char)
    ensures Split(s, c)[0] == [] <==> (s == [] || s[0] == c)
  {
  }

  /** The last piece is empty exactly when the text is empty or ends with the separator. */
  lemma {:induction false} SplitLastEmpty(s: string, c: char)
    ensures var pieces := Split(s, c); pieces[|pieces| - 1] == [] <==> (s == [] || s[|s| - 1] == c)
    decreases |s|
  {
    if s != [] {
      var rest := Split(s[1..], c);
      if |s| > 1 {
        SplitLastEmpty(s[1..], c);
        assert s[1..][|s[1..]| - 1] == s[|s| - 1];
        if s[0] != c && |rest| == 1 {
          SplitCount(s[1..], c);
          assert c !in multiset(s[1..]);
          assert s[1..][|s| - 2] == s[|s| - 1];
        }
      }
    }
  }

  // ---------------------------------------------------------------------
  // `u32::from_str`
  // ---------------------------------------------------------------------

  predicate IsDigit(ch: char) {
    '0' <= ch <= '9'
  }

  predicate AllDigits(s: string) {
    forall i :: 0 <= i < |s| ==> IsDigit(s[i])
  }

  /** The number a string of decimal digits denotes (leading zeros allowed). */
  function DigitsValue(s: string): nat
    requires AllDigits(s)
    decreases |s|
  {
    if s == [] then 0
    else 10 * DigitsValue(s[..|s| - 1]) + (s[|s| - 1] as int - '0' as int)
  }

  /**
   * `s.parse::<u32>()`: an optional leading `+`, then at least one decimal
   * digit, and a value below 2^32; anything else is a parse error.
   */
  function ParseU32(s: string): (r: Option<U32>)
    ensures s == [] ==> r == None
    ensures r.Some? ==> forall i :: 0 <= i < |s| ==> IsDigit(s[i]) || (i == 0 && s[i] == '+')
  {
    var digits := if |s| > 0 && s[0] == '+' then s[1..] else s;
    if digits != [] && AllDigits(digits) && DigitsValue(digits) < U32_LIMIT
    then Some(DigitsValue(digits))
    else None
  }

  /** The shortest decimal rendering of `n` (what `n.to_string()` gives). */
  function Decimal(n: nat): (s: string)
    ensures |s| >= 1 && AllDigits(s)
    decreases n
  {
    if n < 10 then [('0' as int + n) as char]
    else Decimal(n / 10) + [('0' as int + n % 10) as char]
  }

  lemma {:induction false} DecimalValue(n: nat)
    ensures DigitsValue(Decimal(n)) == n
    decreases n
  {
    if n >= 10 {
      DecimalValue(n / 10);
      var s := Decimal(n);
      assert s[..|s| - 1] == Decimal(n / 10);
    }
  }

  /** Every u32 round-trips through its decimal rendering, with or without a leading `+`. */
  lemma ParseDecimal(n: U32)
    ensures ParseU32(Decimal(n)) == Some(n)
    ensures ParseU32("+" + Decimal(n)) == Some(n)
  {
    DecimalValue(n);
    var s := Decimal(n);
    assert s[0] != '+' by { assert IsDigit(s[0]); }
    assert ("+" + s)[1..] == s;
  }

  /**
   * Every non-empty digit string whose value fits in 32 bits is accepted,
   * leading zeros included, with or without a leading `+`, and parses to the
   * value it denotes.
   */
  lemma ParseU32Accepts(s: string)
    requires s != [] && AllDigits(s) && DigitsValue(s) < U32_LIMIT
    ensures ParseU32(s) == Some(DigitsValue(s))
    ensures ParseU32("+" + s) == Some(DigitsValue(s))
  {
    assert s[0] != '+' by { assert IsDigit(s[0]); }
    assert ("+" + s)[1..] == s;
  }

  /** Leading zeros are accepted: `007` is 7. */
  lemma ParseU32LeadingZeros()
    ensures ParseU32("007") == Some(7)
  {
    assert "007"[..2] == "00" && "00"[..1] == "0" && "0"[..0] == "";
    ParseU32Accepts("007");
  }

  /** Digit strings whose value does not fit in 32 bits, and texts holding a sign other than a leading `+`, are rejected. */
  lemma ParseU32Rejects(s: string)
    ensures AllDigits(s) && s != [] && DigitsValue(s) >= U32_LIMIT ==> ParseU32(s) == None
    ensures s != [] && s[0] == '-' ==> ParseU32(s) == None
    ensures AllDigits(s) && s != [] && DigitsValue(s) >= U32_LIMIT ==> ParseU32("+" + s) == None
    ensures ParseU32("+") == None
  {
    assert ("+" + s)[1..] == s;
  }

  // ---------------------------------------------------------------------
  // The acceptance rule of `f32::from_str`
  // ---------------------------------------------------------------------

  /** ASCII lower-casing, as Rust applies it to the special values and the exponent marker. */
  function LowerAscii(ch: char): char {
    if 'A' <= ch <= 'Z' then (ch as int + 32) as char else ch
  }

  function Lower(s: string): (t: string)
    ensures |t| == |s|
    ensures forall i :: 0 <= i < |s| ==> t[i] == LowerAscii(s[i])
  {
    seq(|s|, i requires 0 <= i < |s| => LowerAscii(s[i]))
  }

  /** The first position of `c` in `s`. */
  function IndexOf(s: string, c: char): (i: nat)
    requires c in s
    ensures i < |s| && s[i] == c
    ensures forall j :: 0 <= j < i ==> s[j] != c
    decreases |s|
  {
    if s[0] == c then 0 else 1 + IndexOf(s[1..], c)
  }

  predicate IsSign(ch: char) {
    ch == '+' || ch == '-'
  }

  /** `Digit* '.' Digit*` with at least one digit, or `Digit+`. */
  predicate IsMantissa(m: string) {
    if '.' in m then
      var i := IndexOf(m, '.');
      |m| >= 2 && AllDigits(m[..i]) && AllDigits(m[i + 1..])
    else
      |m| >= 1 && AllDigits(m)
  }

  /** `Sign? Digit+` */
  predicate IsExponent(e: string) {
    var digits := if |e| > 0 && IsSign(e[0]) then e[1..] else e;
    |digits| >= 1 && AllDigits(digits)
  }

  /** `Mantissa ('e' Exponent)?` on lower-cased text. */
  predicate IsNumber(t: string) {
    if 'e' in t then
      var i := IndexOf(t, 'e');
      IsMantissa(t[..i]) && IsExponent(t[i + 1..])
    else
      IsMantissa(t)
  }

  /**
   * `s.parse::<f32>().is_ok()`: an optional sign, then `inf`, `infinity`,
   * `nan` or a decimal number with an optional exponent, letters compared
   * without regard to case. Out-of-range values round to infinity and are
   * not errors.
   */
  predicate IsFloat(s: string) {
    var body := if |s| > 0 && IsSign(s[0]) then s[1..] else s;
    var t := Lower(body);
    t == "inf" || t == "infinity" || t == "nan" || IsNumber(t)
  }

  lemma MantissaChar(m: string, j: nat)
    requires IsMantissa(m) && j < |m|
    ensures IsDigit(m[j]) || m[j] == '.'
  {
  }

  lemma ExponentChar(e: string, j: nat)
    requires IsExponent(e) && j < |e|
    ensures IsDigit(e[j]) || IsSign(e[j])
  {
  }

  lemma NumberChar(t: string, j: nat)
    requires IsNumber(t) && j < |t|
    ensures IsDigit(t[j]) || t[j] == '.' || t[j] == 'e' || IsSign(t[j])
  {
    if 'e' in t {
      var i := IndexOf(t, 'e');
      if j < i {
        MantissaChar(t[..i], j);
        assert t[..i][j] == t[j];
      } else if j > i {
        ExponentChar(t[i + 1..], j - i - 1);
        assert t[i + 1..][j - i - 1] == t[j];
      }
    } else {
      MantissaChar(t, j);
    }
  }

  /** The letters of `e`, `inf`, `infinity` and `nan`. */
  predicate IsFloatLetter(ch: char) {
    ch in {'e', 'i', 'n', 'f', 't', 'y', 'a'}
  }

  /** A character that can occur in an f32 literal. */
  predicate IsFloatChar(ch: char) {
    IsDigit(ch) || ch == '.' || IsSign(ch) || IsFloatLetter(LowerAscii(ch))
  }

  lemma FloatCharAt(s: string, k: nat)
    requires IsFloat(s) && k < |s|
    ensures IsFloatChar(s[k])
  {
    var signed := |s| > 0 && IsSign(s[0]);
    if !(signed && k == 0) {
      var body := if signed then s[1..] else s;
      var t := Lower(body);
      var j := if signed then k - 1 else k;
      assert body[j] == s[k];
      assert t[j] == LowerAscii(s[k]);
      if t == "inf" || t == "infinity" || t == "nan" {
        assert IsFloatLetter(t[j]);
      } else {
        NumberChar(t, j);
      }
    }
  }

  /** Every character of an f32 literal is a digit, a `.`, a sign, or a letter of `e`, `inf`, `infinity` or `nan`. */
  lemma FloatChars(s: string)
    requires IsFloat(s)
    ensures forall k :: 0 <= k < |s| ==> IsFloatChar(s[k])
  {
    forall k | 0 <= k < |s| ensures IsFloatChar(s[k]) {
      FloatCharAt(s, k);
    }
  }

  /** No f32 literal contains a lower-case `x`. */
  lemma FloatHasNoX(s: string)
    requires IsFloat(s)
    ensures 'x' !in s
  {
    if 'x' in s {
      var k := IndexOf(s, 'x');
      var signed := |s| > 0 && IsSign(s[0]);
      var body := if signed then s[1..] else s;
      var t := Lower(body);
      var j := if signed then k - 1 else k;
      assert body[j] == 'x';
      assert t[j] == 'x';
      assert "inf"[0] != 'x' && "inf"[1] != 'x' && "inf"[2] != 'x';
      assert "nan"[0] != 'x' && "nan"[1] != 'x' && "nan"[2] != 'x';
      assert forall i :: 0 <= i < |"infinity"| ==> "infinity"[i] != 'x';
      if IsNumber(t) {
        NumberChar(t, j);
      }
    }
  }

  /** Lower-casing leaves digits and `.` alone. */
  lemma LowerKeepsNumerals(s: string)
    requires forall i :: 0 <= i < |s| ==> IsDigit(s[i]) || s[i] == '.'
    ensures Lower(s) == s
  {
  }

  /** A non-empty digit string is an f32 literal. */
  lemma {:induction false} FloatAcceptsDigits(d: string)
    requires d != [] && AllDigits(d)
    ensures IsFloat(d)
  {
    LowerKeepsNumerals(d);
    assert !IsSign(d[0]) by { assert IsDigit(d[0]); }
    assert 'e' !in d && '.' !in d by {
      forall i | 0 <= i < |d| ensures d[i] != 'e' && d[i] != '.' {
        assert IsDigit(d[i]);
      }
    }
  }

  /** Digits, a `.` and digits, with at least one digit on either side, is an f32 literal. */
  lemma {:induction false} FloatAcceptsDecimal(a: string, b: string)
    requires AllDigits(a) && AllDigits(b) && |a| + |b| >= 1
    ensures IsFloat(a + "." + b)
  {
    var m := a + "." + b;
    assert forall i :: 0 <= i < |a| ==> m[i] == a[i];
    assert m[|a|] == '.';
    assert forall i :: 0 <= i < |b| ==> m[|a| + 1 + i] == b[i];
    assert forall i :: 0 <= i < |m| ==> IsDigit(m[i]) || m[i] == '.' by {
      forall i | 0 <= i < |m| ensures IsDigit(m[i]) || m[i] == '.' {
        if i < |a| {
          assert m[i] == a[i];
        } else if i > |a| {
          assert m[i] == b[i - |a| - 1];
        }
      }
    }
    LowerKeepsNumerals(m);
    assert !IsSign(m[0]);
    assert 'e' !in m;
    assert IndexOf(m, '.') == |a|;
    assert m[..|a|] == a;
    assert m[|a| + 1..] == b;
  }

  /** The empty text, a lone `.` and a lone sign are not f32 literals. */
  lemma FloatRejectsEmpty()
    ensures !IsFloat("")
    ensures !IsFloat(".")
    ensures !IsFloat("+") && !IsFloat("-")
  {
    assert Lower("") == "";
    assert Lower(".") == ".";
    assert IndexOf(".", '.') == 0;
    assert "+"[1..] == "" && "-"[1..] == "";
  }
}
