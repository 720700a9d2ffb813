/**
 * The form validators. Each one trims its input (ASCII white space) and tests the
 * result against a small acceptance language; the regular expressions are written
 * out as the matchers below.
 */
module Validate {
  import opened Wrappers
  import opened Text

  /** `[A-Za-z ]`. */
  predicate NameChar(c: char)
  {
    IsLetter(c) || c == ' '
  }

  /** `validator.name`: `/^[A-Za-z ]{2,}$/` on the trimmed text. */
  predicate Name(v: string)
  {
    var t := Trim(v);
    |t| >= 2 && forall k :: 0 <= k < |t| ==> NameChar(t[k])
  }

  /** An accepted name starts and ends with a letter: trimming removed any outer space. */
  lemma NameEndsWithLetters(v: string)
    requires Name(v)
    ensures IsLetter(Trim(v)[0]) && IsLetter(Trim(v)[|Trim(v)| - 1])
  {
    var t := Trim(v);
    var i, j := TrimIsSlice(v);
    assert t[0] == v[i] && t[|t| - 1] == v[j - 1];
  }

  /** `validator.gender`: the trimmed text is not empty. */
  predicate Gender(v: string)
  {
    Trim(v) != ""
  }

  /** A gender is accepted exactly when the text holds some character that is not white space. */
  lemma GenderHasContent(v: string)
    ensures Gender(v) <==> exists k :: 0 <= k < |v| && !IsWhitespace(v[k])
  {
    TrimEmpty(v);
  }

  /** `validator.contact`: `/^[0-9]{10}$/` on the trimmed text. */
  predicate Contact(v: string)
  {
    var t := Trim(v);
    |t| == 10 && forall k :: 0 <= k < |t| ==> IsDigit(t[k])
  }

  /** Ten ASCII digits start at `i`, with only white space before and after them. */
  predicate PaddedTenDigits(v: string, i: int)
  {
    0 <= i && i + 10 <= |v|
    && (forall k :: i <= k < i + 10 ==> IsDigit(v[k]))
    && forall k :: 0 <= k < |v| && (k < i || i + 10 <= k) ==> IsWhitespace(v[k])
  }

  /** A contact number is accepted exactly when it is ten digits padded by white space only. */
  lemma ContactAccepts(v: string)
    ensures Contact(v) <==> exists i :: PaddedTenDigits(v, i)
  {
    if Contact(v) {
      var i, j := TrimIsSlice(v);
      assert Trim(v)[0] == v[i];
      forall k | i <= k < i + 10 ensures IsDigit(v[k]) {
        assert v[k] == Trim(v)[k - i];
      }
      assert PaddedTenDigits(v, i);
    }
    if exists i :: PaddedTenDigits(v, i) {
      var i :| PaddedTenDigits(v, i);
      assert IsDigit(v[i]) && IsDigit(v[i + 9]);
      TrimOfPadded(v, i, i + 10);
    }
  }

  /** The digit value of `c` in `radix` (10, or 16 after a `0x` prefix), if it is one. */
  function RadixDigit(c: char, radix: int): Option<int>
  {
    if '0' <= c <= '9' then Some(c as int - '0' as int)
    else if radix == 16 && 'a' <= c <= 'f' then Some(c as int - 'a' as int + 10)
    else if radix == 16 && 'A' <= c <= 'F' then Some(c as int - 'A' as int + 10)
    else None
  }

  /** Digit values of the longest prefix of `s` made of `radix` digits. */
  function DigitRun(s: string, radix: int): (ds: seq<int>)
    ensures |ds| <= |s|
    ensures forall k :: 0 <= k < |ds| ==> RadixDigit(s[k], radix) == Some(ds[k])
    ensures |ds| < |s| ==> RadixDigit(s[|ds|], radix).None?
  {
    if s == [] then []
    else match RadixDigit(s[0], radix)
      case None => []
      case Some(d) => [d] + DigitRun(s[1..], radix)
  }

  /** The number the digit values `ds` denote, most significant first. */
  function Positional(ds: seq<int>, radix: int): int
  {
    if ds == [] then 0 else Positional(ds[..|ds| - 1], radix) * radix + ds[|ds| - 1]
  }

  /** `s` starts with `0x` or `0X`. */
  predicate HexPrefix(s: string)
  {
    |s| >= 2 && s[0] == '0' && (s[1] == 'x' || s[1] == 'X')
  }

  /** What follows the optional sign, after the leading white space. */
  function Unsigned(v: string): string
  {
    var s := TrimStart(v);
    if s != [] && (s[0] == '-' || s[0] == '+') then s[1..] else s
  }

  predicate Negative(v: string)
  {
    var s := TrimStart(v);
    s != [] && s[0] == '-'
  }

  /** The digits `parseInt` reads: the body after a `0x` prefix in radix 16, else in radix 10. */
  function Digits(v: string): seq<int>
  {
    var u := Unsigned(v);
    if HexPrefix(u) then DigitRun(u[2..], 16) else DigitRun(u, 10)
  }

  /** `parseInt(v)`: `None` is NaN (no digit after the white space, the sign and the prefix). */
  function ParseInt(v: string): Option<int>
  {
    var ds := Digits(v);
    var radix := if HexPrefix(Unsigned(v)) then 16 else 10;
    if ds == [] then None
    else if Negative(v) then Some(-Positional(ds, radix))
    else Some(Positional(ds, radix))
  }

  /** `validator.age`: `parseInt` gives a number and it is greater than zero. */
  predicate Age(v: string)
  {
    ParseInt(v).Some? && ParseInt(v).value > 0
  }

  /** A run of digit values denotes a positive number exactly when one of them is non-zero. */
  lemma {:induction false} PositionalPositive(ds: seq<int>, radix: int)
    requires radix >= 2 && forall k :: 0 <= k < |ds| ==> 0 <= ds[k] < radix
    ensures Positional(ds, radix) >= 0
    ensures Positional(ds, radix) > 0 <==> exists k :: 0 <= k < |ds| && ds[k] != 0
  {
    if ds != [] {
      var init := ds[..|ds| - 1];
      PositionalPositive(init, radix);
      assert forall k :: 0 <= k < |init| ==> init[k] == ds[k];
      if Positional(init, radix) > 0 {
        assert Positional(init, radix) * radix >= radix;
      }
    }
  }

  lemma DigitRunBounded(s: string, radix: int)
    requires radix == 10 || radix == 16
    ensures forall k :: 0 <= k < |DigitRun(s, radix)| ==> 0 <= DigitRun(s, radix)[k] < radix
  {
    var ds := DigitRun(s, radix);
    forall k | 0 <= k < |ds| ensures 0 <= ds[k] < radix {
      assert RadixDigit(s[k], radix) == Some(ds[k]);
    }
  }

  /**
   * An age is accepted exactly when the number is not negated and its digits
   * (after the white space, the sign and any `0x`) are not all zero: "0", "-3",
   * "-0" and "abc" are rejected, "42 years" and "+7" are accepted.
   */
  lemma AgeAccepts(v: string)
    ensures Age(v) <==> !Negative(v) && exists k :: 0 <= k < |Digits(v)| && Digits(v)[k] != 0
  {
    var u := Unsigned(v);
    var radix := if HexPrefix(u) then 16 else 10;
    DigitRunBounded(if HexPrefix(u) then u[2..] else u, radix);
    PositionalPositive(Digits(v), radix);
  }

  /** "0" is rejected: the number read is not greater than zero. */
  lemma AgeRejectsZero()
    ensures !Age("0")
  {
    assert TrimStart("0") == "0" by { assert !IsWhitespace('0'); }
    assert Unsigned("0") == "0";
    assert !HexPrefix("0");
    assert DigitRun("0", 10) == [0];
  }

  /** "-3" is rejected: the sign makes the number negative. */
  lemma AgeRejectsNegative()
    ensures !Age("-3")
  {
    assert TrimStart("-3") == "-3" by { assert !IsWhitespace('-'); }
    assert Negative("-3");
    assert Unsigned("-3") == "3";
    assert !HexPrefix("3");
    assert DigitRun("3", 10) == [3];
  }

  /** "abc" is rejected: `parseInt` finds no digit and gives NaN. */
  lemma AgeRejectsLetters()
    ensures !Age("abc")
  {
    assert TrimStart("abc") == "abc" by { assert !IsWhitespace('a'); }
    assert Unsigned("abc") == "abc";
    assert !HexPrefix("abc");
    assert DigitRun("abc", 10) == [];
  }

  /** `parseInt` stops at the first non-digit, so "42 years" is an accepted age. */
  lemma AgeAcceptsTrailingText()
    ensures Age("42 years")
  {
    assert TrimStart("42 years") == "42 years" by { assert !IsWhitespace('4'); }
    assert Unsigned("42 years") == "42 years";
    assert !HexPrefix("42 years");
    assert DigitRun("42 years", 10)[0] == 4;
    AgeAccepts("42 years");
  }

  /** A leading plus sign is allowed. */
  lemma AgeAcceptsPlusSign()
    ensures Age("+7")
  {
    assert TrimStart("+7") == "+7" by { assert !IsWhitespace('+'); }
    assert Unsigned("+7") == "7";
    assert !HexPrefix("7");
    assert DigitRun("7", 10) == [7];
    AgeAccepts("+7");
  }

  /** `parseInt` reads a `0x` prefix as hexadecimal, so "0x1A" is an accepted age (26). */
  lemma AgeAcceptsHex()
    ensures Age("0x1A")
  {
    assert TrimStart("0x1A") == "0x1A" by { assert !IsWhitespace('0'); }
    assert Unsigned("0x1A") == "0x1A";
    assert HexPrefix("0x1A");
    assert "0x1A"[2..] == "1A";
    assert DigitRun("1A", 16)[0] == 1;
    AgeAccepts("0x1A");
  }

  /** `[^@\s]`. */
  predicate Plain(c: char)
  {
    c != '@' && !IsWhitespace(c)
  }

  predicate AllPlain(x: string)
  {
    forall k :: 0 <= k < |x| ==> Plain(x[k])
  }

  /** `x` matches `[^@\s]*\.[^@\s]+$`; the star backtracks over every `.` that could end it. */
  predicate DotTail(x: string)
    decreases |x|
  {
    |x| >= 1 && ((x[0] == '.' && |x| >= 2 && AllPlain(x[1..])) || (Plain(x[0]) && DotTail(x[1..])))
  }

  /** `d` matches `[^@\s]+\.[^@\s]+$`. */
  predicate DomainMatch(d: string)
  {
    |d| >= 1 && Plain(d[0]) && DotTail(d[1..])
  }

  /** `x` matches `[^@\s]*@[^@\s]+\.[^@\s]+$`. */
  predicate AtTail(x: string)
    decreases |x|
  {
    |x| >= 1 && ((x[0] == '@' && DomainMatch(x[1..])) || (Plain(x[0]) && AtTail(x[1..])))
  }

  /** `t` matches `/^[^@\s]+@[^@\s]+\.[^@\s]+$/`. */
  predicate EmailMatch(t: string)
  {
    |t| >= 1 && Plain(t[0]) && AtTail(t[1..])
  }

  /** `validator.email`: empty (the field is optional) or matching the address pattern. */
  predicate Email(v: string)
  {
    var t := Trim(v);
    t == "" || EmailMatch(t)
  }

  /** `d` has a `.` that is neither its first nor its last character. */
  predicate InnerDot(d: string)
  {
    exists j :: 0 < j < |d| - 1 && d[j] == '.'
  }

  /** `k` is the position of the one and only `@` of `t`. */
  predicate OnlyAt(t: string, k: int)
  {
    0 <= k < |t| && t[k] == '@' && forall i :: 0 <= i < |t| && i != k ==> t[i] != '@'
  }

  /**
   * A well-formed address: no white space, exactly one `@` with a non-empty part
   * before it, and a `.` inside (not at either end of) the part after it.
   */
  predicate WellFormedEmail(t: string)
  {
    (forall k :: 0 <= k < |t| ==> !IsWhitespace(t[k]))
    && exists k :: 0 < k < |t| && OnlyAt(t, k) && InnerDot(t[k + 1..])
  }

  lemma {:induction false} DotTailShape(x: string)
    ensures DotTail(x) <==> AllPlain(x) && exists j :: 0 <= j < |x| - 1 && x[j] == '.'
  {
    if |x| >= 1 {
      DotTailShape(x[1..]);
      if AllPlain(x) && exists j :: 0 <= j < |x| - 1 && x[j] == '.' {
        var j :| 0 <= j < |x| - 1 && x[j] == '.';
        if j > 0 {
          assert x[1..][j - 1] == '.';
        }
      }
      if DotTail(x) && !(x[0] == '.' && |x| >= 2 && AllPlain(x[1..])) {
        var j :| 0 <= j < |x[1..]| - 1 && x[1..][j] == '.';
        assert x[j + 1] == '.';
      }
    }
  }

  lemma DomainShape(d: string)
    ensures DomainMatch(d) <==> AllPlain(d) && InnerDot(d)
  {
    if |d| >= 1 {
      DotTailShape(d[1..]);
      if DomainMatch(d) {
        var j :| 0 <= j < |d[1..]| - 1 && d[1..][j] == '.';
        assert d[j + 1] == '.';
      }
      if AllPlain(d) && InnerDot(d) {
        var j :| 0 < j < |d| - 1 && d[j] == '.';
        assert d[1..][j - 1] == '.';
      }
    }
  }

  lemma {:induction false} AtTailShape(x: string)
    ensures AtTail(x) <==>
      exists k :: 0 <= k < |x| && x[k] == '@' && AllPlain(x[..k]) && DomainMatch(x[k + 1..])
  {
    if |x| >= 1 {
      AtTailShape(x[1..]);
      if AtTail(x) {
        if x[0] == '@' && DomainMatch(x[1..]) {
          assert x[..0] == [];
          assert x[0] == '@' && AllPlain(x[..0]) && DomainMatch(x[0 + 1..]);
        } else {
          var k :| 0 <= k < |x[1..]| && x[1..][k] == '@' && AllPlain(x[1..][..k]) && DomainMatch(x[1..][k + 1..]);
          assert x[1..][k + 1..] == x[k + 2..];
          var pre := x[..k + 1];
          assert AllPlain(pre) by {
            forall i | 0 <= i < |pre| ensures Plain(pre[i]) {
              if i > 0 {
                assert pre[i] == x[1..][..k][i - 1];
              }
            }
          }
          assert x[k + 1] == '@';
        }
      }
      if exists k :: 0 <= k < |x| && x[k] == '@' && AllPlain(x[..k]) && DomainMatch(x[k + 1..]) {
        var k :| 0 <= k < |x| && x[k] == '@' && AllPlain(x[..k]) && DomainMatch(x[k + 1..]);
        if k > 0 {
          assert x[..k][0] == x[0];
          assert x[1..][k - 1] == '@';
          assert x[1..][k - 1 + 1..] == x[k + 1..];
          var pre := x[1..][..k - 1];
          assert AllPlain(pre) by {
            forall i | 0 <= i < |pre| ensures Plain(pre[i]) {
              assert pre[i] == x[..k][i + 1];
            }
          }
        }
      }
    }
  }

  /** Every address the pattern accepts is well formed. */
  lemma EmailMatchWellFormed(t: string)
    requires EmailMatch(t)
    ensures WellFormedEmail(t)
  {
    AtTailShape(t[1..]);
    var k' :| 0 <= k' < |t[1..]| && t[1..][k'] == '@' && AllPlain(t[1..][..k'])
              && DomainMatch(t[1..][k' + 1..]);
    var k := k' + 1;
    var dom := t[k + 1..];
    assert dom == t[1..][k' + 1..];
    DomainShape(dom);
    forall i | 0 <= i < |t| && i != k ensures Plain(t[i]) {
      if i == 0 {
      } else if i < k {
        assert t[i] == t[1..][..k'][i - 1];
      } else {
        assert t[i] == dom[i - k - 1];
      }
    }
    assert OnlyAt(t, k) && 0 < k && InnerDot(t[k + 1..]);
  }

  /** Every well-formed address matches the pattern. */
  lemma WellFormedEmailMatches(t: string)
    requires WellFormedEmail(t)
    ensures EmailMatch(t)
  {
    var k :| 0 < k < |t| && OnlyAt(t, k) && InnerDot(t[k + 1..]);
    var dom := t[k + 1..];
    assert AllPlain(dom) by {
      forall i | 0 <= i < |dom| ensures Plain(dom[i]) {
        assert dom[i] == t[k + 1 + i];
      }
    }
    DomainShape(dom);
    assert t[1..][k - 1] == '@';
    assert t[1..][k - 1 + 1..] == dom;
    var pre := t[1..][..k - 1];
    assert AllPlain(pre) by {
      forall i | 0 <= i < |pre| ensures Plain(pre[i]) {
        assert pre[i] == t[i + 1];
      }
    }
    assert Plain(t[0]);
    AtTailShape(t[1..]);
  }

  /** The address pattern accepts exactly the well-formed addresses. */
  lemma EmailMatchShape(t: string)
    ensures EmailMatch(t) <==> WellFormedEmail(t)
  {
    if EmailMatch(t) {
      EmailMatchWellFormed(t);
    }
    if WellFormedEmail(t) {
      WellFormedEmailMatches(t);
    }
  }

  /** An empty or blank email is accepted: the field is optional. */
  lemma EmailOptional(v: string)
    requires Trim(v) == ""
    ensures Email(v)
  {
  }

  /** A non-blank email is accepted exactly when its trimmed text is a well-formed address. */
  lemma EmailAccepts(v: string)
    requires Trim(v) != ""
    ensures Email(v) <==> WellFormedEmail(Trim(v))
  {
    EmailMatchShape(Trim(v));
  }

  /** Validating already-trimmed text gives the same verdict: the validators only see the trimmed text. */
  lemma ValidatorsSeeTrimmedText(v: string)
    ensures Name(Trim(v)) == Name(v)
    ensures Gender(Trim(v)) == Gender(v)
    ensures Contact(Trim(v)) == Contact(v)
    ensures Email(Trim(v)) == Email(v)
  {
    TrimIdempotent(v);
  }
}
