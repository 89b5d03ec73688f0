/** The Python string built-ins the bookkeeper relies on: `str.join`,
    `str.lower`, `int(str)` and `str(int)`.  They are library code in the
    original; here they are given a definition so that the coordinator's
    validation can be stated exactly. */
module PyStr {
  import opened Wrappers

  // ---------------------------------------------------------------------
  // str.join and character counting

  /** `sep.join(parts)` */
  function Join(sep: string, parts: seq<string>): string
    decreases |parts|
  {
    if |parts| == 0 then ""
    else if |parts| == 1 then parts[0]
    else parts[0] + sep + Join(sep, parts[1..])
  }

  /** Number of occurrences of `c` in `s`. */
  function Count(c: char, s: string): nat
  {
    multiset(s)[c]
  }

  /** Total number of occurrences of `c` in all of `parts`. */
  function CountAll(c: char, parts: seq<string>): nat
    decreases |parts|
  {
    if |parts| == 0 then 0 else Count(c, parts[0]) + CountAll(c, parts[1..])
  }

  lemma CountConcat(c: char, a: string, b: string)
    ensures Count(c, a + b) == Count(c, a) + Count(c, b)
  {
    assert multiset(a + b) == multiset(a) + multiset(b);
  }

  /** A separator that does not contain `c` adds no occurrence of `c`. */
  lemma {:induction false} CountJoin(c: char, sep: string, parts: seq<string>)
    requires Count(c, sep) == 0
    ensures Count(c, Join(sep, parts)) == CountAll(c, parts)
    decreases |parts|
  {
    if |parts| > 1 {
      CountJoin(c, sep, parts[1..]);
      CountConcat(c, parts[0], sep);
      CountConcat(c, parts[0] + sep, Join(sep, parts[1..]));
    } else if |parts| == 1 {
      assert CountAll(c, parts[1..]) == 0;
    }
  }

  lemma {:induction false} CountAllConcat(c: char, a: seq<string>, b: seq<string>)
    ensures CountAll(c, a + b) == CountAll(c, a) + CountAll(c, b)
    decreases |a|
  {
    if |a| > 0 {
      assert (a + b)[1..] == a[1..] + b;
      CountAllConcat(c, a[1..], b);
    } else {
      assert a + b == b;
    }
  }

  // ---------------------------------------------------------------------
  // str.lower

  /** Lower-case mapping of one character, for the ASCII, Latin-1 and
      basic Cyrillic capitals (the scripts the application's category names
      are written in). */
  function LowerChar(ch: char): (r: char)
  {
    if 'A' <= ch <= 'Z' then (ch as int + 32) as char
    else if '\U{00C0}' <= ch <= '\U{00DE}' && ch != '\U{00D7}' then (ch as int + 32) as char
    else if '\U{0410}' <= ch <= '\U{042F}' then (ch as int + 32) as char
    else if '\U{0400}' <= ch <= '\U{040F}' then (ch as int + 80) as char
    else ch
  }

  /** `s.lower()` */
  function Lower(s: string): string
  {
    seq(|s|, i requires 0 <= i < |s| => LowerChar(s[i]))
  }

  /** Lower-casing twice is lower-casing once, and keeps the length. */
  lemma LowerIdempotent(s: string)
    ensures |Lower(s)| == |s|
    ensures Lower(Lower(s)) == Lower(s)
  {
    forall i | 0 <= i < |s|
      ensures LowerChar(LowerChar(s[i])) == LowerChar(s[i])
    {
    }
  }

  // ---------------------------------------------------------------------
  // int(str) and str(int)

  /** The characters Python's `str.isspace` accepts, which `int()` strips. */
  predicate IsSpace(ch: char)
  {
    || '\U{0009}' <= ch <= '\U{000D}'
    || '\U{001C}' <= ch <= '\U{0020}'
    || ch == '\U{0085}' || ch == '\U{00A0}' || ch == '\U{1680}'
    || '\U{2000}' <= ch <= '\U{200A}'
    || ch == '\U{2028}' || ch == '\U{2029}' || ch == '\U{202F}'
    || ch == '\U{205F}' || ch == '\U{3000}'
  }

  predicate IsDigit(ch: char)
  {
    '0' <= ch <= '9'
  }

  function StripLeft(s: string): string
    decreases |s|
  {
    if |s| > 0 && IsSpace(s[0]) then StripLeft(s[1..]) else s
  }

  function StripRight(s: string): string
    decreases |s|
  {
    if |s| > 0 && IsSpace(s[|s| - 1]) then StripRight(s[..|s| - 1]) else s
  }

  /** `s.strip()` */
  function Strip(s: string): string
  {
    StripRight(StripLeft(s))
  }

  /** A digit string in Python's integer-literal form: at least one digit,
      and every underscore sits between two digits. */
  predicate DigitGroup(s: string)
  {
    && |s| > 0
    && IsDigit(s[0])
    && IsDigit(s[|s| - 1])
    && forall i :: 0 <= i < |s| ==> IsDigit(s[i]) || (s[i] == '_' && i + 1 < |s| && IsDigit(s[i + 1]))
  }

  /** The value of a digit string, underscores ignored. */
  function DigitsValue(s: string): nat
    decreases |s|
  {
    if |s| == 0 then 0
    else if IsDigit(s[|s| - 1]) then DigitsValue(s[..|s| - 1]) * 10 + (s[|s| - 1] as int - '0' as int)
    else DigitsValue(s[..|s| - 1])
  }

  /** `int(s)` for a `str` argument: `None` where Python raises `ValueError`.
      Surrounding whitespace is ignored, one sign is allowed, and the digits
      may be grouped with single underscores. */
  function ParseInt(s: string): Option<int>
  {
    var t := Strip(s);
    if |t| > 0 && (t[0] == '+' || t[0] == '-') then
      if DigitGroup(t[1..]) then
        Some(if t[0] == '-' then -(DigitsValue(t[1..]) as int) else DigitsValue(t[1..]))
      else None
    else if DigitGroup(t) then Some(DigitsValue(t))
    else None
  }

  function DigitChar(d: nat): char
    requires d < 10
  {
    ('0' as int + d) as char
  }

  /** `str(n)` for a natural number */
  function NatToDecimal(n: nat): string
    decreases n
  {
    if n < 10 then [DigitChar(n)] else NatToDecimal(n / 10) + [DigitChar(n % 10)]
  }

  /** `str(i)` for an integer */
  function IntToDecimal(i: int): string
  {
    if i < 0 then "-" + NatToDecimal(-i) else NatToDecimal(i)
  }

  lemma {:induction false} NatToDecimalDigits(n: nat)
    ensures |NatToDecimal(n)| > 0
    ensures forall k :: 0 <= k < |NatToDecimal(n)| ==> IsDigit(NatToDecimal(n)[k])
    ensures DigitsValue(NatToDecimal(n)) == n
    decreases n
  {
    if n >= 10 {
      NatToDecimalDigits(n / 10);
      var s := NatToDecimal(n);
      assert s[..|s| - 1] == NatToDecimal(n / 10);
    }
  }

  lemma StripDigits(s: string)
    requires |s| > 0 && !IsSpace(s[0]) && !IsSpace(s[|s| - 1])
    ensures Strip(s) == s
  {
  }

  /** `int(str(i)) == i`: reading back a printed integer gives it back. */
  lemma ParseIntOfDecimal(i: int)
    ensures ParseInt(IntToDecimal(i)) == Some(i)
  {
    var n: nat := if i < 0 then -i else i;
    NatToDecimalDigits(n);
    var d := NatToDecimal(n);
    assert DigitGroup(d);
    var s := IntToDecimal(i);
    assert s[|s| - 1] == d[|d| - 1];
    StripDigits(s);
    if i < 0 {
      assert s[1..] == d;
    }
  }

  /** `int()` only ever accepts strings holding at least one digit. */
  lemma ParseIntNeedsDigit(s: string)
    requires ParseInt(s).Some?
    ensures exists k :: 0 <= k < |s| && IsDigit(s[k])
  {
    var t := StripLeft(s);
    StripLeftSuffix(s);
    StripRightPrefix(t);
    var u := Strip(s);
    var j := if u[0] == '+' || u[0] == '-' then 1 else 0;
    assert IsDigit(u[j]);
    assert u[j] == s[|s| - |t| + j];
  }

  lemma {:induction false} StripLeftSuffix(s: string)
    ensures |StripLeft(s)| <= |s| && StripLeft(s) == s[|s| - |StripLeft(s)|..]
    decreases |s|
  {
    if |s| > 0 && IsSpace(s[0]) {
      StripLeftSuffix(s[1..]);
    }
  }

  lemma {:induction false} StripRightPrefix(s: string)
    ensures |StripRight(s)| <= |s| && StripRight(s) == s[..|StripRight(s)|]
    decreases |s|
  {
    if |s| > 0 && IsSpace(s[|s| - 1]) {
      StripRightPrefix(s[..|s| - 1]);
    }
  }
}
