/**
 * The string built-ins that the step parser relies on: `str.split` with a
 * one-character separator, `str.strip()` with no argument, and `int(...)` on a
 * token, restricted to ASCII decimal digits.
 */
module Text {
  import opened Wrappers

  // ---------------------------------------------------------------------------
  // Splitting on a separator
  // ---------------------------------------------------------------------------

  /** Number of occurrences of `c` in `s`. */
  function Count(s: string, c: char): nat
  {
    if |s| == 0 then 0 else (if s[0] == c then 1 else 0) + Count(s[1..], c)
  }

  /**
   * `s.split(sep)`: the maximal separator-free pieces of `s`, in order.
   * There is always one piece more than there are separators, so the empty
   * string gives one empty piece.
   */
  function Split(s: string, sep: char): (r: seq<string>)
    ensures |r| == Count(s, sep) + 1
  {
    if |s| == 0 then [[]]
    else if s[0] == sep then [[]] + Split(s[1..], sep)
    else Extend(s[0], Split(s[1..], sep))
  }

  /** `parts` with `c` put in front of its first piece. */
  function Extend(c: char, parts: seq<string>): (r: seq<string>)
    requires |parts| > 0
    ensures |r| == |parts|
  {
    [[c] + parts[0]] + parts[1..]
  }

  lemma ExtendAppend(c: char, p: seq<string>, q: seq<string>)
    requires |p| > 0
    ensures Extend(c, p + q) == Extend(c, p) + q
  {
    assert (p + q)[0] == p[0];
    assert (p + q)[1..] == p[1..] + q;
  }

  /** `sep.join(parts)`, the inverse of `Split`. */
  function Join(parts: seq<string>, sep: char): string
    requires |parts| > 0
  {
    if |parts| == 1 then parts[0] else parts[0] + [sep] + Join(parts[1..], sep)
  }

  /** No piece contains the separator. */
  lemma {:induction false} SplitPiecesWithoutSep(s: string, sep: char)
    ensures forall i :: 0 <= i < |Split(s, sep)| ==> sep !in Split(s, sep)[i]
  {
    if |s| > 0 {
      SplitPiecesWithoutSep(s[1..], sep);
      var rest := Split(s[1..], sep);
      if s[0] != sep {
        assert forall i :: 1 <= i < |Split(s, sep)| ==> Split(s, sep)[i] == rest[i];
      } else {
        assert forall i :: 1 <= i < |Split(s, sep)| ==> Split(s, sep)[i] == rest[i - 1];
      }
    }
  }

  /** A string without the separator is a single piece. */
  lemma {:induction false} SplitWithoutSep(s: string, sep: char)
    requires sep !in s
    ensures Split(s, sep) == [s]
  {
    if |s| > 0 {
      assert sep !in s[1..] by {
        forall k | 0 <= k < |s[1..]| ensures s[1..][k] != sep { assert s[1..][k] == s[k + 1]; }
      }
      SplitWithoutSep(s[1..], sep);
      assert [s[0]] + s[1..] == s;
    }
  }

  /** A separator cuts the pieces into those before it and those after it. */
  lemma {:induction false} SplitAtSep(a: string, b: string, sep: char)
    ensures Split(a + [sep] + b, sep) == Split(a, sep) + Split(b, sep)
  {
    var s := a + [sep] + b;
    if |a| == 0 {
      assert s == [sep] + b && s[1..] == b;
    } else {
      assert s[0] == a[0] && s[1..] == a[1..] + [sep] + b;
      SplitAtSep(a[1..], b, sep);
      if a[0] != sep {
        ExtendAppend(a[0], Split(a[1..], sep), Split(b, sep));
      }
    }
  }

  lemma JoinExtend(c: char, parts: seq<string>, sep: char)
    requires |parts| > 0
    ensures Join(Extend(c, parts), sep) == [c] + Join(parts, sep)
  {
    var e := Extend(c, parts);
    if |parts| > 1 {
      assert e[1..] == parts[1..];
    }
  }

  /** Joining the pieces of `s` gives `s` back. */
  lemma {:induction false} JoinSplit(s: string, sep: char)
    ensures Join(Split(s, sep), sep) == s
  {
    if |s| > 0 {
      JoinSplit(s[1..], sep);
      var rest := Split(s[1..], sep);
      if s[0] == sep {
        assert ([[]] + rest)[1..] == rest;
      } else {
        JoinExtend(s[0], rest, sep);
      }
      assert [s[0]] + s[1..] == s;
    }
  }

  /** Splitting the join of separator-free pieces gives the pieces back. */
  lemma {:induction false} SplitJoin(parts: seq<string>, sep: char)
    requires |parts| > 0
    requires forall i :: 0 <= i < |parts| ==> sep !in parts[i]
    ensures Split(Join(parts, sep), sep) == parts
  {
    SplitWithoutSep(parts[0], sep);
    if |parts| > 1 {
      SplitJoin(parts[1..], sep);
      SplitAtSep(parts[0], Join(parts[1..], sep), sep);
      assert [parts[0]] + parts[1..] == parts;
    }
  }

  // ---------------------------------------------------------------------------
  // Stripping whitespace
  // ---------------------------------------------------------------------------

  /** The characters for which `str.isspace()` holds. */
  predicate IsSpace(c: char)
  {
    var n := c as int;
    (0x09 <= n <= 0x0D) || (0x1C <= n <= 0x20) || n == 0x85 || n == 0xA0 || n == 0x1680
    || (0x2000 <= n <= 0x200A) || n == 0x2028 || n == 0x2029 || n == 0x202F || n == 0x205F
    || n == 0x3000
  }

  predicate AllSpace(s: string)
  {
    forall k :: 0 <= k < |s| ==> IsSpace(s[k])
  }

  /** `s` with its leading whitespace removed. */
  function StripLeft(s: string): string
  {
    if |s| > 0 && IsSpace(s[0]) then StripLeft(s[1..]) else s
  }

  /** `s` with its trailing whitespace removed. */
  function StripRight(s: string): string
  {
    if |s| > 0 && IsSpace(s[|s| - 1]) then StripRight(s[..|s| - 1]) else s
  }

  /** `s.strip()` */
  function Strip(s: string): string
  {
    StripRight(StripLeft(s))
  }

  /** Leading whitespace in front of a core that does not start with whitespace is removed, and only it. */
  lemma {:induction false} StripLeftPadded(pre: string, u: string)
    requires AllSpace(pre)
    requires |u| > 0 ==> !IsSpace(u[0])
    ensures StripLeft(pre + u) == u
  {
    if |pre| > 0 {
      assert (pre + u)[1..] == pre[1..] + u;
      StripLeftPadded(pre[1..], u);
    } else if |u| == 0 {
      assert pre + u == [];
    } else {
      assert pre + u == u;
    }
  }

  /** Trailing whitespace after a core that does not end with whitespace is removed, and only it. */
  lemma {:induction false} StripRightPadded(u: string, post: string)
    requires AllSpace(post)
    requires |u| > 0 ==> !IsSpace(u[|u| - 1])
    ensures StripRight(u + post) == u
  {
    if |post| > 0 {
      assert (u + post)[..|u + post| - 1] == u + post[..|post| - 1];
      StripRightPadded(u, post[..|post| - 1]);
    } else {
      assert u + post == u;
    }
  }

  /** `strip()` removes exactly the whitespace padding around a core that neither starts nor ends with whitespace. */
  lemma StripPadded(pre: string, t: string, post: string)
    requires AllSpace(pre) && AllSpace(post)
    requires |t| > 0 ==> !IsSpace(t[0]) && !IsSpace(t[|t| - 1])
    ensures Strip(pre + t + post) == t
  {
    assert pre + t + post == pre + (t + post);
    if |t| > 0 {
      StripLeftPadded(pre, t + post);
      StripRightPadded(t, post);
    } else {
      assert t + post == post;
      assert AllSpace(pre + post);
      StripLeftPadded(pre + post, []);
      assert pre + post + [] == pre + post;
    }
  }

  /** A token made only of whitespace strips to the empty string. */
  lemma StripBlank(s: string)
    requires AllSpace(s)
    ensures Strip(s) == []
  {
    StripPadded(s, [], []);
    assert s + [] + [] == s;
  }

  // ---------------------------------------------------------------------------
  // Decimal integers
  // ---------------------------------------------------------------------------

  predicate IsDigit(c: char)
  {
    '0' <= c <= '9'
  }

  /** One or more ASCII decimal digits. */
  predicate IsDigits(s: string)
  {
    |s| > 0 && forall k :: 0 <= k < |s| ==> IsDigit(s[k])
  }

  function DigitValue(c: char): nat
    requires IsDigit(c)
  {
    (c as int) - ('0' as int)
  }

  /** The value of a run of digits, most significant first (leading zeros allowed). */
  function DigitsValue(s: string): nat
    requires forall k :: 0 <= k < |s| ==> IsDigit(s[k])
  {
    if |s| == 0 then 0 else DigitsValue(s[..|s| - 1]) * 10 + DigitValue(s[|s| - 1])
  }

  function DigitChar(d: nat): (c: char)
    requires d < 10
    ensures IsDigit(c) && DigitValue(c) == d
  {
    ('0' as int + d) as char
  }

  /** The canonical decimal spelling of `n`, as `str(n)` writes it. */
  function Decimal(n: nat): (s: string)
    ensures IsDigits(s)
  {
    if n < 10 then [DigitChar(n)] else Decimal(n / 10) + [DigitChar(n % 10)]
  }

  /** `str(n)` for any integer, with no limit on the number of digits (Python raises beyond 4300). */
  function FormatInt(n: int): string
  {
    if n < 0 then "-" + Decimal(-n) else Decimal(n)
  }

  /** An integer literal with no surrounding whitespace: an optional sign, then one or more decimal digits. */
  function ParseLiteral(u: string): Option<int>
  {
    if |u| > 0 && (u[0] == '+' || u[0] == '-') then
      if IsDigits(u[1..]) then
        var n: int := DigitsValue(u[1..]);
        Some(if u[0] == '-' then -n else n)
      else None
    else if IsDigits(u) then Some(DigitsValue(u))
    else None
  }

  /** `int(t)` with no limit on the number of digits; `None` where Python raises `ValueError` on a literal of at most 4300 digits. */
  function ParseInt(t: string): Option<int>
  {
    ParseLiteral(Strip(t))
  }

  /** Reading back the decimal spelling of `n` gives `n`. */
  lemma {:induction false} DecimalValue(n: nat)
    ensures DigitsValue(Decimal(n)) == n
  {
    if n >= 10 {
      DecimalValue(n / 10);
      var s := Decimal(n);
      assert s[..|s| - 1] == Decimal(n / 10);
    }
  }

  /** The model's `int(str(n)) == n` on an unpadded literal, for every integer (Python's agrees up to 4300 digits). */
  lemma ParseLiteralFormat(n: int)
    ensures ParseLiteral(FormatInt(n)) == Some(n)
  {
    var m: nat := if n < 0 then -n else n;
    DecimalValue(m);
    if n < 0 {
      assert FormatInt(n)[1..] == Decimal(m);
    }
  }

  /** The model's `int(str(n)) == n`, also with whitespace around the number. */
  lemma ParseFormatInt(n: int, pre: string, post: string)
    requires AllSpace(pre) && AllSpace(post)
    ensures ParseInt(pre + FormatInt(n) + post) == Some(n)
  {
    var m: nat := if n < 0 then -n else n;
    var d := Decimal(m);
    var f := FormatInt(n);
    assert IsDigit(d[0]) && IsDigit(d[|d| - 1]);
    if n < 0 {
      assert f[|f| - 1] == d[|d| - 1] && f[0] == '-';
    }
    StripPadded(pre, f, post);
    ParseLiteralFormat(n);
  }

  /** An empty or blank token is not an integer. */
  lemma ParseBlank(t: string)
    requires AllSpace(t)
    ensures ParseInt(t) == None
  {
    StripBlank(t);
  }

  /** The decimal spelling of an integer contains no character other than digits and '-', so no comma. */
  lemma FormatIntChars(n: int, c: char)
    requires !IsDigit(c) && c != '-'
    ensures c !in FormatInt(n)
  {
    var f := FormatInt(n);
    forall k | 0 <= k < |f| ensures f[k] != c {
      if n < 0 && k > 0 { assert f[k] == Decimal(-n)[k - 1]; }
    }
  }

  /** A padded integer contains no character that is neither whitespace, a digit nor '-'. */
  lemma PaddedIntWithoutSep(n: int, pre: string, post: string, c: char)
    requires AllSpace(pre) && AllSpace(post)
    requires !IsSpace(c) && !IsDigit(c) && c != '-'
    ensures c !in pre + FormatInt(n) + post
  {
    FormatIntChars(n, c);
    assert forall k :: 0 <= k < |pre| ==> pre[k] != c;
    assert forall k :: 0 <= k < |post| ==> post[k] != c;
  }
}
