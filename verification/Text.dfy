/** Strings as the gateway handles them: `split`, `join`, `reverse`, and the
    decimal text of integers with the prefix-reading `parseInt`. */
module Text {
  import opened Basics

  /** JavaScript `s.split(sep)`: never empty, separators removed. */
  function Split(s: string, sep: char): (parts: seq<string>)
    ensures |parts| >= 1
  {
    if s == "" then [""]
    else
      var rest := Split(s[1..], sep);
      if s[0] == sep then [""] + rest else [[s[0]] + rest[0]] + rest[1..]
  }

  /** JavaScript `parts.join(sep)`. */
  function Join(parts: seq<string>, sep: char): string
  {
    if |parts| == 0 then ""
    else if |parts| == 1 then parts[0]
    else parts[0] + [sep] + Join(parts[1..], sep)
  }

  lemma {:induction false} SplitFree(s: string, sep: char)
    requires sep !in s
    ensures Split(s, sep) == [s]
  {
    if s != "" {
      SplitFree(s[1..], sep);
      assert [s[0]] + s[1..] == s;
    }
  }

  lemma {:induction false} SplitAtSeparator(a: string, sep: char, b: string)
    requires sep !in a
    ensures Split(a + [sep] + b, sep) == [a] + Split(b, sep)
  {
    var s := a + [sep] + b;
    if a == "" {
      assert s[1..] == b;
    } else {
      assert s[1..] == a[1..] + [sep] + b;
      SplitAtSeparator(a[1..], sep, b);
      assert [a[0]] + a[1..] == a;
    }
  }

  lemma {:induction false} SplitJoin(parts: seq<string>, sep: char)
    requires |parts| >= 1 && forall i :: 0 <= i < |parts| ==> sep !in parts[i]
    ensures Split(Join(parts, sep), sep) == parts
  {
    if |parts| == 1 {
      SplitFree(parts[0], sep);
    } else {
      SplitJoin(parts[1..], sep);
      SplitAtSeparator(parts[0], sep, Join(parts[1..], sep));
    }
  }

  lemma {:induction false} JoinSplit(s: string, sep: char)
    ensures Join(Split(s, sep), sep) == s
    ensures forall i :: 0 <= i < |Split(s, sep)| ==> sep !in Split(s, sep)[i]
  {
    if s != "" {
      var rest := Split(s[1..], sep);
      JoinSplit(s[1..], sep);
      if s[0] == sep {
        assert ([""] + rest)[1..] == rest;
        assert s == "" + [sep] + s[1..];
      } else {
        var parts := [[s[0]] + rest[0]] + rest[1..];
        assert Join(parts, sep) == [s[0]] + Join(rest, sep) by {
          if |rest| > 1 {
            assert parts[1..] == rest[1..];
            assert [s[0]] + rest[0] + [sep] + Join(rest[1..], sep)
                == [s[0]] + (rest[0] + [sep] + Join(rest[1..], sep));
          }
        }
        forall i | 0 <= i < |parts| ensures sep !in parts[i] {
          assert i == 0 ==> sep !in rest[0];
          assert i > 0 ==> parts[i] == rest[i];
        }
      }
    }
  }

  function Reverse(s: string): (r: string)
    ensures |r| == |s|
    ensures forall i :: 0 <= i < |s| ==> r[i] == s[|s| - 1 - i]
  {
    if s == "" then "" else Reverse(s[1..]) + [s[0]]
  }

  lemma ReverseConcat(a: string, b: string)
    ensures Reverse(a + b) == Reverse(b) + Reverse(a)
  {
  }

  lemma ReverseTwice(s: string)
    ensures Reverse(Reverse(s)) == s
  {
  }

  // ---- decimal text ------------------------------------------------------

  predicate IsDigit(c: char) { '0' <= c <= '9' }

  predicate AllDigits(s: string) { forall i :: 0 <= i < |s| ==> IsDigit(s[i]) }

  function DigitValue(c: char): nat
    requires IsDigit(c)
  {
    (c as int) - ('0' as int)
  }

  function DigitChar(d: nat): (c: char)
    requires d < 10
    ensures IsDigit(c) && DigitValue(c) == d
  {
    ('0' as int + d) as char
  }

  /** The decimal text of a natural number, no leading zeros. */
  function NatText(n: nat): (s: string)
    ensures |s| >= 1 && AllDigits(s)
    ensures s[0] == '0' ==> n == 0
  {
    if n < 10 then [DigitChar(n)] else NatText(n / 10) + [DigitChar(n % 10)]
  }

  /** The number that a string of digits denotes (0 for the empty string). */
  function NatValue(s: string): nat
    requires AllDigits(s)
  {
    if s == "" then 0 else 10 * NatValue(s[..|s| - 1]) + DigitValue(s[|s| - 1])
  }

  lemma {:induction false} NatValueOfText(n: nat)
    ensures NatValue(NatText(n)) == n
  {
    var s := NatText(n);
    if n >= 10 {
      NatValueOfText(n / 10);
      assert s[..|s| - 1] == NatText(n / 10);
    } else {
      assert s[..|s| - 1] == "";
    }
  }

  function Pow10(k: nat): (p: nat)
    ensures p >= 1
  {
    if k == 0 then 1 else 10 * Pow10(k - 1)
  }

  lemma TimesTen(x: int, p: int)
    ensures 10 * (x * p) == x * (10 * p)
  {
  }

  lemma {:induction false} NatValueConcat(a: string, b: string)
    requires AllDigits(a) && AllDigits(b)
    ensures AllDigits(a + b)
    ensures NatValue(a + b) == NatValue(a) * Pow10(|b|) + NatValue(b)
  {
    var s := a + b;
    if b == "" {
      assert s == a;
    } else {
      var b' := b[..|b| - 1];
      NatValueConcat(a, b');
      assert s[..|s| - 1] == a + b' && s[|s| - 1] == b[|b| - 1];
      TimesTen(NatValue(a), Pow10(|b'|));
    }
  }

  lemma {:induction false} ZerosValue(k: nat)
    ensures AllDigits(seq(k, _ => '0')) && NatValue(seq(k, _ => '0')) == 0
  {
    if k > 0 {
      ZerosValue(k - 1);
      assert seq(k, _ => '0')[..k - 1] == seq(k - 1, _ => '0');
    }
  }

  function IntText(n: int): string
  {
    if n < 0 then "-" + NatText(-n) else NatText(n)
  }

  function DigitPrefix(s: string): (p: string)
    ensures AllDigits(p) && p <= s
  {
    if s == "" || !IsDigit(s[0]) then "" else [s[0]] + DigitPrefix(s[1..])
  }

  /** JavaScript `parseInt` on text without leading blanks or a `0x` prefix:
      it reads an optional sign and the longest run of digits and ignores
      the rest; `None` stands for NaN. */
  function ParseInt(s: string): Option<int>
  {
    var signed := |s| > 0 && (s[0] == '-' || s[0] == '+');
    var digits := DigitPrefix(if signed then s[1..] else s);
    if digits == "" then None
    else
      var magnitude: int := NatValue(digits);
      Some(if signed && s[0] == '-' then -magnitude else magnitude)
  }

  lemma {:induction false} DigitPrefixAll(s: string)
    requires AllDigits(s)
    ensures DigitPrefix(s) == s
  {
    if s != "" { DigitPrefixAll(s[1..]); }
  }

  /** Every integer, negative ones included, survives being printed and parsed,
      and its text holds none of the store's separators. */
  lemma ParseIntText(n: int)
    ensures ParseInt(IntText(n)) == Some(n)
    ensures forall i :: 0 <= i < |IntText(n)| ==> IsDigit(IntText(n)[i]) || IntText(n)[i] == '-'
  {
    hide NatText, NatValue, DigitPrefix;
    var m: nat := if n < 0 then -n else n;
    DigitPrefixAll(NatText(m));
    NatValueOfText(m);
    if n < 0 { assert IntText(n)[1..] == NatText(m); }
  }

  lemma {:induction false} DigitPrefixStops(digits: string, rest: string)
    requires AllDigits(digits) && (rest == "" || !IsDigit(rest[0]))
    ensures DigitPrefix(digits + rest) == digits
  {
    if digits == "" {
      assert digits + rest == rest;
    } else {
      assert (digits + rest)[0] == digits[0] && (digits + rest)[1..] == digits[1..] + rest;
      DigitPrefixStops(digits[1..], rest);
    }
  }

  /** Parsing stops at the first character after the digits, whatever follows. */
  lemma ParseIntStops(n: int, rest: string)
    requires rest == "" || !IsDigit(rest[0])
    ensures ParseInt(IntText(n) + rest) == Some(n)
  {
    hide NatText, DigitPrefix, NatValue;
    var m: nat := if n < 0 then -n else n;
    var digits := NatText(m);
    NatValueOfText(m);
    DigitPrefixStops(digits, rest);
    assert IsDigit(digits[0]) && (digits + rest)[0] == digits[0];
    if n < 0 {
      assert (IntText(n) + rest)[0] == '-' && (IntText(n) + rest)[1..] == digits + rest;
    }
  }

  /** A text that starts with neither a digit nor a sign is no number. */
  lemma ParseIntOfOther(s: string)
    requires s == "" || (!IsDigit(s[0]) && s[0] != '-' && s[0] != '+')
    ensures ParseInt(s) == None
  {
  }
}
