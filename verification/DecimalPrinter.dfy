/** The decimal printer of gateway/src/services/base.ts and the grammar tests of
    gateway/src/services/validators.ts. */
module DecimalPrinter {
  import opened Text

  /** stringInsert; `substring` clamps an index past the end. */
  function StringInsert(str: string, val: string, index: int): string
  {
    if index > 0 then
      var i := if index < |str| then index else |str|;
      str[..i] + val + str[i..]
    else val + str
  }

  function Zeros(k: nat): (z: string)
    ensures |z| == k && forall i :: 0 <= i < k ==> z[i] == '0'
  {
    seq(k, _ => '0')
  }

  /** bigNumberWithDecimalToStr */
  function Print(n: int, d: nat): string
  {
    var text := IntText(n);
    var zeros := if |text| <= d then Zeros(d - |text| + 1) else "";
    Reverse(StringInsert(Reverse(text) + zeros, ".", d))
  }

  // ---- validators -----------------------------------------------------------

  predicate IsNaturalNumberString(s: string) { |s| >= 1 && AllDigits(s) }

  predicate IsIntegerString(s: string)
  {
    IsNaturalNumberString(if |s| > 0 && (s[0] == '+' || s[0] == '-') then s[1..] else s)
  }

  predicate IsFloatString(s: string)
  {
    if IsIntegerString(s) then true
    else
      var parts := Split(s, '.');
      |parts| == 2 && IsIntegerString(parts[0]) && IsNaturalNumberString(parts[1])
  }

  /** The number grammars, spelled out. */
  lemma IntegerStringIff(s: string)
    ensures IsIntegerString(s) <==>
      exists digits :: digits != "" && AllDigits(digits) && (s == digits || s == "+" + digits || s == "-" + digits)
  {
    if IsIntegerString(s) {
      var digits := if |s| > 0 && (s[0] == '+' || s[0] == '-') then s[1..] else s;
      assert s == digits || s == "+" + digits || s == "-" + digits;
    }
    if digits :| digits != "" && AllDigits(digits) && (s == digits || s == "+" + digits || s == "-" + digits) {
      assert IsDigit(digits[0]);
      assert ("+" + digits)[1..] == digits && ("-" + digits)[1..] == digits;
    }
  }

  lemma FloatStringIff(s: string)
    ensures IsFloatString(s) <==>
      IsIntegerString(s)
      || exists whole, fraction :: s == whole + "." + fraction && IsIntegerString(whole) && IsNaturalNumberString(fraction)
  {
    if IsFloatString(s) && !IsIntegerString(s) {
      var parts := Split(s, '.');
      JoinSplit(s, '.');
      assert parts == [parts[0], parts[1]] && [parts[0], parts[1]][1..] == [parts[1]];
      assert s == parts[0] + "." + parts[1];
    }
    if whole, fraction :| s == whole + "." + fraction && IsIntegerString(whole) && IsNaturalNumberString(fraction) {
      NoPointInInteger(whole);
      SplitAtSeparator(whole, '.', fraction);
      SplitFree(fraction, '.');
    }
  }

  lemma NoPointInInteger(s: string)
    requires IsIntegerString(s)
    ensures '.' !in s
  {
    if i :| 0 <= i < |s| && s[i] == '.' { NotInteger(s, i); }
  }

  // ---- what is printed --------------------------------------------------------

  /** The text filled up with zeros to more than `d` characters. */
  function Padded(n: int, d: nat): (p: string)
    ensures |p| > d
  {
    var text := IntText(n);
    (if |text| <= d then Zeros(d - |text| + 1) else "") + text
  }

  function Whole(n: int, d: nat): (s: string)
    ensures |s| >= 1
  {
    Padded(n, d)[..|Padded(n, d)| - d]
  }

  function Fraction(n: int, d: nat): (s: string)
    ensures |s| == d
  {
    Padded(n, d)[|Padded(n, d)| - d..]
  }

  lemma ReverseZeros(k: nat)
    ensures Reverse(Zeros(k)) == Zeros(k)
  {
  }

  /** Reversing the two parts of a reversed text gives the two parts of the text. */
  lemma ReverseParts(p: string, d: nat)
    requires d <= |p|
    ensures Reverse(Reverse(p)[d..]) == p[..|p| - d] && Reverse(Reverse(p)[..d]) == p[|p| - d..]
  {
    hide Reverse;
    var w, f := p[..|p| - d], p[|p| - d..];
    assert p == w + f;
    ReverseConcat(w, f);
    assert Reverse(p)[d..] == Reverse(w) && Reverse(p)[..d] == Reverse(f);
    ReverseTwice(w);
    ReverseTwice(f);
  }

  lemma ReverseInsert(p: string, d: nat)
    requires d < |p|
    ensures Reverse(StringInsert(Reverse(p), ".", d)) == p[..|p| - d] + "." + p[|p| - d..]
  {
    var rev := Reverse(p);
    assert Reverse(".") == ".";
    hide Reverse;
    var a, b := rev[..d], rev[d..];
    assert StringInsert(rev, ".", d) == a + "." + b by { if d == 0 { assert a == "" && b == rev; } }
    ReverseConcat(a + ".", b);
    ReverseConcat(a, ".");
    ReverseParts(p, d);
    assert Reverse(b) + ("." + Reverse(a)) == Reverse(b) + "." + Reverse(a);
  }

  /** Two reversals and an insertion put the point before the last `d` places. */
  lemma PrintShape(n: int, d: nat)
    ensures Print(n, d) == Whole(n, d) + "." + Fraction(n, d)
  {
    hide Reverse, IntText, StringInsert;
    var text := IntText(n);
    if |text| <= d {
      var zeros := Zeros(d - |text| + 1);
      ReverseConcat(zeros, text);
      ReverseZeros(d - |text| + 1);
    } else {
      assert "" + text == text && Reverse(text) + "" == Reverse(text);
    }
    ReverseInsert(Padded(n, d), d);
  }

  lemma PaddedValue(n: nat, d: nat)
    ensures AllDigits(Padded(n, d)) && NatValue(Padded(n, d)) == n
  {
    hide NatValue, NatText;
    var text := NatText(n);
    NatValueOfText(n);
    if |text| <= d {
      var k := d - |text| + 1;
      ZerosValue(k);
      NatValueConcat(Zeros(k), text);
    } else {
      assert "" + text == text;
    }
  }

  /** For every n >= 0 and d >= 0: at least one digit, the point, exactly d digits,
      and the digits read back, scaled by 10^d, as n. */
  lemma PrintedReadsBack(n: nat, d: nat)
    ensures Print(n, d) == Whole(n, d) + "." + Fraction(n, d)
    ensures |Whole(n, d)| >= 1 && |Fraction(n, d)| == d
    ensures AllDigits(Whole(n, d)) && AllDigits(Fraction(n, d))
    ensures NatValue(Whole(n, d)) * Pow10(d) + NatValue(Fraction(n, d)) == n
  {
    hide NatValue, Print, Pow10;
    PrintShape(n, d);
    PaddedValue(n, d);
    hide Padded;
    assert Whole(n, d) + Fraction(n, d) == Padded(n, d);
    NatValueConcat(Whole(n, d), Fraction(n, d));
  }

  /** The printed text is a float string exactly when there is a digit after the
      point and, for a negative number, a digit before it. */
  lemma PrintedIsFloatIff(n: int, d: nat)
    ensures IsFloatString(Print(n, d)) <==> d >= 1 && (n >= 0 || |NatText(-n)| > d)
  {
    hide Print, NatText, Padded;
    PrintShape(n, d);
    var w, f, s := Whole(n, d), Fraction(n, d), Print(n, d);
    assert s[|w|] == '.';
    NotInteger(s, |w|);
    NoPoint(n, d);
    SplitAtSeparator(w, '.', f);
    SplitFree(f, '.');
    assert Split(s, '.') == [w, f];
    if n >= 0 {
      PrintedReadsBack(n, d);
    } else {
      NegativeParts(n, d);
    }
  }

  lemma NotInteger(s: string, i: nat)
    requires i < |s| && s[i] == '.'
    ensures !IsIntegerString(s)
  {
    if |s| > 0 && (s[0] == '+' || s[0] == '-') {
      assert s[1..][i - 1] == '.';
    }
  }

  lemma NoPoint(n: int, d: nat)
    ensures '.' !in Whole(n, d) && '.' !in Fraction(n, d)
  {
    ParseIntText(n);
    assert forall i :: 0 <= i < |Padded(n, d)| ==> Padded(n, d)[i] != '.';
  }

  lemma NegativeParts(n: int, d: nat)
    requires n < 0
    ensures |NatText(-n)| > d ==> IsIntegerString(Whole(n, d)) && (d >= 1 ==> IsNaturalNumberString(Fraction(n, d)))
    ensures |NatText(-n)| == d ==> !IsIntegerString(Whole(n, d))
    ensures |NatText(-n)| < d ==> !IsNaturalNumberString(Fraction(n, d))
  {
    var digits, padded := NatText(-n), Padded(n, d);
    hide NatText, NatValue;
    assert IntText(n) == "-" + digits;
    if |digits| > d {
      assert padded == "-" + digits;
      MinusAndDigits(digits, d);
    } else if |digits| == d {
      assert padded == "-" + digits;
      assert Whole(n, d) == "-";
    } else {
      MinusInFraction(Zeros(d - |digits|), digits, d);
      assert padded == Zeros(d - |digits|) + ("-" + digits);
    }
  }

  lemma MinusAndDigits(digits: string, d: nat)
    requires |digits| > d && AllDigits(digits)
    ensures var p := "-" + digits;
      IsIntegerString(p[..|p| - d]) && AllDigits(p[|p| - d..])
  {
    var p := "-" + digits;
    assert p[..|p| - d][1..] == digits[..|digits| - d] && p[|p| - d..] == digits[|digits| - d..];
  }

  lemma MinusInFraction(zeros: string, digits: string, d: nat)
    requires |zeros| >= 1 && |zeros| + |digits| == d
    ensures var p := zeros + ("-" + digits); !AllDigits(p[|p| - d..])
  {
    var p := zeros + ("-" + digits);
    assert p[|p| - d..][|zeros| - 1] == '-';
  }

  // ---- gasCostInEthString -----------------------------------------------------

  const GWEI := 1000000000

  function Ceil(x: real): (c: int)
    ensures x <= c as real < x + 1.0
  {
    -((-x).Floor)
  }

  /** The cost in wei that is printed; the product is taken as exact. */
  function PrintedWei(gasPrice: real, gasLimit: real): int { Ceil(gasPrice * gasLimit) * GWEI }

  function GasCostInEthString(gasPrice: real, gasLimit: real): string { Print(PrintedWei(gasPrice, gasLimit), 18) }

  /** For a price in gwei the printed cost reads back as a whole number of gwei, in
      wei, that is never below the exact cost and less than 10^9 wei above it. */
  lemma GasCostIsCeiling(gasPrice: real, gasLimit: real)
    requires gasPrice >= 0.0 && gasLimit >= 0.0
    ensures var wei := PrintedWei(gasPrice, gasLimit);
      && wei >= 0 && wei % GWEI == 0
      && gasPrice * gasLimit * GWEI as real <= wei as real < gasPrice * gasLimit * GWEI as real + GWEI as real
      && AllDigits(Whole(wei, 18)) && AllDigits(Fraction(wei, 18))
      && GasCostInEthString(gasPrice, gasLimit) == Whole(wei, 18) + "." + Fraction(wei, 18)
      && NatValue(Whole(wei, 18)) * Pow10(18) + NatValue(Fraction(wei, 18)) == wei
      && IsFloatString(GasCostInEthString(gasPrice, gasLimit))
  {
    hide Print, NatValue, Pow10, PrintedWei;
    WeiBounds(gasPrice, gasLimit);
    var wei := PrintedWei(gasPrice, gasLimit);
    PrintedReadsBack(wei, 18);
    PrintedIsFloatIff(wei, 18);
  }

  lemma WeiBounds(gasPrice: real, gasLimit: real)
    requires gasPrice >= 0.0 && gasLimit >= 0.0
    ensures var wei, exact := PrintedWei(gasPrice, gasLimit), gasPrice * gasLimit * GWEI as real;
      wei >= 0 && wei % GWEI == 0 && exact <= wei as real < exact + GWEI as real
  {
    hide Ceil;
    var x := gasPrice * gasLimit;
    ScaledCeiling(x);
    WholeGwei(Ceil(x));
  }

  lemma WholeGwei(n: int)
    ensures (n * GWEI) % GWEI == 0
  {
  }

  lemma ScaledCeiling(x: real)
    requires x >= 0.0
    ensures Ceil(x) >= 0
    ensures x * GWEI as real <= (Ceil(x) * GWEI) as real < x * GWEI as real + GWEI as real
  {
    assert (Ceil(x) * GWEI) as real == Ceil(x) as real * 1000000000.0;
  }
}
