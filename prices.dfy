/** `clean_price` (scraper_iphone.py): a price text as shown on the vendor's
    pages becomes a number. The text is lower-cased, `€` and `ttc` are deleted,
    every `.` is deleted (taken as a thousands separator), every `,` becomes `.`
    (the decimal separator), and the result is stripped and parsed; anything
    that does not parse, and the sentinel `"N/A"`, is worth 0. */
module Prices {
  import opened Wrappers
  import opened Strings

  /** The text the scraper stores when a listing shows no price. */
  const NotAvailable: string := "N/A"

  /** The string transform of `clean_price`, before the parse. */
  function CleanText(raw: string): string {
    Strip(SwapSeparators(Deletions(Lower(raw))))
  }

  /** `€` deleted, then `ttc` deleted. */
  function Deletions(lowered: string): string {
    ReplaceAll(ReplaceAll(lowered, "€", ""), "ttc", "")
  }

  /** Every `.` deleted, then every `,` turned into `.`. */
  function SwapSeparators(s: string): string {
    ReplaceAll(ReplaceAll(s, ".", ""), ",", ".")
  }

  // ---------------------------------------------------------------------
  // float() on a plain decimal literal

  /** `s` without its one optional leading sign. */
  function Unsigned(s: string): string {
    if |s| > 0 && (s[0] == '+' || s[0] == '-') then s[1..] else s
  }

  /** The texts the parse accepts, described without reference to the parser:
      an optional sign, then digits and at most one `.`, with a digit
      somewhere. */
  predicate IsDecimalLiteral(s: string) {
    var b := Unsigned(s);
    && (forall i :: 0 <= i < |b| ==> IsDigit(b[i]) || b[i] == '.')
    && Count(b, '.') <= 1
    && exists i :: 0 <= i < |b| && IsDigit(b[i])
  }

  function Pow10(n: nat): (p: nat)
    ensures p >= 1
  {
    if n == 0 then 1 else 10 * Pow10(n - 1)
  }

  /** The number written `<units>.<fraction>`. */
  function Decimal(units: string, fraction: string): real
    requires AllDigits(units) && AllDigits(fraction)
  {
    DigitsValue(units) as real + DigitsValue(fraction) as real / Pow10(|fraction|) as real
  }

  /** Digits, optionally a `.` and more digits; not `"."` alone. */
  function ParseUnsigned(b: string): Option<real> {
    var n := LeadingDigits(b);
    if n == |b| then
      if n > 0 then Some(DigitsValue(b) as real) else None
    else if b[n] == '.' && AllDigits(b[n + 1..]) && (n > 0 || n + 1 < |b|) then
      Some(Decimal(b[..n], b[n + 1..]))
    else None
  }

  /** Python's `float()` restricted to plain decimal literals: `None` stands
      for the `ValueError` it raises. */
  function ParseDecimal(s: string): Option<real> {
    var v := ParseUnsigned(Unsigned(s));
    if |s| > 0 && s[0] == '-' then
      match v
      case Some(x) => Some(-x)
      case None => None
    else v
  }

  /** `clean_price`. */
  function CleanPrice(raw: string): (p: real)
    ensures raw == NotAvailable ==> p == 0.0
    ensures raw != NotAvailable && ParseDecimal(CleanText(raw)).Some? ==>
              p == ParseDecimal(CleanText(raw)).value
  {
    if raw == NotAvailable then 0.0 else ParseDecimal(CleanText(raw)).GetOr(0.0)
  }

  // ---------------------------------------------------------------------
  // What the parse accepts

  lemma ParseUnsignedAcceptsExactly(b: string)
    ensures ParseUnsigned(b).Some? <==> IsDecimalLiteral(b) && Unsigned(b) == b
  {
    if LeadingDigits(b) == |b| {
      AllDigitsAccepted(b);
    } else {
      StopAtNonDigit(b);
    }
  }

  /** A run of digits parses exactly when it is not empty. */
  lemma AllDigitsAccepted(b: string)
    requires LeadingDigits(b) == |b|
    ensures ParseUnsigned(b).Some? <==> IsDecimalLiteral(b) && Unsigned(b) == b
  {
    assert b[..|b|] == b;
    DigitsLiteral(b);
  }

  lemma DigitsLiteral(b: string)
    requires AllDigits(b)
    ensures Unsigned(b) == b
    ensures IsDecimalLiteral(b) <==> |b| > 0
  {
    CountZero(b, '.');
    if |b| > 0 {
      assert IsDigit(b[0]);
    }
  }

  /** Past the leading digits, only a `.` followed by digits parses. */
  lemma StopAtNonDigit(b: string)
    requires LeadingDigits(b) < |b|
    ensures ParseUnsigned(b).Some? <==> IsDecimalLiteral(b) && Unsigned(b) == b
  {
    if ParseUnsigned(b).Some? {
      PointAccepted(b);
    } else if IsDecimalLiteral(b) && Unsigned(b) == b {
      LiteralParses(b);
    }
  }

  /** The count of `c` in `b`, split around position `n`. */
  lemma CountAround(b: string, n: nat, c: char)
    requires n < |b|
    ensures Count(b, c) == Count(b[..n], c) + (if b[n] == c then 1 else 0) + Count(b[n + 1..], c)
  {
    var tail := [b[n]] + b[n + 1..];
    assert b == b[..n] + tail;
    CountConcat(b[..n], tail, c);
    assert tail[1..] == b[n + 1..];
  }

  lemma PointAccepted(b: string)
    requires LeadingDigits(b) < |b| && ParseUnsigned(b).Some?
    ensures IsDecimalLiteral(b) && Unsigned(b) == b
  {
    var n := LeadingDigits(b);
    assert b[n] == '.' && AllDigits(b[n + 1..]) && (n > 0 || n + 1 < |b|);
    PointLiteral(b, n);
  }

  /** Digits, a `.` and digits, with a digit somewhere, form a literal. */
  lemma PointLiteral(b: string, n: nat)
    requires n < |b| && AllDigits(b[..n]) && b[n] == '.' && AllDigits(b[n + 1..])
    requires n > 0 || n + 1 < |b|
    ensures IsDecimalLiteral(b) && Unsigned(b) == b
  {
    forall i | 0 <= i < |b|
      ensures IsDigit(b[i]) || b[i] == '.'
    {
      if i < n {
        assert b[i] == b[..n][i];
      } else if i > n {
        assert b[i] == b[n + 1..][i - n - 1];
      }
    }
    CountAround(b, n, '.');
    CountZero(b[..n], '.');
    CountZero(b[n + 1..], '.');
    if n > 0 {
      assert IsDigit(b[..n][0]);
    } else {
      assert IsDigit(b[n + 1..][0]);
    }
  }

  lemma LiteralParses(b: string)
    requires LeadingDigits(b) < |b| && IsDecimalLiteral(b) && Unsigned(b) == b
    ensures ParseUnsigned(b).Some?
  {
    var n := LeadingDigits(b);
    assert b[n] == '.';
    CountAround(b, n, '.');
    CountZero(b[n + 1..], '.');
    var rest := b[n + 1..];
    forall j | 0 <= j < |rest|
      ensures IsDigit(rest[j])
    {
      assert rest[j] == b[n + 1 + j];
    }
    var i :| 0 <= i < |b| && IsDigit(b[i]);
    assert i < n || n + 1 < |b|;
  }

  /** The parse succeeds exactly on the decimal literals. */
  lemma ParseDecimalAcceptsExactly(s: string)
    ensures ParseDecimal(s).Some? <==> IsDecimalLiteral(s)
  {
    var b := Unsigned(s);
    ParseUnsignedAcceptsExactly(b);
    if b != s {
      // A second sign is not a digit, so it is never accepted.
      assert b != [] && (b[0] == '+' || b[0] == '-') ==> !IsDecimalLiteral(s) && ParseUnsigned(b).None?;
    }
  }

  /** `float()` of a non-empty run of digits is the integer they spell. */
  lemma ParseDigits(ds: string)
    requires |ds| > 0 && AllDigits(ds)
    ensures ParseDecimal(ds) == Some(DigitsValue(ds) as real)
  {
    assert ds + [] == ds;
    LeadingDigitsOfDigitsThen(ds, []);
  }

  /** The parse of digits, a `.` and digits, read off at the `.`. */
  lemma UnsignedAtPoint(b: string, n: nat)
    requires 0 < n < |b| && LeadingDigits(b) == n && b[n] == '.' && AllDigits(b[n + 1..])
    ensures ParseUnsigned(b)
         == Some(Decimal(b[..n], b[n + 1..]))
  {
  }

  lemma PointSplit(units: string, fraction: string)
    requires AllDigits(units)
    ensures var b := units + "." + fraction;
            && b[..|units|] == units && b[|units| + 1..] == fraction && b[|units|] == '.'
            && LeadingDigits(b) == |units|
  {
    assert units + "." + fraction == units + ("." + fraction);
    LeadingDigitsOfDigitsThen(units, "." + fraction);
  }

  lemma UnsignedFixedPoint(units: string, fraction: string)
    requires |units| > 0 && AllDigits(units) && AllDigits(fraction)
    ensures ParseUnsigned(units + "." + fraction)
         == Some(Decimal(units, fraction))
  {
    PointSplit(units, fraction);
    UnsignedAtPoint(units + "." + fraction, |units|);
  }

  /** `float()` of `<units>.<fraction>` reads the fraction as decimals. */
  lemma ParseFixedPoint(units: string, fraction: string)
    requires |units| > 0 && AllDigits(units) && AllDigits(fraction)
    ensures ParseDecimal(units + "." + fraction)
         == Some(Decimal(units, fraction))
  {
    var b := units + "." + fraction;
    UnsignedFixedPoint(units, fraction);
    assert b[0] == units[0] && IsDigit(units[0]);
  }

  // ---------------------------------------------------------------------
  // Cleaning amounts written with digits and separators

  /** Digits, a minus sign and the two separators. */
  predicate AmountChars(s: string) {
    forall i :: 0 <= i < |s| ==> IsDigit(s[i]) || s[i] == '.' || s[i] == ',' || s[i] == '-'
  }

  /** Text holding neither separator. */
  predicate NoSeparator(s: string) {
    forall i :: 0 <= i < |s| ==> s[i] != '.' && s[i] != ','
  }

  /** A minus sign before digits is an amount without separator. */
  lemma SignedDigits(units: string)
    requires AllDigits(units)
    ensures AmountChars("-" + units) && NoSeparator("-" + units)
  {
    var x := "-" + units;
    forall i | 0 < i < |x|
      ensures x[i] == units[i - 1]
    {
    }
  }

  /** An amount, a separator and a run of digits form an amount. */
  lemma AmountOfDigits(a: string, sep: char, b: string)
    requires AmountChars(a) && AllDigits(b) && (sep == '.' || sep == ',')
    ensures AmountChars(a + [sep] + b)
  {
    var d := a + [sep] + b;
    forall i | 0 <= i < |d| ensures IsDigit(d[i]) || d[i] == '.' || d[i] == ',' || d[i] == '-' {
      if i < |a| {
        assert d[i] == a[i];
      } else if i > |a| {
        assert d[i] == b[i - |a| - 1];
      }
    }
  }

  /** Lowering and deleting `€` and `ttc` leave an amount unchanged. */
  lemma DeletionsOnAmount(d: string)
    requires AmountChars(d)
    ensures Deletions(Lower(d)) == d
  {
    LowerFixes(d);
    ReplaceAllNoFirstChar(d, "€", "");
    ReplaceAllNoFirstChar(d, "ttc", "");
  }

  /** ... and the euro sign after it is deleted. */
  lemma DeletionsOnAmountInEuros(d: string)
    requires AmountChars(d)
    ensures Deletions(Lower(d + " €")) == d + " "
  {
    var s := d + " ";
    assert s + "€" == d + " €";
    LowerFixes(s + "€");
    assert "€" == ['€'];
    ReplaceCharConcat(s, "€", '€', "");
    assert ReplaceAll("€", "€", "") == "";
    ReplaceAllNoFirstChar(s, "€", "");
    assert ReplaceAll(s + "€", "€", "") == s;
    ReplaceAllNoFirstChar(s, "ttc", "");
    assert ReplaceAll(s, "ttc", "") == s;
  }

  /** The separator swap leaves a trailing blank where it is. */
  lemma SwapBeforeBlank(d: string)
    ensures SwapSeparators(d + " ") == SwapSeparators(d) + " "
  {
    assert "." == ['.'] && "," == [','];
    ReplaceCharConcat(d, " ", '.', "");
    assert ReplaceAll(" ", ".", "") == " ";
    ReplaceCharConcat(ReplaceAll(d, ".", ""), " ", ',', ".");
    assert ReplaceAll(" ", ",", ".") == " ";
  }

  /** On an amount, alone or followed by `" €"`, cleaning only deletes the
      dots, turns the commas into dots and strips. */
  lemma CleanTextOfAmount(d: string)
    requires AmountChars(d)
    ensures CleanText(d) == Strip(SwapSeparators(d))
    ensures CleanText(d + " €") == Strip(SwapSeparators(d) + " ")
  {
    DeletionsOnAmount(d);
    DeletionsOnAmountInEuros(d);
    SwapBeforeBlank(d);
  }

  lemma CleanPriceFromText(raw: string, cleaned: string)
    requires raw != NotAvailable && CleanText(raw) == cleaned
    ensures CleanPrice(raw) == ParseDecimal(cleaned).GetOr(0.0)
  {
  }

  lemma CleanTextDecimalComma(units: string, cents: string)
    requires |units| > 0 && AllDigits(units) && AllDigits(cents)
    ensures CleanText(units + "," + cents + " €") == units + "." + cents
  {
    var d := units + "," + cents;
    AmountOfDigits(units, ',', cents);
    CleanTextOfAmount(d);
    assert NoSeparator(units);
    SwapOfComma(units, cents);
    FixedPointNotSpaces(units, cents);
    StripTrimmed(units + "." + cents);
  }

  /** Runs of digits joined by a separator hold no other non-digit. */
  lemma JoinedWithout(x: string, sep: char, y: string, c: char)
    requires AllDigits(x) && AllDigits(y) && sep != c && !IsDigit(c)
    ensures forall i :: 0 <= i < |x + [sep] + y| ==> (x + [sep] + y)[i] != c
  {
    var d := x + [sep] + y;
    forall i | 0 <= i < |d|
      ensures d[i] != c
    {
      if i < |x| {
        assert d[i] == x[i];
      } else if i > |x| {
        assert d[i] == y[i - |x| - 1];
      }
    }
  }

  lemma Regroup(a: string, b: string, c: string, d: string, e: string)
    ensures a + b + c + d + e == a + b + (c + d + e)
  {
  }

  /** A text without separator and a run of digits around a comma: the
      comma becomes a dot. */
  lemma SwapOfComma(x: string, y: string)
    requires NoSeparator(x) && AllDigits(y)
    ensures SwapSeparators(x + "," + y) == x + "." + y
  {
    var d := x + "," + y;
    assert d == x + [','] + y;
    forall i | 0 <= i < |d|
      ensures d[i] != '.'
    {
      if i < |x| {
        assert d[i] == x[i];
      } else if i > |x| {
        assert d[i] == y[i - |x| - 1];
      }
    }
    ReplaceAllNoFirstChar(d, ".", "");
    ReplaceSingleChar(x, y, ',', ".");
  }

  /** `<units>.<fraction>` neither starts nor ends with whitespace. */
  lemma FixedPointNotSpaces(units: string, fraction: string)
    requires |units| > 0 && AllDigits(units) && AllDigits(fraction)
    ensures var s := units + "." + fraction;
            !IsSpace(s[0]) && !IsSpace(s[|s| - 1])
  {
    var s := units + "." + fraction;
    assert s[0] == units[0];
    if fraction != [] {
      assert s[|s| - 1] == fraction[|fraction| - 1];
    }
  }

  /** `"<units>,<cents> €"`: the comma is the decimal separator. */
  lemma CleanPriceDecimalComma(units: string, cents: string)
    requires |units| > 0 && AllDigits(units) && AllDigits(cents)
    ensures CleanPrice(units + "," + cents + " €")
         == Decimal(units, cents)
  {
    var raw := units + "," + cents + " €";
    CleanTextDecimalComma(units, cents);
    ParseFixedPoint(units, cents);
    assert |raw| > |NotAvailable|;
    CleanPriceFromText(raw, units + "." + cents);
  }

  /** `"-<units>,<cents> €"`: the minus sign is kept. */
  lemma CleanTextNegativeDecimalComma(units: string, cents: string)
    requires |units| > 0 && AllDigits(units) && AllDigits(cents)
    ensures CleanText("-" + units + "," + cents + " €") == "-" + units + "." + cents
  {
    var x := "-" + units;
    var s := x + "." + cents;
    SignedDigits(units);
    AmountOfDigits(x, ',', cents);
    CleanTextOfAmount(x + "," + cents);
    SwapOfComma(x, cents);
    assert s[0] == '-';
    if cents != [] {
      assert s[|s| - 1] == cents[|cents| - 1];
    }
    StripTrimmed(s);
  }

  /** `float()` of `-<units>.<fraction>` is the negated amount. */
  lemma ParseNegativeFixedPoint(units: string, fraction: string)
    requires |units| > 0 && AllDigits(units) && AllDigits(fraction)
    ensures ParseDecimal("-" + units + "." + fraction) == Some(-Decimal(units, fraction))
  {
    var b := units + "." + fraction;
    assert "-" + units + "." + fraction == "-" + b;
    assert ("-" + b)[1..] == b;
    UnsignedFixedPoint(units, fraction);
  }

  /** `"-<units>,<cents> €"` is worth the negated amount. */
  lemma CleanPriceNegativeDecimalComma(units: string, cents: string)
    requires |units| > 0 && AllDigits(units) && AllDigits(cents)
    ensures CleanPrice("-" + units + "," + cents + " €") == -Decimal(units, cents)
  {
    var raw := "-" + units + "," + cents + " €";
    CleanTextNegativeDecimalComma(units, cents);
    ParseNegativeFixedPoint(units, cents);
    assert |raw| > |NotAvailable|;
    CleanPriceFromText(raw, "-" + units + "." + cents);
  }

  /** Deleting the dot joins the thousands to the units. */
  lemma ThousandsDotDeleted(thousands: string, units: string, cents: string)
    requires AllDigits(thousands) && AllDigits(units) && AllDigits(cents)
    ensures ReplaceAll(thousands + "." + units + "," + cents, ".", "") == thousands + units + "," + cents
  {
    var rest := units + [','] + cents;
    Regroup(thousands, ".", units, ",", cents);
    JoinedWithout(units, ',', cents, '.');
    ReplaceSingleChar(thousands, rest, '.', "");
    assert thousands + "" + rest == thousands + units + "," + cents;
  }

  /** Thousands, a dot, units, a comma and cents: the dot is deleted and
      the comma becomes a dot. */
  lemma SwapOfThousands(thousands: string, units: string, cents: string)
    requires AllDigits(thousands) && AllDigits(units) && AllDigits(cents)
    ensures SwapSeparators(thousands + "." + units + "," + cents) == thousands + units + "." + cents
  {
    var whole := thousands + units;
    ThousandsDotDeleted(thousands, units, cents);
    assert AllDigits(whole);
    assert whole + "," + cents == whole + [','] + cents;
    ReplaceSingleChar(whole, cents, ',', ".");
  }

  lemma CleanTextThousands(thousands: string, units: string, cents: string)
    requires |thousands| > 0 && AllDigits(thousands) && AllDigits(units) && AllDigits(cents)
    ensures CleanText(thousands + "." + units + "," + cents + " €") == thousands + units + "." + cents
  {
    var d := thousands + "." + units + "," + cents;
    AmountOfDigits(thousands, '.', units);
    AmountOfDigits(thousands + "." + units, ',', cents);
    CleanTextOfAmount(d);
    SwapOfThousands(thousands, units, cents);
    assert AllDigits(thousands + units);
    FixedPointNotSpaces(thousands + units, cents);
    StripTrimmed(thousands + units + "." + cents);
  }

  /** `"<thousands>.<units>,<cents> €"`: the dot is a thousands separator. */
  lemma CleanPriceThousands(thousands: string, units: string, cents: string)
    requires |thousands| > 0 && AllDigits(thousands) && AllDigits(units) && AllDigits(cents)
    ensures CleanPrice(thousands + "." + units + "," + cents + " €")
         == Decimal(thousands + units, cents)
  {
    var raw := thousands + "." + units + "," + cents + " €";
    CleanTextThousands(thousands, units, cents);
    ParseFixedPoint(thousands + units, cents);
    assert |raw| > |NotAvailable|;
    CleanPriceFromText(raw, thousands + units + "." + cents);
  }

  lemma CleanTextDotted(a: string, b: string)
    requires |a| > 0 && AllDigits(a) && AllDigits(b)
    ensures CleanText(a + "." + b) == a + b
  {
    var d := a + "." + b;
    AmountOfDigits(a, '.', b);
    CleanTextOfAmount(d);
    SwapOfDotted(a, b);
    DigitsAreNotSpaces(a + b);
    StripTrimmed(a + b);
  }

  /** Two runs of digits around a dot: the dot is deleted. */
  lemma SwapOfDotted(a: string, b: string)
    requires AllDigits(a) && AllDigits(b)
    ensures SwapSeparators(a + "." + b) == a + b
  {
    assert a + "." + b == a + ['.'] + b;
    ReplaceSingleChar(a, b, '.', "");
    assert a + "" + b == a + b;
    assert AllDigits(a + b);
    ReplaceAllNoFirstChar(a + b, ",", ".");
  }

  /** A non-empty run of digits neither starts nor ends with whitespace. */
  lemma DigitsAreNotSpaces(s: string)
    requires AllDigits(s)
    ensures s != [] ==> !IsSpace(s[0]) && !IsSpace(s[|s| - 1])
  {
  }

  /** `"<a>.<b>"` without a comma: the dot is deleted, not read as a decimal
      point, so the amount is the integer `<a><b>`. */
  lemma CleanPriceDotIsDeleted(a: string, b: string)
    requires |a| > 0 && AllDigits(a) && AllDigits(b)
    ensures CleanPrice(a + "." + b) == DigitsValue(a + b) as real
  {
    var d := a + "." + b;
    CleanTextDotted(a, b);
    ParseDigits(a + b);
    assert d != NotAvailable by {
      assert d[0] == a[0];
    }
    CleanPriceFromText(d, a + b);
  }

  // ---------------------------------------------------------------------
  // What the cleaning does to separators

  lemma LowerKeepsSeparators(s: string)
    ensures Count(Lower(s), ',') == Count(s, ',')
    ensures Count(Lower(s), '.') == Count(s, '.')
  {
    LowerKeepsCount(s, ',');
    LowerKeepsCount(s, '.');
  }

  /** Deleting `€` and `ttc` touches no separator. */
  lemma DeletionsKeepSeparator(lowered: string, c: char)
    requires c == ',' || c == '.'
    ensures Count(Deletions(lowered), c) == Count(lowered, c)
  {
    assert Count("€", c) == 0;
    assert Count("ttc", c) == 0;
    ReplaceAllKeepsCount(lowered, "€", "", c);
    ReplaceAllKeepsCount(ReplaceAll(lowered, "€", ""), "ttc", "", c);
  }

  /** Deleting every `.` and then turning every `,` into `.`. */
  lemma SeparatorSwap(s: string)
    ensures Count(SwapSeparators(s), ',') == 0
    ensures Count(SwapSeparators(s), '.') == Count(s, ',')
  {
    assert "." == ['.'] && "," == [','];
    var noDots := ReplaceAll(s, ['.'], "");
    ReplaceCharCount(s, '.', "", ',');
    ReplaceCharCount(s, '.', "", '.');
    ReplaceCharCount(noDots, ',', ['.'], ',');
    ReplaceCharCount(noDots, ',', ['.'], '.');
  }

  /** Every `.` of the cleaned text was a `,` of the price text, and no `,`
      is left: `"1.234,56 €"` cleans to `"1234.56"`, `"12.34"` to `"1234"`. */
  lemma CleanTextSeparators(raw: string)
    ensures Count(CleanText(raw), ',') == 0
    ensures Count(CleanText(raw), '.') == Count(raw, ',')
  {
    var lowered := Lower(raw);
    var swapped := SwapSeparators(Deletions(lowered));
    LowerKeepsSeparators(raw);
    DeletionsKeepSeparator(lowered, ',');
    SeparatorSwap(Deletions(lowered));
    StripKeepsCount(swapped, ',');
    StripKeepsCount(swapped, '.');
  }

  /** A text without a decimal literal after cleaning is worth 0. */
  lemma CleanPriceUnparsable(raw: string)
    requires !IsDecimalLiteral(CleanText(raw))
    ensures CleanPrice(raw) == 0.0
  {
    ParseDecimalAcceptsExactly(CleanText(raw));
  }
}
