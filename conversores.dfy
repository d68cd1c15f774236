/** The converters of `src/utils/conversores.ts`: two-digit padding, a date
    parser and printer, and the currency and percentage text helpers. */
module Conversores {
  import opened JsText
  import opened JsNumber
  import opened JsDate

  /** `preencherZeroNumeroData`: a number as at least two digits. */
  function PreencherZeroNumeroData(n: nat): (r: string)
    ensures |r| >= 2 && AllDigits(r) && DigitsValue(r) == n
    ensures n < 10 ==> r == ['0', DigitChar(n)]
    ensures n >= 10 ==> r == NatToString(n)
  {
    var s := NatToString(n);
    if n < 10 then
      LeadingZero(s);
      assert PadStart(s, 2, '0') == "0" + s;
      PadStart(s, 2, '0')
    else PadStart(s, 2, '0')
  }

  /** On two-digit text the padding undoes reading the digits: it is the
      inverse of `DigitsValue` there. */
  lemma PreencherZeroInverse(a: string)
    requires |a| == 2 && AllDigits(a)
    ensures PreencherZeroNumeroData(DigitsValue(a)) == a
  {
    var n := DigitsValue(a);
    assert a[..1][..0] == [] && a[..1] == [a[0]];
    assert DigitsValue(a[..1]) == DigitValue(a[0]);
    assert n == DigitValue(a[0]) * 10 + DigitValue(a[1]);
    if a[0] == '0' {
      assert a == ['0', DigitChar(n)];
    } else {
      NatToStringOfDigits(a);
    }
  }

  /** `gerarDatePorString`: `dd/mm/yyyy` to `new Date(+ano, +mes - 1, +dia)`;
      null for the empty string. */
  function GerarDatePorString(dataString: string): (r: Option<JsDate>)
    ensures r.None? <==> dataString == ""
  {
    if dataString == "" then None
    else
      var parts := Split(dataString, '/');
      Some(NewDate(ElementToNumber(parts, 2), Minus(ElementToNumber(parts, 1), 1), ElementToNumber(parts, 0)))
  }

  /** The line break and indentation that the template literal of
      `gerarStringPorDate` puts before each `/`. */
  const Quebra: string := "\n      "

  const Separador: string := Quebra + "/"

  /** `gerarStringPorDate`: day, zero-based month and year joined by
      `Separador`; null for a missing date. */
  function GerarStringPorDate(data: Option<Date>): (r: Option<string>)
    ensures r.None? <==> data.None?
  {
    match data
    case None => None
    case Some(d) =>
      Some(PreencherZeroNumeroData(d.day) + Separador + PreencherZeroNumeroData(d.month0)
           + Separador + IntToString(d.year))
  }

  /** `gerarDatePorString` reads the fields between the first two slashes as
      day, one-based month and year. */
  lemma {:induction false} ParsesDayMonthYear(a: string, b: string, c: string)
    requires '/' !in a && '/' !in b && '/' !in c
    ensures GerarDatePorString(a + "/" + b + "/" + c)
         == Some(NewDate(ToNumber(c), Minus(ToNumber(b), 1), ToNumber(a)))
  {
    SplitThree(a, b, c, '/');
    assert |a + "/" + b + "/" + c| > 0;
  }

  /** A digit year past the last year `new Date` can partly hold gives an
      Invalid Date, as `01/01/300000` does. The earliest date digit fields
      can name in year c is `new Date(c, -1, 0)`, 30 November of year c - 1,
      which is past the time-value limit from c = 275761 on. */
  lemma YearBeyondRangeIsInvalid(a: string, b: string, c: string)
    requires AllDigits(a) && AllDigits(b) && AllDigits(c) && |a| > 0 && |b| > 0 && |c| > 0
    requires DigitsValue(c) > MaxYear + 1
    ensures GerarDatePorString(a + "/" + b + "/" + c) == Some(InvalidDate)
  {
    DigitsExclude(a, '/');
    DigitsExclude(b, '/');
    DigitsExclude(c, '/');
    ParsesDayMonthYear(a, b, c);
    ToNumberDigits(a);
    ToNumberDigits(b);
    ToNumberDigits(c);
    TruncateWhole(DigitsValue(c));
  }

  /** Fewer than three fields leave the year `undefined`: an Invalid Date. */
  lemma MissingYearIsInvalid(a: string, b: string)
    requires '/' !in a && '/' !in b
    ensures GerarDatePorString(a + "/" + b) == Some(InvalidDate)
  {
    SplitTwo(a, b, '/');
  }

  /** The printed date splits into the padded day, the padded ZERO-BASED
      month and the year, the first two followed by the line break and
      indentation. */
  lemma PrintedDateFields(d: Date)
    ensures GerarStringPorDate(Some(d)).Some?
    ensures Split(GerarStringPorDate(Some(d)).value, '/')
         == [PreencherZeroNumeroData(d.day) + Quebra, PreencherZeroNumeroData(d.month0) + Quebra, IntToString(d.year)]
  {
    var c := IntToString(d.year);
    IntToStringExcludes(d.year, '/');
    SplitSeparated(PreencherZeroNumeroData(d.day), PreencherZeroNumeroData(d.month0), c);
  }

  lemma SplitSeparated(x: string, y: string, z: string)
    requires AllDigits(x) && AllDigits(y) && '/' !in z
    ensures Split(x + Separador + y + Separador + z, '/') == [x + Quebra, y + Quebra, z]
  {
    NoSlashBeforeBreak(x);
    NoSlashBeforeBreak(y);
    SeparatorsRegroup(x, y, z);
    SplitThree(x + Quebra, y + Quebra, z, '/');
  }

  lemma SeparatorsRegroup(x: string, y: string, z: string)
    ensures x + Separador + y + Separador + z == (x + Quebra) + "/" + (y + Quebra) + "/" + z
  {
  }

  lemma NoSlashBeforeBreak(x: string)
    requires AllDigits(x)
    ensures '/' !in x + Quebra
  {
    DigitsExclude(x, '/');
  }

  /** `Number` reads a padded field followed by white space as the field. */
  lemma PaddedFieldValue(n: nat)
    ensures ToNumber(PreencherZeroNumeroData(n) + Quebra) == Finite(n as real)
  {
    var p := PreencherZeroNumeroData(n);
    BreakIsWhiteSpace();
    FieldThenBreak(p, p + Quebra);
  }

  lemma BreakIsWhiteSpace()
    ensures AllWhiteSpace(Quebra)
  {
  }

  lemma FieldThenBreak(p: string, s: string)
    requires AllDigits(p) && |p| > 0 && AllWhiteSpace(Quebra)
    requires s == p + Quebra
    ensures ToNumber(s) == Finite(DigitsValue(p) as real)
  {
    assert s == [] + p + Quebra;
    ToNumberIgnoresWhiteSpace([], p, Quebra);
    ToNumberDigits(p);
  }

  /** A date text whose first three fields read as whole numbers gives the
      date with those fields, the month moved one down, or an Invalid Date
      when `new Date` cannot hold the year. */
  lemma ParseOfFieldValues(s: string, day: int, month: int, year: int)
    requires s != ""
    requires ElementToNumber(Split(s, '/'), 0) == Finite(day as real)
    requires ElementToNumber(Split(s, '/'), 1) == Finite(month as real)
    requires ElementToNumber(Split(s, '/'), 2) == Finite(year as real)
    ensures InYearRange(FullYear(year)) ==> GerarDatePorString(s) == Some(Built(DateFields(FullYear(year), month - 1, day)))
    ensures !InYearRange(FullYear(year)) ==> GerarDatePorString(s) == Some(InvalidDate)
  {
    assert Minus(Finite(month as real), 1) == Finite((month - 1) as real);
    NewDateOfWholeNumbers(year, month - 1, day);
  }

  /** The three printed fields read as the day, the zero-based month and the
      year. */
  lemma PrintedFieldValues(d: Date)
    requires GerarStringPorDate(Some(d)).Some?
    ensures ElementToNumber(Split(GerarStringPorDate(Some(d)).value, '/'), 0) == Finite(d.day as real)
    ensures ElementToNumber(Split(GerarStringPorDate(Some(d)).value, '/'), 1) == Finite(d.month0 as real)
    ensures ElementToNumber(Split(GerarStringPorDate(Some(d)).value, '/'), 2) == Finite(d.year as real)
  {
    PrintedDateFields(d);
    PrintedPartValues(d, Split(GerarStringPorDate(Some(d)).value, '/'));
  }

  lemma PrintedPartValues(d: Date, parts: seq<string>)
    requires parts == [PreencherZeroNumeroData(d.day) + Quebra, PreencherZeroNumeroData(d.month0) + Quebra,
                       IntToString(d.year)]
    ensures ElementToNumber(parts, 0) == Finite(d.day as real)
    ensures ElementToNumber(parts, 1) == Finite(d.month0 as real)
    ensures ElementToNumber(parts, 2) == Finite(d.year as real)
  {
    PaddedFieldValue(d.day);
    PaddedFieldValue(d.month0);
    ToNumberIntToString(d.year);
    ThreeElements(parts, parts[0], parts[1], parts[2],
                  Finite(d.day as real), Finite(d.month0 as real), Finite(d.year as real));
  }

  /** Reading back a printed date builds `new Date` from the same day and
      year fields and the month field one lower: `gerarStringPorDate` prints
      the zero-based month where `gerarDatePorString` expects a one-based
      one, so the pair is never a round trip. The fields name the same day
      of the previous month only when the year is outside 0 to 99, the date
      is not in January and the previous month has that day; otherwise
      JavaScript would carry them (month -1 is December of the year before,
      31 February is in March), which the model leaves as fields. */
  lemma PrintedDateReadsMonthEarlier(d: Date)
    ensures GerarDatePorString(GerarStringPorDate(Some(d)).value)
         == Some(Built(DateFields(FullYear(d.year), d.month0 - 1, d.day)))
    ensures !(0 <= d.year <= 99)
        ==> GerarDatePorString(GerarStringPorDate(Some(d)).value) == Some(Built(DateFields(d.year, d.month0 - 1, d.day)))
    ensures !(0 <= d.year <= 99) && d.month0 >= 1 && d.day <= DaysInMonth(d.year, d.month0 - 1)
        ==> IsCalendarDate(GerarDatePorString(GerarStringPorDate(Some(d)).value).value)
    ensures GerarDatePorString(GerarStringPorDate(Some(d)).value) != Some(Built(d))
  {
    PrintedFieldValues(d);
    ReadPrintedFields(d, GerarStringPorDate(Some(d)).value);
  }

  lemma ReadPrintedFields(d: Date, s: string)
    requires s == GerarStringPorDate(Some(d)).value
    requires ElementToNumber(Split(s, '/'), 0) == Finite(d.day as real)
    requires ElementToNumber(Split(s, '/'), 1) == Finite(d.month0 as real)
    requires ElementToNumber(Split(s, '/'), 2) == Finite(d.year as real)
    ensures GerarDatePorString(s) == Some(Built(DateFields(FullYear(d.year), d.month0 - 1, d.day)))
  {
    PrintedDateNotEmpty(d);
    ParseOfFieldValues(s, d.day, d.month0, d.year);
  }

  lemma PrintedDateNotEmpty(d: Date)
    ensures GerarStringPorDate(Some(d)).value != ""
  {
    assert |GerarStringPorDate(Some(d)).value| >= 2;
  }

  /** March (zero-based month 2) is printed as `02`. */
  lemma MarchPrintsAsFebruary(d: Date)
    requires d == DateFields(2024, 2, 15)
    ensures GerarStringPorDate(Some(d)) == Some("15\n      /02\n      /2024")
  {
    MarchFields(d);
    MarchText();
  }

  lemma MarchFields(d: Date)
    requires d == DateFields(2024, 2, 15)
    ensures GerarStringPorDate(Some(d)) == Some("15" + Separador + "02" + Separador + "2024")
  {
    PaddedExamples();
  }

  lemma MarchText()
    ensures "15" + Separador + "02" + Separador + "2024" == "15\n      /02\n      /2024"
  {
  }

  lemma PaddedExamples()
    ensures PreencherZeroNumeroData(2) == "02" && PreencherZeroNumeroData(15) == "15" && IntToString(2024) == "2024"
  {
    NatToStringExamples();
  }

  lemma NatToStringExamples()
    ensures NatToString(2) == "2" && NatToString(15) == "15" && NatToString(2024) == "2024"
  {
    assert NatToString(1) == "1";
    assert NatToString(20) == NatToString(2) + "0";
    assert NatToString(202) == NatToString(20) + "2";
    assert NatToString(2024) == NatToString(202) + "4";
  }

  /** `/[^\d,]/g` replaced by nothing: only the digits and commas remain. */
  function DigitsAndCommas(s: string): (r: string)
    ensures |r| <= |s|
    ensures forall i :: 0 <= i < |r| ==> IsDigit(r[i]) || r[i] == ','
  {
    if s == [] then []
    else (if IsDigit(s[0]) || s[0] == ',' then [s[0]] else []) + DigitsAndCommas(s[1..])
  }

  /** The filter works character by character, keeping the order: on a
      concatenation it is the concatenation of the filtered parts. */
  lemma {:induction false} DigitsAndCommasAppend(s: string, t: string)
    ensures DigitsAndCommas(s + t) == DigitsAndCommas(s) + DigitsAndCommas(t)
    decreases |s|
  {
    if s == [] {
      assert s + t == t;
    } else {
      assert (s + t)[1..] == s[1..] + t;
      DigitsAndCommasAppend(s[1..], t);
    }
  }

  /** A string of digits and commas passes the filter unchanged. */
  lemma {:induction false} DigitsAndCommasKeeps(s: string)
    requires forall i :: 0 <= i < |s| ==> IsDigit(s[i]) || s[i] == ','
    ensures DigitsAndCommas(s) == s
    decreases |s|
  {
    if s != [] {
      DigitsAndCommasKeeps(s[1..]);
      assert s == [s[0]] + s[1..];
    }
  }

  /** The text `gerarDoublePorValorMonetario` hands to `parseFloat`: the
      digits and commas, with the first comma made a point. */
  function LimparValorMonetario(valor: string): (r: string)
    ensures |r| == |DigitsAndCommas(valor)|
  {
    ReplaceFirst(DigitsAndCommas(valor), ',', ".")
  }

  /** The cleaned text holds only digits, commas and at most one point, and
      no comma comes before the point. */
  lemma CleanedText(valor: string)
    ensures var r := LimparValorMonetario(valor);
      && (forall i :: 0 <= i < |r| ==> IsDigit(r[i]) || r[i] == ',' || r[i] == '.')
      && (forall i, j :: 0 <= i < j < |r| && r[i] == '.' ==> r[j] != '.')
      && (forall i :: 0 <= i < |r| && r[i] == '.' ==> ',' !in r[..i])
  {
    CommaToPoint(DigitsAndCommas(valor));
  }

  /** Replacing the first comma of a text of digits and commas by a point
      leaves a single point, with no comma before it. */
  lemma CommaToPoint(c: string)
    requires forall i :: 0 <= i < |c| ==> IsDigit(c[i]) || c[i] == ','
    ensures var r := ReplaceFirst(c, ',', ".");
      && (forall i :: 0 <= i < |r| ==> IsDigit(r[i]) || r[i] == ',' || r[i] == '.')
      && (forall i, j :: 0 <= i < j < |r| && r[i] == '.' ==> r[j] != '.')
      && (forall i :: 0 <= i < |r| && r[i] == '.' ==> ',' !in r[..i])
  {
    if ',' in c {
      var i := FirstIndex(c, ',');
      assert c == c[..i] + [','] + c[i + 1..];
      ReplaceFirstAt(c[..i], ',', c[i + 1..], ".");
      var r := c[..i] + "." + c[i + 1..];
      assert forall k :: 0 <= k < |r| && k != i ==> r[k] == c[k] && r[k] != '.';
      assert r[..i] == c[..i];
    }
  }

  /** `gerarDoublePorValorMonetario`. */
  function GerarDoublePorValorMonetario(valor: string): Number {
    ParseFloat(LimparValorMonetario(valor))
  }

  /** Without a comma the kept digits are read as a whole number, and no
      digits at all give NaN. */
  lemma CurrencyWithoutComma(valor: string)
    requires ',' !in DigitsAndCommas(valor)
    ensures AllDigits(DigitsAndCommas(valor))
    ensures GerarDoublePorValorMonetario(valor)
         == if DigitsAndCommas(valor) == [] then NaN else Finite(DigitsValue(DigitsAndCommas(valor)) as real)
  {
    CleanWithoutComma(valor);
    ParseDigits(DigitsAndCommas(valor));
  }

  lemma CleanWithoutComma(valor: string)
    requires ',' !in DigitsAndCommas(valor)
    ensures AllDigits(DigitsAndCommas(valor))
    ensures LimparValorMonetario(valor) == DigitsAndCommas(valor)
  {
    var c := DigitsAndCommas(valor);
    assert forall i :: 0 <= i < |c| ==> c[i] != ',';
  }

  /** `parseFloat` reads a digit string as its value, and nothing as NaN. */
  lemma ParseDigits(c: string)
    requires AllDigits(c)
    ensures ParseFloat(c) == if c == [] then NaN else Finite(DigitsValue(c) as real)
  {
    if c == [] {
      assert TrimStart(c) == [];
      DigitRunIs(c, 0, 0);
    } else {
      ScanDigits(c);
      DigitsLiteral(c);
      TrimKeeps(c);
      ParseFloatOfPrefix(c);
    }
  }

  /** With a comma, the digits before it are the integer part and the digits
      between it and the next comma (or the end) the fraction; a second comma
      ends what `parseFloat` reads. */
  lemma CurrencyWithComma(valor: string, a: string, b: string, rest: string)
    requires AllDigits(a) && AllDigits(b) && (rest == [] || rest[0] == ',')
    requires DigitsAndCommas(valor) == a + "," + b + rest
    ensures GerarDoublePorValorMonetario(valor)
         == if a == [] && b == [] then NaN
            else Finite(DecimalValue(a, b))
  {
    CleanWithComma(valor, a, b, rest);
    ParseFraction(a, b, rest);
  }

  lemma CleanWithComma(valor: string, a: string, b: string, rest: string)
    requires AllDigits(a)
    requires DigitsAndCommas(valor) == a + "," + b + rest
    ensures LimparValorMonetario(valor) == a + "." + b + rest
  {
    CommaThenFraction(DigitsAndCommas(valor), a, b, rest);
  }

  lemma CommaThenFraction(c: string, a: string, b: string, rest: string)
    requires AllDigits(a) && c == a + "," + b + rest
    ensures ReplaceFirst(c, ',', ".") == a + "." + b + rest
  {
    DigitsExclude(a, ',');
    assert c == a + "," + (b + rest);
    FirstCommaToPoint(c, a, b + rest);
    assert a + "." + (b + rest) == a + "." + b + rest;
  }

  lemma FirstCommaToPoint(c: string, a: string, u: string)
    requires ',' !in a && c == a + "," + u
    ensures ReplaceFirst(c, ',', ".") == a + "." + u
  {
    assert c == a + [','] + u;
    ReplaceFirstAt(a, ',', u, ".");
  }

  /** `parseFloat` on digits, a point, digits and a comma or nothing. */
  lemma ParseFraction(a: string, b: string, rest: string)
    requires AllDigits(a) && AllDigits(b) && (rest == [] || rest[0] == ',')
    ensures ParseFloat(a + "." + b + rest)
         == if a == [] && b == [] then NaN
            else Finite(DecimalValue(a, b))
  {
    var t := a + "." + b + rest;
    FractionTextStart(a, b, rest, t);
    ParseFloatOfPrefix(t);
    if a == [] && b == [] {
      assert a + "." + b + rest == "." + rest;
      NoMantissa(rest);
    } else {
      ScanFraction(t, a, b, rest);
    }
  }

  lemma FractionTextStart(a: string, b: string, rest: string, t: string)
    requires AllDigits(a) && t == a + "." + b + rest
    ensures TrimStart(t) == t
  {
    assert t[0] == if a == [] then '.' else a[0];
    TrimStartKeeps(t);
  }

  lemma NoMantissa(rest: string)
    requires rest == [] || rest[0] == ','
    ensures DecimalPrefix("." + rest) == None
  {
    var s := "." + rest;
    NotInfinity(s);
    DigitRunIs(s, 0, 0);
    DigitRunIs(s, 1, 0);
  }

  /** The Brazilian-formatted amount `R$ 1.234,56` is read as 1234.56. */
  lemma CurrencyExample(valor: string)
    requires valor == "R$ 1.234,56"
    ensures GerarDoublePorValorMonetario(valor) == Finite(1234.56)
  {
    assert valor == "R$ " + ("1" + ("." + "234,56"));
    ExampleDigitsAndCommas(valor, "R$ ", "1" + ("." + "234,56"));
    ExampleDigitValues();
    CurrencyWithComma(valor, "1234", "56", "");
    ExampleValue("1234", "56");
  }

  lemma ExampleValue(a: string, b: string)
    requires a == "1234" && b == "56"
    ensures DecimalValue(a, b) == 1234.56
  {
    ExampleDigitValues();
    assert 1234 as real + 56 as real / 100 as real == 1234.56;
  }

  lemma ExampleDigitsAndCommas(valor: string, w: string, t: string)
    requires w == "R$ " && t == "1" + ("." + "234,56") && valor == w + t
    ensures DigitsAndCommas(valor) == "1234" + "," + "56" + ""
  {
    ExampleAmount();
    DigitsAndCommasAppend(w, t);
    DigitsAndCommasDrops(w);
    assert "1234,56" == "1234" + "," + "56" + "";
  }

  lemma ExampleAmount()
    ensures DigitsAndCommas("1" + ("." + "234,56")) == "1234,56"
  {
    ExampleCents();
    KeptThenRest("1", "." + "234,56", "234,56");
    assert "1" + "234,56" == "1234,56";
  }

  lemma ExampleCents()
    ensures DigitsAndCommas("." + "234,56") == "234,56"
  {
    DroppedThenKept(".", "234,56");
  }

  lemma KeptThenRest(a: string, u: string, v: string)
    requires forall i :: 0 <= i < |a| ==> IsDigit(a[i]) || a[i] == ','
    requires DigitsAndCommas(u) == v
    ensures DigitsAndCommas(a + u) == a + v
  {
    DigitsAndCommasAppend(a, u);
    DigitsAndCommasKeeps(a);
  }

  lemma DroppedThenKept(w: string, a: string)
    requires forall i :: 0 <= i < |w| ==> !IsDigit(w[i]) && w[i] != ','
    requires forall i :: 0 <= i < |a| ==> IsDigit(a[i]) || a[i] == ','
    ensures DigitsAndCommas(w + a) == a
  {
    DigitsAndCommasAppend(w, a);
    DigitsAndCommasDrops(w);
    DigitsAndCommasKeeps(a);
  }

  /** Text without digits or commas is removed entirely. */
  lemma {:induction false} DigitsAndCommasDrops(w: string)
    requires forall i :: 0 <= i < |w| ==> !IsDigit(w[i]) && w[i] != ','
    ensures DigitsAndCommas(w) == []
    decreases |w|
  {
    if w != [] {
      DigitsAndCommasDrops(w[1..]);
    }
  }

  lemma ExampleDigitValues()
    ensures AllDigits("1234") && AllDigits("56")
    ensures DigitsValue("1234") == 1234 && DigitsValue("56") == 56 && Pow10(|"56"|) == 100
  {
    assert DigitsValue("1") == 1;
    assert "12"[..1] == "1";
    assert "123"[..2] == "12";
    assert "1234"[..3] == "123";
    assert "56"[..1] == "5";
    assert Pow10(2) == 100;
  }

  /** `gerarStringPorcentagemPorNumeroInteiro`: the integer followed by `%`,
      `0%` when it is 0. */
  function GerarStringPorcentagemPorNumeroInteiro(valor: int): (r: string)
    ensures r == IntToString(valor) + "%"
    ensures valor == 0 ==> r == "0%"
  {
    if valor != 0 then IntToString(valor) + "%" else "0%"
  }

  /** `gerarDoublePorValorPorcentagem`: the first `%` removed, then
      `parseFloat`. */
  function GerarDoublePorValorPorcentagem(valor: string): (r: Number)
    ensures '%' !in valor ==> r == ParseFloat(valor)
  {
    ParseFloat(ReplaceFirst(valor, '%', ""))
  }

  /** Only the first `%` is taken out; the rest of the text goes to
      `parseFloat` as it is. */
  lemma PercentRemovesFirstSign(t: string, u: string)
    requires '%' !in t
    ensures GerarDoublePorValorPorcentagem(t + "%" + u) == ParseFloat(t + u)
  {
    ReplaceFirstAt(t, '%', u, "");
    assert t + "" + u == t + u;
  }

  /** Printing an integer percentage and reading it back gives the integer. */
  lemma PercentRoundTrip(valor: int)
    ensures GerarDoublePorValorPorcentagem(GerarStringPorcentagemPorNumeroInteiro(valor)) == Finite(valor as real)
  {
    var p := IntToString(valor);
    IntToStringExcludes(valor, '%');
    assert GerarStringPorcentagemPorNumeroInteiro(valor) == p + "%" + "";
    PercentRemovesFirstSign(p, "");
    ParseFloatIntToString(valor, "");
  }

  /** `25%` is read as 25. */
  lemma PercentExample(valor: string)
    requires valor == "25%"
    ensures GerarDoublePorValorPorcentagem(valor) == Finite(25.0)
  {
    PercentText(valor);
    PercentRoundTrip(25);
  }

  lemma PercentText(valor: string)
    requires valor == "25%"
    ensures valor == GerarStringPorcentagemPorNumeroInteiro(25)
  {
    assert NatToString(25) == "25" by { assert NatToString(2) == "2"; }
  }
}
