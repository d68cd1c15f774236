/** The customer form of `src/ui/pages/clientes/clientesCadastro.tsx`: the
    date text of the birth-date field, the validation rules for the name and
    the mobile number, the route parameter that selects the customer, and
    what a submission sends. */
module ClientesCadastro {
  import opened JsText
  import opened JsNumber
  import opened JsDate
  import opened Regex
  import Conversores

  // ---------------------------------------------------------------------
  // Birth date as text
  // ---------------------------------------------------------------------

  /** `gerarDatePorString` as the form calls it: the field may be absent
      (`null` or `undefined`), which reads like the empty text. The page
      declares its own copy of the parser, with the same falsy test, the
      same split on `/` and the same `new Date(+ano, +mes - 1, +dia)` as the
      one in `conversores.ts` (only a `console.log` is added), so the text
      case is that one definition rather than a second copy of it. */
  function GerarDatePorString(dataString: Option<string>): (r: Option<JsDate>)
    ensures r.None? <==> dataString.None? || dataString == Some("")
    ensures dataString.Some? && dataString.value != "" ==> r == Conversores.GerarDatePorString(dataString.value)
  {
    match dataString
    case None => None
    case Some(t) => Conversores.GerarDatePorString(t)
  }

  /** `gerarStringPorData`: `dd/mm/aaaa` with the one-based month; null for
      a missing date. The page pads with `String(n).padStart(2, "0")`, which
      is what `preencherZeroNumeroData` does in `conversores.ts`, so both
      use that one definition. */
  function GerarStringPorData(data: Option<Date>): (r: Option<string>)
    ensures r.None? <==> data.None?
  {
    match data
    case None => None
    case Some(d) =>
      Some(Conversores.PreencherZeroNumeroData(d.day) + "/" + Conversores.PreencherZeroNumeroData(d.month0 + 1)
           + "/" + IntToString(d.year))
  }

  /** The printed date is split back into the padded day, the padded
      one-based month and the year. */
  lemma PrintedDateSplits(d: Date, s: string)
    requires s == GerarStringPorData(Some(d)).value
    ensures Split(s, '/') == [Conversores.PreencherZeroNumeroData(d.day),
                              Conversores.PreencherZeroNumeroData(d.month0 + 1), IntToString(d.year)]
  {
    DateRanges(d);
    TextSplits(d.day, d.month0 + 1, d.year, s);
  }

  lemma TextSplits(day: nat, month: nat, year: int, s: string)
    requires s == Conversores.PreencherZeroNumeroData(day) + "/" + Conversores.PreencherZeroNumeroData(month)
                  + "/" + IntToString(year)
    ensures Split(s, '/') == [Conversores.PreencherZeroNumeroData(day), Conversores.PreencherZeroNumeroData(month),
                              IntToString(year)]
  {
    IntToStringExcludes(year, '/');
    SplitFields(Conversores.PreencherZeroNumeroData(day), Conversores.PreencherZeroNumeroData(month),
                IntToString(year), s);
  }

  lemma SplitFields(a: string, b: string, c: string, s: string)
    requires AllDigits(a) && AllDigits(b) && '/' !in c
    requires s == a + "/" + b + "/" + c
    ensures Split(s, '/') == [a, b, c]
  {
    DigitsExclude(a, '/');
    DigitsExclude(b, '/');
    SplitThree(a, b, c, '/');
  }

  /** The three printed fields read as the day, the one-based month and the
      year. */
  lemma PrintedFieldValues(d: Date, s: string)
    requires s == GerarStringPorData(Some(d)).value
    ensures s != ""
    ensures ElementToNumber(Split(s, '/'), 0) == Finite(d.day as real)
    ensures ElementToNumber(Split(s, '/'), 1) == Finite((d.month0 + 1) as real)
    ensures ElementToNumber(Split(s, '/'), 2) == Finite(d.year as real)
  {
    PrintedDateSplits(d, s);
    FieldValues(Conversores.PreencherZeroNumeroData(d.day), Conversores.PreencherZeroNumeroData(d.month0 + 1),
                d.year, Split(s, '/'));
  }

  lemma FieldValues(a: string, b: string, year: int, parts: seq<string>)
    requires AllDigits(a) && AllDigits(b) && |a| > 0 && |b| > 0
    requires parts == [a, b, IntToString(year)]
    ensures ElementToNumber(parts, 0) == Finite(DigitsValue(a) as real)
    ensures ElementToNumber(parts, 1) == Finite(DigitsValue(b) as real)
    ensures ElementToNumber(parts, 2) == Finite(year as real)
  {
    ToNumberDigits(a);
    ToNumberDigits(b);
    ToNumberIntToString(year);
    ThreeElements(parts, a, b, IntToString(year),
                  Finite(DigitsValue(a) as real), Finite(DigitsValue(b) as real), Finite(year as real));
  }

  /** Reading back a printed date gives the same date, except that a year
      from 0 to 99 comes back in the 1900s (`new Date` treats it as a
      two-digit year). */
  lemma PrintedDateReadsBack(d: Date)
    ensures GerarDatePorString(GerarStringPorData(Some(d)))
         == Some(Built(DateFields(FullYear(d.year), d.month0, d.day)))
  {
    var s := GerarStringPorData(Some(d)).value;
    PrintedFieldValues(d, s);
    Conversores.ParseOfFieldValues(s, d.day, d.month0 + 1, d.year);
  }

  /** Printing and parsing are inverse on every date whose year is not in 0 to
      99: the date read back is a valid date with the same day, month and
      year. */
  lemma DateRoundTrip(d: Date)
    requires !(0 <= d.year <= 99)
    ensures GerarDatePorString(GerarStringPorData(Some(d))) == Some(Built(d))
    ensures IsCalendarDate(GerarDatePorString(GerarStringPorData(Some(d))).value)
  {
    PrintedDateReadsBack(d);
  }

  /** A year from 0 to 99 does not survive the round trip. */
  lemma TwoDigitYearMoves(d: Date)
    requires 0 <= d.year <= 99
    ensures GerarDatePorString(GerarStringPorData(Some(d))) == Some(Built(DateFields(1900 + d.year, d.month0, d.day)))
    ensures GerarDatePorString(GerarStringPorData(Some(d))) != Some(Built(d))
  {
    PrintedDateReadsBack(d);
    YearMoved(d, GerarDatePorString(GerarStringPorData(Some(d))));
  }

  lemma YearMoved(d: Date, j: Option<JsDate>)
    requires 0 <= d.year <= 99
    requires j == Some(Built(DateFields(FullYear(d.year), d.month0, d.day)))
    ensures j == Some(Built(DateFields(1900 + d.year, d.month0, d.day))) && j != Some(Built(d))
  {
  }

  /** Days and months have at most two digits, so padding makes them exactly
      two. */
  lemma TwoDigitPadding(n: nat)
    requires n < 100
    ensures |Conversores.PreencherZeroNumeroData(n)| == 2
  {
    if n >= 10 {
      NatToStringLength(n, 2);
    }
  }

  /** A date of a four-digit year prints as `dd/mm/aaaa`: two digits of day,
      two of one-based month and four of year, with `/` at positions 2 and
      5. */
  lemma PrintedDateLayout(d: Date)
    requires 1000 <= d.year <= 9999
    ensures |GerarStringPorData(Some(d)).value| == 10
    ensures GerarStringPorData(Some(d)).value[2] == '/' && GerarStringPorData(Some(d)).value[5] == '/'
    ensures AllDigits(GerarStringPorData(Some(d)).value[..2]) && DigitsValue(GerarStringPorData(Some(d)).value[..2]) == d.day
    ensures AllDigits(GerarStringPorData(Some(d)).value[3..5])
         && DigitsValue(GerarStringPorData(Some(d)).value[3..5]) == d.month0 + 1
    ensures AllDigits(GerarStringPorData(Some(d)).value[6..]) && DigitsValue(GerarStringPorData(Some(d)).value[6..]) == d.year
  {
    DateRanges(d);
    TextLayout(d.day, d.month0 + 1, d.year, GerarStringPorData(Some(d)).value);
  }

  lemma TextLayout(day: nat, month: nat, year: int, s: string)
    requires day < 100 && month < 100 && 1000 <= year <= 9999
    requires s == Conversores.PreencherZeroNumeroData(day) + "/" + Conversores.PreencherZeroNumeroData(month)
                  + "/" + IntToString(year)
    ensures |s| == 10 && s[2] == '/' && s[5] == '/'
    ensures AllDigits(s[..2]) && DigitsValue(s[..2]) == day
    ensures AllDigits(s[3..5]) && DigitsValue(s[3..5]) == month
    ensures AllDigits(s[6..]) && DigitsValue(s[6..]) == year
  {
    TwoDigitPadding(day);
    TwoDigitPadding(month);
    assert Pow10(3) == 1000 && Pow10(4) == 10000;
    NatToStringLength(year, 4);
    FieldLayout(Conversores.PreencherZeroNumeroData(day), Conversores.PreencherZeroNumeroData(month),
                IntToString(year), s);
  }

  lemma FieldLayout(a: string, b: string, c: string, r: string)
    requires |a| == 2 && |b| == 2 && |c| == 4
    requires r == a + "/" + b + "/" + c
    ensures |r| == 10 && r[2] == '/' && r[5] == '/'
    ensures r[..2] == a && r[3..5] == b && r[6..] == c
  {
  }

  /** The text side of the round trip: a `dd/mm/aaaa` text naming a valid
      date `d`, with a year from 1000 to 9999, is read as `d` and `d` is
      printed back as the same text. */
  lemma TextRoundTrip(t: string, d: DateFields)
    requires |t| == 10 && t[2] == '/' && t[5] == '/'
    requires AllDigits(t[..2]) && AllDigits(t[3..5]) && AllDigits(t[6..]) && t[6] != '0'
    requires d == DateFields(DigitsValue(t[6..]), DigitsValue(t[3..5]) - 1, DigitsValue(t[..2]))
    requires InCalendar(d)
    ensures GerarDatePorString(Some(t)) == Some(Built(d))
    ensures GerarStringPorData(Some(d)) == Some(t)
  {
    TextParsesAs(t, d.day, d.month0 + 1, d.year);
    TextPrints(t, d);
  }

  lemma TextParsesAs(t: string, day: int, month: int, year: int)
    requires |t| == 10 && t[2] == '/' && t[5] == '/'
    requires AllDigits(t[..2]) && AllDigits(t[3..5]) && AllDigits(t[6..]) && t[6] != '0'
    requires day == DigitsValue(t[..2]) && month == DigitsValue(t[3..5]) && year == DigitsValue(t[6..])
    ensures GerarDatePorString(Some(t)) == Some(Built(DateFields(year, month - 1, day)))
  {
    TextFieldValues(t);
    ParseFourDigitYear(t, day, month, year);
  }

  lemma ParseFourDigitYear(t: string, day: int, month: int, year: int)
    requires t != "" && 1000 <= year <= 9999
    requires ElementToNumber(Split(t, '/'), 0) == Finite(day as real)
    requires ElementToNumber(Split(t, '/'), 1) == Finite(month as real)
    requires ElementToNumber(Split(t, '/'), 2) == Finite(year as real)
    ensures GerarDatePorString(Some(t)) == Some(Built(DateFields(year, month - 1, day)))
  {
    Conversores.ParseOfFieldValues(t, day, month, year);
  }

  lemma TextFieldValues(t: string)
    requires |t| == 10 && t[2] == '/' && t[5] == '/'
    requires AllDigits(t[..2]) && AllDigits(t[3..5]) && AllDigits(t[6..]) && t[6] != '0'
    ensures t != "" && 1000 <= DigitsValue(t[6..]) <= 9999
    ensures ElementToNumber(Split(t, '/'), 0) == Finite(DigitsValue(t[..2]) as real)
    ensures ElementToNumber(Split(t, '/'), 1) == Finite(DigitsValue(t[3..5]) as real)
    ensures ElementToNumber(Split(t, '/'), 2) == Finite(DigitsValue(t[6..]) as real)
  {
    YearText(t[6..]);
    DigitsExclude(t[6..], '/');
    TextFields(t);
    FieldValues(t[..2], t[3..5], DigitsValue(t[6..]), Split(t, '/'));
  }

  /** Four digits without a leading zero: a year from 1000 to 9999, printed
      as the same four digits. */
  lemma YearText(y: string)
    requires |y| == 4 && AllDigits(y) && y[0] != '0'
    ensures IntToString(DigitsValue(y)) == y
    ensures 1000 <= DigitsValue(y) <= 9999
  {
    NatToStringOfDigits(y);
    DigitsValueBounds(y);
    assert Pow10(3) == 1000 && Pow10(4) == 10000;
  }

  lemma TextPrints(t: string, d: Date)
    requires |t| == 10 && t[2] == '/' && t[5] == '/'
    requires AllDigits(t[..2]) && AllDigits(t[3..5]) && AllDigits(t[6..]) && t[6] != '0'
    requires d == DateFields(DigitsValue(t[6..]), DigitsValue(t[3..5]) - 1, DigitsValue(t[..2]))
    ensures GerarStringPorData(Some(d)) == Some(t)
  {
    var a, b, c := t[..2], t[3..5], t[6..];
    YearText(c);
    Conversores.PreencherZeroInverse(a);
    Conversores.PreencherZeroInverse(b);
    PrintedText(d, a, b, c);
    assert t == a + "/" + b + "/" + c;
  }

  lemma PrintedText(d: Date, a: string, b: string, c: string)
    requires Conversores.PreencherZeroNumeroData(d.day) == a
    requires Conversores.PreencherZeroNumeroData(d.month0 + 1) == b
    requires IntToString(d.year) == c
    ensures GerarStringPorData(Some(d)) == Some(a + "/" + b + "/" + c)
  {
  }

  lemma TextFields(t: string)
    requires |t| == 10 && t[2] == '/' && t[5] == '/'
    requires AllDigits(t[..2]) && AllDigits(t[3..5]) && '/' !in t[6..]
    ensures t == t[..2] + "/" + t[3..5] + "/" + t[6..]
    ensures Split(t, '/') == [t[..2], t[3..5], t[6..]]
  {
    assert t == t[..2] + "/" + t[3..5] + "/" + t[6..];
    SplitFields(t[..2], t[3..5], t[6..], t);
  }

  // ---------------------------------------------------------------------
  // Form rules
  // ---------------------------------------------------------------------

  /** `z.string().min(3)` on the name: at least three UTF-16 code units. */
  predicate NomeValido(nome: string) {
    Utf16Length(nome) >= 3
  }

  /** Three characters always suffice and two never do; on text without
      astral characters the rule is exactly a length of at least three. */
  lemma NomeValidoLength(nome: string)
    ensures |nome| >= 3 ==> NomeValido(nome)
    ensures |nome| < 2 ==> !NomeValido(nome)
    ensures (forall i :: 0 <= i < |nome| ==> nome[i] as int <= 0xFFFF) ==> (NomeValido(nome) <==> |nome| >= 3)
  {
    if forall i :: 0 <= i < |nome| ==> nome[i] as int <= 0xFFFF {
      BasicPlaneLength(nome);
    }
  }

  lemma {:induction false} BasicPlaneLength(s: string)
    requires forall i :: 0 <= i < |s| ==> s[i] as int <= 0xFFFF
    ensures Utf16Length(s) == |s|
    decreases |s|
  {
    if s != [] {
      BasicPlaneLength(s[1..]);
    }
  }

  /** `[-\s]`. */
  predicate IsDashOrSpace(c: char) {
    c == '-' || IsWhiteSpace(c)
  }

  /** The mobile-number rule, read left to right: an optional `(`, two
      digits and `)`; an optional dash or space; then `9`, a dash or space,
      four digits, a dash or space and four digits, ending the text. */
  predicate CelularValido(s: string) {
    var u := if |s| > 0 && s[0] == '(' then s[1..] else s;
    && |u| >= 3 && IsDigit(u[0]) && IsDigit(u[1]) && u[2] == ')'
    && var v := u[3..];
       var w := if |v| > 0 && IsDashOrSpace(v[0]) then v[1..] else v;
       && |w| == 11 && w[0] == '9' && IsDashOrSpace(w[1])
       && AllDigits(w[2..6]) && IsDashOrSpace(w[6]) && AllDigits(w[7..])
  }

  const Digito: CharClass := Range('0', '9')
  const TracoOuEspaco: CharClass := Union(Char('-'), Space)

  /** The digits and the closing parenthesis, and the part after the
      optional separator: the pieces of the pattern that are not optional. */
  const Prefixo: seq<Term> := Times(Digito, 2) + [One(Char(')'))]
  const Numero: seq<Term> := [One(Char('9')), One(TracoOuEspaco)] + Times(Digito, 4) + [One(TracoOuEspaco)] + Times(Digito, 4)

  /** `/^[(]?[0-9]{2}[)][-\s]?[9][-\s][0-9]{4}[-\s][0-9]{4}$/`. */
  const PadraoCelular: seq<Term> := [Maybe(Char('('))] + Prefixo + [Maybe(TracoOuEspaco)] + Numero

  /** The hand-written rule accepts exactly the strings the schema's regular
      expression matches. */
  lemma CelularMatchesPattern(s: string)
    ensures FullMatch(PadraoCelular, s) <==> CelularValido(s)
  {
    var u := if |s| > 0 && s[0] == '(' then s[1..] else s;
    SkipParenthesis(s);
    MatchPrefix(u);
    if |u| >= 3 {
      var v := u[3..];
      var w := if |v| > 0 && IsDashOrSpace(v[0]) then v[1..] else v;
      SkipSeparator(v);
      MatchNumero(w);
    }
  }

  lemma SkipParenthesis(s: string)
    ensures FullMatch(PadraoCelular, s)
        <==> FullMatch(Prefixo + ([Maybe(TracoOuEspaco)] + Numero), if |s| > 0 && s[0] == '(' then s[1..] else s)
  {
    var rest := Prefixo[1..] + ([Maybe(TracoOuEspaco)] + Numero);
    assert PadraoCelular == [Maybe(Char('(')), One(Digito)] + rest;
    assert [One(Digito)] + rest == Prefixo + ([Maybe(TracoOuEspaco)] + Numero);
    FullMatchOptional(Char('('), Digito, rest, s);
  }

  lemma MatchPrefix(u: string)
    ensures FullMatch(Prefixo + ([Maybe(TracoOuEspaco)] + Numero), u)
        <==> |u| >= 3 && IsDigit(u[0]) && IsDigit(u[1]) && u[2] == ')' && FullMatch([Maybe(TracoOuEspaco)] + Numero, u[3..])
  {
    assert Prefixo == [One(Digito), One(Digito), One(Char(')'))];
    assert AllRequired(Prefixo);
    FullMatchRequired(Prefixo, [Maybe(TracoOuEspaco)] + Numero, u);
  }

  lemma SkipSeparator(v: string)
    ensures FullMatch([Maybe(TracoOuEspaco)] + Numero, v)
        <==> FullMatch(Numero, if |v| > 0 && IsDashOrSpace(v[0]) then v[1..] else v)
  {
    assert forall c :: InClass(TracoOuEspaco, c) ==> !InClass(Char('9'), c);
    assert [Maybe(TracoOuEspaco)] + Numero == [Maybe(TracoOuEspaco), One(Char('9'))] + Numero[1..];
    assert [One(Char('9'))] + Numero[1..] == Numero;
    FullMatchOptional(TracoOuEspaco, Char('9'), Numero[1..], v);
  }

  lemma MatchNumero(w: string)
    ensures FullMatch(Numero, w)
        <==> && |w| == 11 && w[0] == '9' && IsDashOrSpace(w[1])
             && AllDigits(w[2..6]) && IsDashOrSpace(w[6]) && AllDigits(w[7..])
  {
    NumeroRequired();
    FullMatchRequired(Numero, [], w);
    if |w| == 11 {
      assert w[|Numero|..] == [];
      NumeroClasses(w);
    } else if |w| > 11 {
      assert w[|Numero|..] != [];
    }
  }

  lemma NumeroRequired()
    ensures |Numero| == 11 && AllRequired(Numero) && Numero + [] == Numero
  {
  }

  lemma NumeroClasses(w: string)
    requires |w| == 11
    ensures (forall i :: 0 <= i < 11 ==> InClass(Numero[i].charClass, w[i]))
        <==> && w[0] == '9' && IsDashOrSpace(w[1])
             && AllDigits(w[2..6]) && IsDashOrSpace(w[6]) && AllDigits(w[7..])
  {
    assert Numero[0] == One(Char('9')) && Numero[1] == One(TracoOuEspaco) && Numero[6] == One(TracoOuEspaco);
    assert forall i :: 2 <= i < 6 || 7 <= i < 11 ==> Numero[i] == One(Digito);
    assert forall i :: 0 <= i < 4 ==> w[2..6][i] == w[i + 2] && w[7..][i] == w[i + 7];
  }

  /** The mask of the mobile-number input: each `0` takes one digit. */
  const MascaraCelular: string := "(00) 0 0000-0000"

  /** The text of the input once all eleven digits of the mask are typed:
      area code, the leading digit, and two groups of four. */
  function MascaraPreenchida(ds: string): (r: string)
    requires |ds| == 11 && AllDigits(ds)
    ensures |r| == |MascaraCelular|
    ensures forall i :: 0 <= i < |r| && MascaraCelular[i] != '0' ==> r[i] == MascaraCelular[i]
    ensures forall i :: 0 <= i < |r| && MascaraCelular[i] == '0' ==> IsDigit(r[i])
    ensures r[1..3] == ds[..2] && r[5] == ds[2] && r[7..11] == ds[3..7] && r[12..] == ds[7..]
  {
    "(" + ds[..2] + ") " + [ds[2]] + " " + ds[3..7] + "-" + ds[7..]
  }

  /** A completely filled mask passes the mobile-number rule exactly when
      the digit after the area code is 9. */
  lemma MascaraAceita(ds: string)
    requires |ds| == 11 && AllDigits(ds)
    ensures CelularValido(MascaraPreenchida(ds)) <==> ds[2] == '9'
  {
    var s := MascaraPreenchida(ds);
    MascaraPartes(ds, s);
  }

  lemma MascaraPartes(ds: string, s: string)
    requires |ds| == 11 && AllDigits(ds)
    requires s == "(" + ds[..2] + ") " + [ds[2]] + " " + ds[3..7] + "-" + ds[7..]
    ensures CelularValido(s) <==> ds[2] == '9'
  {
    var u := s[1..];
    assert u[0] == ds[0] && u[1] == ds[1] && u[2] == ')';
    var v := u[3..];
    assert v[0] == ' ';
    var w := v[1..];
    assert |w| == 11 && w[0] == ds[2] && w[1] == ' ' && w[6] == '-';
    assert w[2..6] == ds[3..7] && w[7..] == ds[7..];
  }

  // ---------------------------------------------------------------------
  // Validation of the whole form
  // ---------------------------------------------------------------------

  /** The values the form hands to `onSubmit`. The birth date and the
      address are nullable and optional; `None` stands for both `null` and a
      missing value. */
  datatype ValoresFormulario = ValoresFormulario(
    nome: string, celular: string, email: string, dataNascimento: Option<string>, endereco: Option<string>)

  datatype Campo = Nome | Celular | Email

  /** A failed rule: the field and the message the schema shows for it. */
  datatype Problema = Problema(campo: Campo, mensagem: string)

  const MensagemNome: string := "O nome do cliente não pode ser nulo."
  const MensagemCelular: string := "Insira um número de celular válido."
  const MensagemEmailVazio: string := "Esse campo não pode ser nulo."
  const MensagemEmailInvalido: string := "Esse email não é válido."

  /** Every rule of the schema that the values break, in field order. The
      verdict of the address check `.email()` on a non-empty text is the
      parameter `emailValido`; on the empty text `.email()` always fails, so
      both email messages appear. */
  function Problemas(v: ValoresFormulario, emailValido: bool): (r: seq<Problema>)
    ensures r == [] <==> NomeValido(v.nome) && CelularValido(v.celular) && v.email != "" && emailValido
    ensures Problema(Nome, MensagemNome) in r <==> !NomeValido(v.nome)
    ensures Problema(Celular, MensagemCelular) in r <==> !CelularValido(v.celular)
    ensures Problema(Email, MensagemEmailVazio) in r <==> v.email == ""
    ensures Problema(Email, MensagemEmailInvalido) in r <==> v.email == "" || !emailValido
    ensures |r| <= 4
  {
    (if NomeValido(v.nome) then [] else [Problema(Nome, MensagemNome)])
    + (if CelularValido(v.celular) then [] else [Problema(Celular, MensagemCelular)])
    + (if v.email != "" then [] else [Problema(Email, MensagemEmailVazio)])
    + (if v.email != "" && emailValido then [] else [Problema(Email, MensagemEmailInvalido)])
  }

  // ---------------------------------------------------------------------
  // Route parameter and submission
  // ---------------------------------------------------------------------

  /** The customer id taken from the route parameter: none for `new`,
      otherwise the parameter read by `Number`. */
  function ClienteIdDaRota(param: string): (id: Option<Number>)
    ensures id.None? <==> param == "new"
    ensures param != "new" ==> id == Some(ToNumber(param))
  {
    if param == "new" then None else Some(ToNumber(param))
  }

  /** Whether `if (clienteId)` takes the update branch. */
  predicate IdVerdadeiro(id: Option<Number>) {
    id.Some? && Truthy(id.value)
  }

  /** The `id` of the record sent to the API: the key is left out of the
      object, present with `null`, or present with a number. */
  datatype IdCliente = Ausente | Nulo | Valor(numero: Number)

  /** The record sent to the API. */
  datatype Cliente = Cliente(
    id: IdCliente, nome: string, dataNascimento: Option<JsDate>, email: string, telefone: string,
    endereco: Option<string>)

  /** Which API call a submission makes, and with what. */
  datatype Envio = Atualizar(cliente: Cliente) | Cadastrar(cliente: Cliente)

  /** `onSubmit` of the page: the date text is parsed, the mobile number goes
      in `telefone`, and the call updates exactly when the id is truthy. */
  function OnSubmit(clienteId: Option<Number>, v: ValoresFormulario): (r: Envio)
    ensures r.Atualizar? <==> IdVerdadeiro(clienteId)
    ensures clienteId.None? ==> r.cliente.id == Nulo
    ensures clienteId.Some? ==> r.cliente.id == Valor(clienteId.value)
    ensures r.cliente.nome == v.nome && r.cliente.email == v.email
    ensures r.cliente.telefone == v.celular && r.cliente.endereco == v.endereco
    ensures r.cliente.dataNascimento == GerarDatePorString(v.dataNascimento)
  {
    var id := if clienteId.None? then Nulo else Valor(clienteId.value);
    var cliente := Cliente(id, v.nome, GerarDatePorString(v.dataNascimento), v.email, v.celular, v.endereco);
    if IdVerdadeiro(clienteId) then Atualizar(cliente) else Cadastrar(cliente)
  }

  /** `onSubmit` of the dialog: always a creation, with no `id` key, and an
      empty or missing date text sends no date. */
  function OnSubmitDialogo(v: ValoresFormulario): (r: Envio)
    ensures r.Cadastrar? && r.cliente.id == Ausente
    ensures r.cliente.dataNascimento.None? <==> v.dataNascimento.None? || v.dataNascimento == Some("")
    ensures r.cliente.nome == v.nome && r.cliente.email == v.email
    ensures r.cliente.telefone == v.celular && r.cliente.endereco == v.endereco
  {
    var data := if v.dataNascimento.Some? && v.dataNascimento.value != "" then GerarDatePorString(v.dataNascimento)
                else None;
    Cadastrar(Cliente(Ausente, v.nome, data, v.email, v.celular, v.endereco))
  }

  /** The dialog makes the call the page makes on the `new` route, with the
      same record except for the `id`: the page sends `id: null`, the dialog
      no `id` key at all. */
  lemma DialogoComoPaginaNova(v: ValoresFormulario)
    ensures OnSubmit(ClienteIdDaRota("new"), v).cliente.id == Nulo
    ensures OnSubmitDialogo(v).cliente.id == Ausente
    ensures OnSubmitDialogo(v) == Cadastrar(OnSubmit(ClienteIdDaRota("new"), v).cliente.(id := Ausente))
  {
  }

  /** On a route with a number, the page updates that customer unless the
      number is 0, which JavaScript treats as false. */
  lemma RotaNumerica(n: nat, v: ValoresFormulario)
    ensures ClienteIdDaRota(NatToString(n)) == Some(Finite(n as real))
    ensures OnSubmit(ClienteIdDaRota(NatToString(n)), v).Atualizar? <==> n != 0
  {
    assert NatToString(n) != "new" by { assert IsDigit(NatToString(n)[0]); }
    ToNumberIntToString(n);
  }

  /** An empty route parameter reads as 0 and creates a customer. */
  lemma RotaVazia(v: ValoresFormulario)
    ensures ClienteIdDaRota("") == Some(Finite(0.0))
    ensures OnSubmit(ClienteIdDaRota(""), v).Cadastrar?
  {
    ToNumberBlank("");
  }

  /** Digits followed by other text are not a number for `Number` (unlike
      `parseFloat`), so such a parameter creates a customer. */
  lemma RotaComTexto(a: string, rest: string, v: ValoresFormulario)
    requires AllDigits(a) && |a| > 0
    requires rest != [] && !(IsDigit(rest[0]) || rest[0] == '.' || rest[0] in "eExXoObB")
    requires !IsWhiteSpace(rest[|rest| - 1])
    ensures ClienteIdDaRota(a + rest) == Some(NaN)
    ensures OnSubmit(ClienteIdDaRota(a + rest), v).Cadastrar?
  {
    assert a + rest != "new" by { assert IsDigit((a + rest)[0]); }
    NumberVersusParseFloat(a, rest);
  }

  /** What a press of the submit button does: the schema's problems, or the
      call `onSubmit` makes. */
  datatype Resultado = Rejeitado(problemas: seq<Problema>) | Enviado(envio: Envio)

  /** `form.handleSubmit(onSubmit)` on the page of route parameter `param`:
      `onSubmit` runs only when no rule fails. */
  function EnviarPagina(param: string, v: ValoresFormulario, emailValido: bool): (r: Resultado)
    ensures r.Enviado? <==> Problemas(v, emailValido) == []
    ensures r.Rejeitado? ==> r.problemas == Problemas(v, emailValido)
    ensures r.Enviado? ==> r.envio == OnSubmit(ClienteIdDaRota(param), v)
  {
    var problemas := Problemas(v, emailValido);
    if problemas == [] then Enviado(OnSubmit(ClienteIdDaRota(param), v)) else Rejeitado(problemas)
  }

  /** `form.handleSubmit(onSubmit)` in the dialog. */
  function EnviarDialogo(v: ValoresFormulario, emailValido: bool): (r: Resultado)
    ensures r.Enviado? <==> Problemas(v, emailValido) == []
    ensures r.Rejeitado? ==> r.problemas == Problemas(v, emailValido)
    ensures r.Enviado? ==> r.envio == OnSubmitDialogo(v)
  {
    var problemas := Problemas(v, emailValido);
    if problemas == [] then Enviado(OnSubmitDialogo(v)) else Rejeitado(problemas)
  }

  /** A name shorter than two characters or a malformed mobile number
      stops the submission. */
  lemma RegraQuebradaRejeita(param: string, v: ValoresFormulario, emailValido: bool)
    requires |v.nome| < 2 || !CelularValido(v.celular)
    ensures EnviarPagina(param, v, emailValido).Rejeitado?
    ensures EnviarDialogo(v, emailValido).Rejeitado?
  {
    NomeValidoLength(v.nome);
  }
}
