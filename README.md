# Customer form conversions and rules, in Dafny

This project models the value logic behind the customer form of a small
management front end written in TypeScript:

- the converters of `src/utils/conversores.ts`: two-digit zero padding, the
  date parser `gerarDatePorString` and printer `gerarStringPorDate`, the
  Brazilian currency reader `gerarDoublePorValorMonetario`, and the
  percentage helpers;
- the pure parts of `src/ui/pages/clientes/clientesCadastro.tsx`: its own
  date pair `gerarDatePorString` / `gerarStringPorData`, the zod rules for
  the name and the mobile number, the mapping of the `$clienteId` route
  parameter to an id, and the two `onSubmit` handlers (the page chooses
  between update and creation, the dialog always creates).

Everything is pure, so the model is datatypes, functions and lemmas in six
modules:

| module | file | contents |
|---|---|---|
| `JsText` | `js_text.dfy` | the JavaScript string operations the code uses: `split`, `padStart`, `trim` with the ECMAScript white-space set, `replace` of the first occurrence, decimal printing of numbers, UTF-16 length |
| `JsNumber` | `js_number.dfy` | `Number(s)` / `+s` and `parseFloat(s)` on strings, with values as exact rationals, infinities and NaN; JavaScript truthiness |
| `JsDate` | `js_date.dfy` | a `Date` as the fields its getters report (year, zero-based month, day), restricted to real calendar days; `new Date(y, m, d)` with truncation of its arguments and the 1900 offset for years 0 to 99 |
| `Regex` | `regex.dfy` | anchored patterns made of character classes, each required or optional, with a backtracking matcher as the reference meaning |
| `Conversores` | `conversores.dfy` | the converters |
| `ClientesCadastro` | `clientes_cadastro.dfy` | the form's date pair, rules and dispatch |

The main results:

- The page's pair round-trips. Printing a date and parsing the text gives
  back the same date for every year outside 0 to 99. A `dd/mm/aaaa` text
  naming a real day in a four-digit year parses to that day and prints back
  as the same text. Years 0 to 99 come back in the 1900s, because
  `new Date` reads them as two-digit years.
- The converters' pair does not round-trip. `gerarStringPorDate` prints the
  zero-based month and puts a line break and six spaces before each `/`.
  `Number` ignores that white space, so a printed date never reads back as
  itself. When the date is not in January, its year is outside 0 to 99 and
  the previous month has its day, it reads back as the same day of the
  previous month (see Findings).
- The hand-written mobile-number predicate accepts exactly the strings that
  the schema's regular expression matches. A completely filled
  `(00) 0 0000-0000` mask passes exactly when its third digit is 9.
- The page updates exactly when the id is truthy. The `new` route gives a
  `null` id, a number gives that number (0 creates), and text that `Number`
  rejects gives NaN (creates). The dialog makes the creation the page makes
  on `new`, with the same record except that it has no `id` key where the
  page sends `id: null`.
- Currency: `"R$ 1.234,56"` reads as 1234.56. In general, the value is the
  digits before the first comma plus the digits after it as a fraction,
  stopping at a second comma.
- Percentages: the whole numbers printed by
  `gerarStringPorcentagemPorNumeroInteiro` read back as themselves, and
  `"25%"` reads as 25.

Where the two files disagree, the model follows each file as written.

## Model

| member | source | states |
|---|---|---|
| `Conversores.PreencherZeroNumeroData` | src/utils/conversores.ts:10-11 | at least two digits whose value is the number; `0` and the digit below 10, the plain decimal text from 10 up |
| `Conversores.PreencherZeroInverse` | src/utils/conversores.ts:10-11 | on any two-digit text the padding gives back the text it reads: it is the inverse of reading the digits |
| `Conversores.GerarDatePorString` | src/utils/conversores.ts:13-19 | null exactly for the empty string |
| `Conversores.ParsesDayMonthYear` | src/utils/conversores.ts:13-17 | a text `a/b/c` builds `new Date(+c, +b - 1, +a)` |
| `Conversores.MissingYearIsInvalid` | src/utils/conversores.ts:15-16 | with only two fields the year is `undefined`, so the result is an Invalid Date |
| `Conversores.ParseOfFieldValues` | src/utils/conversores.ts:15-16 | fields that read as whole numbers give the date with those fields and the month moved one down, or an Invalid Date when `new Date` cannot hold the year |
| `Conversores.YearBeyondRangeIsInvalid` | src/utils/conversores.ts:13-17 | a digit year from 275761 on, such as in `01/01/300000`, gives an Invalid Date: even the earliest date digit fields can name, `new Date(c, -1, 0)`, is past the time-value limit |
| `Conversores.GerarStringPorDate` | src/utils/conversores.ts:21-26 | null exactly for a missing date |
| `Conversores.PrintedDateFields` | src/utils/conversores.ts:23-25 | the printed text splits into the padded day, the padded zero-based month and the year, the first two followed by the line break and indentation |
| `Conversores.PaddedFieldValue` | src/utils/conversores.ts:23-24 | `Number` reads a padded field followed by the line break and indentation as the field's value |
| `Conversores.PrintedDateReadsMonthEarlier` | src/utils/conversores.ts:13-25 | parsing a printed date builds the date from the same day, the month field one lower and the year through the 1900 offset, so never the date that was printed; when the year is outside 0 to 99, the date is not in January and the previous month has that day, the result is that calendar date in the previous month |
| `Conversores.MarchPrintsAsFebruary` | src/utils/conversores.ts:21-25 | 15 March 2024 prints as `15`, `02`, `2024` separated by the line break, indentation and `/` |
| `Conversores.DigitsAndCommasAppend` | src/utils/conversores.ts:32 | the `/[^\d,]/g` filter works character by character: filtering a concatenation concatenates the filtered parts |
| `Conversores.DigitsAndCommasKeeps` | src/utils/conversores.ts:32 | text made only of digits and commas is kept as it is |
| `Conversores.DigitsAndCommasDrops` | src/utils/conversores.ts:32 | text without digits or commas is removed entirely |
| `Conversores.CleanedText` | src/utils/conversores.ts:32 | the cleaned text holds only digits, commas and at most one point, with no comma before the point |
| `Conversores.CurrencyWithoutComma` | src/utils/conversores.ts:31-32 | without a comma the value is the digits read as a whole number, and NaN when there are none |
| `Conversores.CurrencyWithComma` | src/utils/conversores.ts:31-32 | with a comma the value is the integer digits plus the fraction digits up to the next comma, and NaN when both are empty |
| `Conversores.CurrencyExample` | src/utils/conversores.ts:31-32 | `"R$ 1.234,56"` gives 1234.56 |
| `Conversores.DigitsAndCommas` | src/utils/conversores.ts:32 | the `/[^\d,]/g` filter: what is left holds only digits and commas and is no longer than the input |
| `Conversores.LimparValorMonetario` | src/utils/conversores.ts:32 | the filter followed by `.replace(',', '.')`, which keeps the length of the filtered text |
| `Conversores.GerarDoublePorValorMonetario` | src/utils/conversores.ts:31-32 | definition: `parseFloat` of the cleaned text; its values are stated by `CurrencyWithoutComma`, `CurrencyWithComma` and `CurrencyExample` |
| `Conversores.GerarStringPorcentagemPorNumeroInteiro` | src/utils/conversores.ts:34-36 | the decimal text of the integer followed by `%`, which is `0%` for 0 |
| `Conversores.GerarDoublePorValorPorcentagem` | src/utils/conversores.ts:38-41 | `parseFloat` after removing the first `%`; text without `%` goes to `parseFloat` unchanged |
| `Conversores.PercentRemovesFirstSign` | src/utils/conversores.ts:38-41 | only the first `%` is removed before `parseFloat` |
| `Conversores.PercentRoundTrip` | src/utils/conversores.ts:34-41 | reading the percentage text of an integer gives the integer back |
| `Conversores.PercentExample` | src/utils/conversores.ts:38-41 | `"25%"` gives 25 |
| `ClientesCadastro.GerarDatePorString` | src/ui/pages/clientes/clientesCadastro.tsx:62-69 | null exactly for a missing or empty text; otherwise the same result as the converters' `gerarDatePorString` |
| `ClientesCadastro.GerarStringPorData` | src/ui/pages/clientes/clientesCadastro.tsx:71-72 | null exactly for a missing date |
| `ClientesCadastro.PrintedDateSplits` | src/ui/pages/clientes/clientesCadastro.tsx:73-77 | the printed text splits on `/` into the padded day, the padded one-based month and the year |
| `ClientesCadastro.PrintedDateLayout` | src/ui/pages/clientes/clientesCadastro.tsx:73-77 | for a four-digit year the text is `DD/MM/YYYY`: ten characters, `/` at 2 and 5, and digits reading as the day, one-based month and year |
| `ClientesCadastro.PrintedDateReadsBack` | src/ui/pages/clientes/clientesCadastro.tsx:62-78 | parsing a printed date gives the same month and day, with the year as `new Date` reads it |
| `ClientesCadastro.DateRoundTrip` | src/ui/pages/clientes/clientesCadastro.tsx:62-78 | for a year outside 0 to 99, parsing the printed date gives the same valid date |
| `ClientesCadastro.TwoDigitYearMoves` | src/ui/pages/clientes/clientesCadastro.tsx:66-75 | for a year from 0 to 99 the fields come back with 1900 added to the year, so never as the printed date |
| `ClientesCadastro.TextRoundTrip` | src/ui/pages/clientes/clientesCadastro.tsx:62-78 | a `dd/mm/aaaa` text naming a real day in a year from 1000 to 9999 parses to that date, which prints back as the same text |
| `ClientesCadastro.NomeValido` | src/ui/pages/clientes/clientesCadastro.tsx:46-48 | definition: `.min(3)` counts UTF-16 code units; its relation to the character count is `NomeValidoLength` |
| `ClientesCadastro.NomeValidoLength` | src/ui/pages/clientes/clientesCadastro.tsx:46-48 | three characters always pass and fewer than two never do; without astral characters, passing is exactly a length of at least three |
| `ClientesCadastro.CelularValido` | src/ui/pages/clientes/clientesCadastro.tsx:49-53 | definition: the mobile-number rule written position by position; `CelularMatchesPattern` proves it equal to the regular expression |
| `Regex.FullMatch` | src/ui/pages/clientes/clientesCadastro.tsx:51 | definition: an anchored match of a sequence of required or optional character classes, tried both ways for an optional one; `PadraoCelular` is the line-51 expression in this form |
| `ClientesCadastro.CelularMatchesPattern` | src/ui/pages/clientes/clientesCadastro.tsx:49-53 | the hand-written mobile-number rule holds exactly when the schema's regular expression matches |
| `ClientesCadastro.MascaraPreenchida` | src/ui/pages/clientes/clientesCadastro.tsx:186-191 | a fully typed `(00) 0 0000-0000` mask keeps its literal characters and puts the eleven digits in order in place of the zeros |
| `ClientesCadastro.MascaraAceita` | src/ui/pages/clientes/clientesCadastro.tsx:49-53 | a fully typed mask passes the mobile-number rule exactly when its third digit is 9 |
| `ClientesCadastro.Problemas` | src/ui/pages/clientes/clientesCadastro.tsx:45-60 | no problem exactly when every rule holds, and each message is reported exactly when its rule fails; an empty email gets both email messages, since `.email()` also fails on it |
| `ClientesCadastro.ClienteIdDaRota` | src/ui/pages/clientes/clientesCadastro.tsx:81-84 | no id exactly for `new`, otherwise the parameter read by `Number` |
| `ClientesCadastro.RotaNumerica` | src/ui/pages/clientes/clientesCadastro.tsx:81-84 | a decimal route parameter gives that number, and the page updates exactly when it is not 0 |
| `ClientesCadastro.RotaVazia` | src/ui/pages/clientes/clientesCadastro.tsx:81-84 | an empty parameter reads as 0, so the page creates |
| `ClientesCadastro.RotaComTexto` | src/ui/pages/clientes/clientesCadastro.tsx:81-84 | digits followed by text that cannot continue a number literal and does not end in white space read as NaN, so the page creates |
| `ClientesCadastro.IdVerdadeiro` | src/ui/pages/clientes/clientesCadastro.tsx:141 | definition: `if (clienteId)` is taken exactly for a number other than 0 and NaN |
| `ClientesCadastro.OnSubmit` | src/ui/pages/clientes/clientesCadastro.tsx:124-146 | update exactly when the id is truthy, otherwise create; the record carries the id (`null` when there is none), the parsed date and the mobile number as `telefone` |
| `ClientesCadastro.OnSubmitDialogo` | src/ui/pages/clientes/clientesCadastro.tsx:296-314 | always create, with no `id` key; no date exactly when the date text is missing or empty |
| `ClientesCadastro.DialogoComoPaginaNova` | src/ui/pages/clientes/clientesCadastro.tsx:296-314 | the dialog makes the creation the page makes on the `new` route, with the same record except that the page's `id: null` is absent from it |
| `ClientesCadastro.EnviarPagina` | src/ui/pages/clientes/clientesCadastro.tsx:160-164 | `onSubmit` runs exactly when no rule fails; otherwise the problems are reported |
| `ClientesCadastro.EnviarDialogo` | src/ui/pages/clientes/clientesCadastro.tsx:325-329 | the same for the dialog's form |
| `ClientesCadastro.RegraQuebradaRejeita` | src/ui/pages/clientes/clientesCadastro.tsx:45-53 | a name shorter than two characters or a malformed mobile number stops both submissions |
| `JsNumber.ToNumber` | src/utils/conversores.ts:16 | definition: `+s` trims white space, reads the empty text as 0, a `0x`/`0o`/`0b` literal or one whole decimal literal (with sign, fraction, exponent or `Infinity`) as its value, and anything else as NaN |
| `JsNumber.ParseFloat` | src/utils/conversores.ts:32 | definition: `parseFloat` skips leading white space and reads the longest decimal-literal prefix, NaN when there is none |
| `JsNumber.ToNumberDigits` | src/utils/conversores.ts:16 | `+s` on a non-empty digit string is its decimal value |
| `JsNumber.ToNumberIgnoresWhiteSpace` | src/utils/conversores.ts:16 | `+s` ignores white space around the text |
| `JsNumber.ToNumberIntToString` | src/ui/pages/clientes/clientesCadastro.tsx:84 | `Number` reads the decimal text of an integer as that integer |
| `JsNumber.ToNumberBlank` | src/ui/pages/clientes/clientesCadastro.tsx:84 | `Number` of empty or all-white-space text is 0 |
| `JsNumber.NumberVersusParseFloat` | src/ui/pages/clientes/clientesCadastro.tsx:84 | digits followed by text that cannot continue a number literal and does not end in white space are NaN for `Number`, while `parseFloat` reads the digits |
| `JsNumber.ScanFraction` | src/utils/conversores.ts:32 | the literal `a.b` not followed by more digits or an exponent is read as the value of `a.b` |
| `JsNumber.DecimalFractionValue` | src/utils/conversores.ts:32 | the digits without the point, scaled down by the number of fraction digits, are the value of `a.b` |
| `JsNumber.ParseFloatIntToString` | src/utils/conversores.ts:40 | `parseFloat` reads the decimal text of an integer as that integer, whatever non-numeric text follows |
| `JsDate.NewDate` | src/utils/conversores.ts:16 | an Invalid Date exactly when an argument is NaN or infinite or the year, after truncation and the 1900 offset, is outside the years a `Date` can hold; otherwise year, month and day are those truncated arguments |
| `JsDate.Truncate` | src/utils/conversores.ts:16 | truncation toward zero: the integer at most one away from the argument, on its side of zero |
| `JsDate.NewDateOfWholeNumbers` | src/utils/conversores.ts:16 | whole-number arguments are kept, the year through the 1900 offset, and a year that cannot be held gives an Invalid Date |
| `JsText.Split` | src/utils/conversores.ts:15 | `split` with a one-character separator: at least one piece, and no piece contains the separator |
| `JsText.Trim` | src/utils/conversores.ts:16 | definition: the leading and the trailing ECMAScript white space removed; `TrimIgnoresPadding` states its meaning |
| `JsText.SplitJoin` | src/utils/conversores.ts:15 | splitting pieces joined by a separator they do not contain gives the pieces back |
| `JsText.JoinSplit` | src/utils/conversores.ts:15 | joining the pieces of a split with the separator gives the text back |
| `JsText.SplitThree` | src/ui/pages/clientes/clientesCadastro.tsx:64 | `a/b/c` without other slashes splits into exactly `a`, `b` and `c` |
| `JsText.TrimIgnoresPadding` | src/utils/conversores.ts:16 | trimming ignores white space added on either side |
| `JsText.ReplaceFirst` | src/utils/conversores.ts:39 | `replace` with a one-character search string: text without it is unchanged, otherwise one character gives way to the replacement |
| `JsText.ReplaceFirstAt` | src/utils/conversores.ts:39 | a replace with a one-character string changes only its first occurrence |
| `JsText.NatToString` | src/utils/conversores.ts:11 | the decimal text of a natural number: digits, no leading zero, reading back as the number |
| `JsText.PadStart` | src/utils/conversores.ts:11 | the text is kept at the end and filled in front up to the length |
| `JsText.IntToString` | src/utils/conversores.ts:25 | `String(i)` of an integer: digits with the value of i, and for a negative i a `-` followed by digits with the value of -i; also prints the page's year (src/ui/pages/clientes/clientesCadastro.tsx:75-77) and the percentage (src/utils/conversores.ts:36) |
| `JsNumber.ElementToNumber` | src/utils/conversores.ts:15-16 | `+` of the element at an index of the destructured `split` result; an index past the end is `undefined`, which reads as NaN (also src/ui/pages/clientes/clientesCadastro.tsx:64-66) |
| `JsText.NatToStringOfDigits` | src/ui/pages/clientes/clientesCadastro.tsx:75 | digit text without a leading zero is the decimal text of its value |

## Left out

- `gerarStringReal` and `formatoData` wrap `Intl` locale formatting, a foreign library, and are not modelled.
- JavaScript numbers are exact rationals here: IEEE rounding, overflow and `-0` are not modelled, so a long digit string has its exact value.
- `Number` and `parseFloat` are modelled in full for decimal, `Infinity` and `0x`/`0o`/`0b` literals. An `_` is an ordinary character to both, as in JavaScript: `Number("1_000")` is NaN and `parseFloat("1_000")` is 1.
- `JsNumber.ScanFraction` and the currency lemmas state values only for fraction text that is not followed by an exponent. The cleaned currency text never contains `e` or `E`.
- `JsDate.NewDate`: applies the time-value limit (TimeClip) at whole-year precision. The years -271821 and 275760, which JavaScript accepts in part (from 20 April -271821 and up to 13 September 275760), always give an Invalid Date here, and month or day fields that would carry a date across the limit are not caught.
- `Conversores.PrintedDateReadsMonthEarlier`: for a January date (month field -1) or a day the previous month lacks (31 March read as 31 February), the result is stated as the unnormalised fields; JavaScript would carry them into December of the year before or into March, and that carrying is not modelled (next line).
- `new Date` with fields outside the calendar (such as `99/99/9999`) does not carry the excess into the next month or year in JavaScript fashion. The model keeps those fields and relates only calendar dates (`IsCalendarDate`) to the getters.
- Time zones are not modelled. The getters are taken to report the fields the date was built from.
- The printers take only valid dates. An Invalid Date passed to `gerarStringPorDate` or `gerarStringPorData` (which would print `NaN`) is not modelled.
- `Conversores.GerarStringPorcentagemPorNumeroInteiro`: takes a whole number. Fractional values, NaN (printed as `0%` because NaN is falsy) and numbers of 1e21 and more (printed in exponent form) are not modelled.
- The zod `.email()` validator's grammar is not visible, so its verdict on a non-empty text is the parameter `emailValido`. On the empty text it always fails.
- Non-string form values are not modelled (zod's "Campo obrigatório." message): the form always holds strings for these fields.
- `null` and a missing value for the birth date and the address in the form values are both `None`. The record's `id` tells the two apart: the page sends `id: null`, the dialog leaves the key out.
- React rendering, `useForm` state and the `setValue` resets, the react-query mutations and cache, router navigation, the Escape-key listener and the API calls are I/O and library code and are not modelled. A submission is modelled as the `Envio` value it hands to a mutation.
- The `console.log` of the fields (clientesCadastro.tsx:65) is output only and is not modelled.
- Partially typed masks, and the effect of the date input's `unmask` option, are not modelled: both belong to the masking component, which is not part of this model.

## Findings

| source | as written | input that shows it | evidently intended | confidence | as-written member | corrected member |
|---|---|---|---|---|---|---|
| src/utils/conversores.ts:21-25 | prints the zero-based `getMonth()` without `+ 1`, and the template literal's line breaks put a newline and six spaces before each `/` | the date 15 March 2024 (month index 2) prints as `15`, `02`, `2024` joined by newline, six spaces and `/`, and `gerarDatePorString` reads that back as 15 February 2024 | `dd/mm/aaaa` with the one-based month and plain `/`, which reads back as the same date | high; not executed | `Conversores.GerarStringPorDate`, shown by `Conversores.MarchPrintsAsFebruary` and `Conversores.PrintedDateReadsMonthEarlier` | `ClientesCadastro.GerarStringPorData`, with `ClientesCadastro.DateRoundTrip` and `ClientesCadastro.TextRoundTrip` |
