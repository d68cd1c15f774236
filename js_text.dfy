/** The JavaScript string primitives the converters are built from:
    white space as JavaScript defines it, decimal digits and their printing,
    `padStart`, `split`, `trim`, `replace` of a first occurrence and the
    UTF-16 length that `String.prototype.length` reports. */
module JsText {

  datatype Option<+T> = None | Some(value: T)

  /** The WhiteSpace and LineTerminator code points of ECMAScript: what `\s`,
      `trim` and `Number` treat as white space. */
  predicate IsWhiteSpace(c: char) {
    c == '\t' || c == '\n' || c == '\U{B}' || c == '\U{C}' || c == '\r' || c == ' '
    || c == '\U{A0}' || c == '\U{1680}' || ('\U{2000}' <= c <= '\U{200A}')
    || c == '\U{2028}' || c == '\U{2029}' || c == '\U{202F}' || c == '\U{205F}'
    || c == '\U{3000}' || c == '\U{FEFF}'
  }

  predicate AllWhiteSpace(s: string) {
    forall i :: 0 <= i < |s| ==> IsWhiteSpace(s[i])
  }

  /** `\d` and `[0-9]`: the ASCII decimal digits only. */
  predicate IsDigit(c: char) {
    '0' <= c <= '9'
  }

  predicate AllDigits(s: string) {
    forall i :: 0 <= i < |s| ==> IsDigit(s[i])
  }

  /** A string of digits holds no other character. */
  lemma DigitsExclude(s: string, c: char)
    requires AllDigits(s) && !IsDigit(c)
    ensures c !in s
  {
  }

  function DigitValue(c: char): (d: nat)
    requires IsDigit(c)
    ensures d < 10
  {
    c as int - '0' as int
  }

  function DigitChar(d: nat): (c: char)
    requires d < 10
    ensures IsDigit(c) && DigitValue(c) == d
  {
    (d + '0' as int) as char
  }

  /** The value of a string of decimal digits, most significant digit first. */
  function DigitsValue(s: string): nat
    requires AllDigits(s)
    decreases |s|
  {
    if s == [] then 0 else DigitsValue(s[..|s| - 1]) * 10 + DigitValue(s[|s| - 1])
  }

  function Pow10(n: nat): (p: nat)
    ensures p >= 1
  {
    if n == 0 then 1 else 10 * Pow10(n - 1)
  }

  lemma {:induction false} DigitsValueAppend(a: string, b: string)
    requires AllDigits(a) && AllDigits(b)
    ensures AllDigits(a + b)
    ensures DigitsValue(a + b) == DigitsValue(a) * Pow10(|b|) + DigitsValue(b)
    decreases |b|
  {
    if b == [] {
      assert a + b == a;
    } else {
      var b' := b[..|b| - 1];
      assert (a + b)[..|a + b| - 1] == a + b';
      assert (a + b)[|a + b| - 1] == b[|b| - 1];
      DigitsValueAppend(a, b');
      assert DigitsValue(a + b) == DigitsValue(a + b') * 10 + DigitValue(b[|b| - 1]);
      assert DigitsValue(b) == DigitsValue(b') * 10 + DigitValue(b[|b| - 1]);
      assert Pow10(|b|) == 10 * Pow10(|b'|);
      ShiftDigit(DigitsValue(a), Pow10(|b'|), DigitsValue(b'), DigitValue(b[|b| - 1]));
    }
  }

  lemma ShiftDigit(x: int, p: int, v: int, d: int)
    ensures (x * p + v) * 10 + d == x * (10 * p) + (v * 10 + d)
  {
    assert (x * p) * 10 == x * (10 * p);
  }

  /** Leading zeros do not change the value of a digit string. */
  lemma LeadingZero(s: string)
    requires AllDigits(s)
    ensures AllDigits("0" + s) && DigitsValue("0" + s) == DigitsValue(s)
  {
    DigitsValueAppend("0", s);
    assert DigitsValue("0") == DigitsValue("") * 10 + 0;
  }

  /** `n.toString()` for a non-negative integer below 10^21: its decimal digits
      without leading zeros. */
  function NatToString(n: nat): (s: string)
    ensures |s| >= 1 && AllDigits(s)
    ensures DigitsValue(s) == n
    ensures s[0] == '0' ==> n == 0
    ensures |s| == 1 <==> n < 10
    decreases n
  {
    if n < 10 then [DigitChar(n)]
    else
      var prefix := NatToString(n / 10);
      var s := prefix + [DigitChar(n % 10)];
      assert s[..|s| - 1] == prefix;
      s
  }

  /** A number has `k` decimal digits when it lies in `10^(k-1) .. 10^k - 1`. */
  lemma {:induction false} NatToStringLength(n: nat, k: nat)
    requires 1 <= k && Pow10(k - 1) <= n < Pow10(k)
    ensures |NatToString(n)| == k
    decreases k
  {
    if k > 1 {
      assert Pow10(k - 1) == 10 * Pow10(k - 2);
      assert Pow10(k) == 10 * Pow10(k - 1);
      NatToStringLength(n / 10, k - 1);
    }
  }

  /** A string of `k` digits has a value below `10^k`, and of at least
      `10^(k-1)` when its first digit is not zero. */
  lemma {:induction false} DigitsValueBounds(s: string)
    requires AllDigits(s) && |s| > 0
    ensures DigitsValue(s) < Pow10(|s|)
    ensures s[0] != '0' ==> DigitsValue(s) >= Pow10(|s| - 1)
    decreases |s|
  {
    var t := s[..|s| - 1];
    if |s| == 1 {
      assert t == [];
    } else {
      DigitsValueBounds(t);
      assert t[0] == s[0];
    }
  }

  /** Printing the value of a digit string without leading zeros gives the
      string back. */
  lemma {:induction false} NatToStringOfDigits(s: string)
    requires AllDigits(s) && |s| > 0 && (s[0] != '0' || |s| == 1)
    ensures NatToString(DigitsValue(s)) == s
    decreases |s|
  {
    var n := DigitsValue(s);
    if |s| == 1 {
      assert s[..|s| - 1] == [];
      assert DigitsValue(s[..|s| - 1]) == 0;
      assert n == DigitValue(s[0]);
      assert s == [DigitChar(n)];
    } else {
      var t := s[..|s| - 1];
      DigitsValueBounds(t);
      assert t[0] == s[0];
      NatToStringOfDigits(t);
      assert n / 10 == DigitsValue(t) && n % 10 == DigitValue(s[|s| - 1]);
      assert s == t + [s[|s| - 1]];
    }
  }

  /** `String(i)` for an integer of magnitude below 10^21. */
  function IntToString(i: int): (s: string)
    ensures |s| >= 1
    ensures i >= 0 ==> AllDigits(s) && DigitsValue(s) == i
    ensures i < 0 ==> s[0] == '-' && AllDigits(s[1..]) && |s| >= 2 && DigitsValue(s[1..]) == -i
  {
    if i < 0 then "-" + NatToString(-i) else NatToString(i)
  }

  /** Only digits and a leading minus sign appear in a printed integer. */
  lemma IntToStringExcludes(i: int, c: char)
    requires !IsDigit(c) && c != '-'
    ensures c !in IntToString(i)
  {
    var s := IntToString(i);
    if i >= 0 {
      DigitsExclude(s, c);
    } else {
      DigitsExclude(s[1..], c);
      assert s == "-" + s[1..];
    }
  }

  function Repeat(c: char, n: nat): (r: string)
    ensures |r| == n && forall i :: 0 <= i < n ==> r[i] == c
  {
    if n == 0 then [] else [c] + Repeat(c, n - 1)
  }

  /** `s.padStart(n, fill)` with a one-character `fill`. */
  function PadStart(s: string, n: nat, fill: char): (r: string)
    ensures |r| == if |s| >= n then |s| else n
    ensures r[|r| - |s|..] == s
    ensures forall i :: 0 <= i < |r| - |s| ==> r[i] == fill
  {
    if |s| >= n then s else Repeat(fill, n - |s|) + s
  }

  /** Index of the first occurrence of `c` in `s` (what `indexOf` finds). */
  function FirstIndex(s: string, c: char): (i: nat)
    requires c in s
    ensures i < |s| && s[i] == c && c !in s[..i]
  {
    if s[0] == c then 0
    else
      var i := 1 + FirstIndex(s[1..], c);
      assert s[..i] == [s[0]] + s[1..][..i - 1];
      i
  }

  lemma FirstIndexUnique(s: string, c: char, i: nat)
    requires i < |s| && s[i] == c && c !in s[..i]
    ensures FirstIndex(s, c) == i
  {
  }

  /** `parts.join(sep)`. */
  function Join(parts: seq<string>, sep: char): string
    requires |parts| >= 1
  {
    if |parts| == 1 then parts[0] else parts[0] + [sep] + Join(parts[1..], sep)
  }

  /** `s.split(sep)` with a one-character separator: the pieces between the
      separators, `[s]` when there is none and `[""]` for the empty string. */
  function Split(s: string, sep: char): (parts: seq<string>)
    ensures |parts| >= 1
    ensures forall i :: 0 <= i < |parts| ==> sep !in parts[i]
    decreases |s|
  {
    if sep !in s then [s]
    else
      var i := FirstIndex(s, sep);
      var rest := Split(s[i + 1..], sep);
      var parts := [s[..i]] + rest;
      assert parts[1..] == rest;
      parts
  }

  /** A piece without the separator is not split. */
  lemma SplitNone(p: string, sep: char)
    requires sep !in p
    ensures Split(p, sep) == [p]
  {
  }

  /** The first piece ends at the first separator. */
  lemma SplitCons(p: string, sep: char, rest: string)
    requires sep !in p
    ensures Split(p + [sep] + rest, sep) == [p] + Split(rest, sep)
  {
    var s := p + [sep] + rest;
    assert s[|p|] == sep;
    assert s[..|p|] == p;
    FirstIndexUnique(s, sep, |p|);
    assert s[|p| + 1..] == rest;
  }

  /** Splitting undoes joining pieces that do not hold the separator. */
  lemma {:induction false} SplitJoin(parts: seq<string>, sep: char)
    requires |parts| >= 1
    requires forall i :: 0 <= i < |parts| ==> sep !in parts[i]
    ensures Split(Join(parts, sep), sep) == parts
    decreases |parts|
  {
    if |parts| == 1 {
      SplitNone(parts[0], sep);
    } else {
      assert sep !in parts[0];
      SplitCons(parts[0], sep, Join(parts[1..], sep));
      SplitJoin(parts[1..], sep);
      assert parts == [parts[0]] + parts[1..];
    }
  }

  /** Joining the pieces with the separator gives back the text. */
  lemma {:induction false} JoinSplit(s: string, sep: char)
    ensures Join(Split(s, sep), sep) == s
    decreases |s|
  {
    if sep in s {
      var i := FirstIndex(s, sep);
      var rest := Split(s[i + 1..], sep);
      assert Split(s, sep) == [s[..i]] + rest;
      assert ([s[..i]] + rest)[1..] == rest;
      JoinSplit(s[i + 1..], sep);
      assert s == s[..i] + [sep] + s[i + 1..];
    }
  }

  lemma SplitTwo(a: string, b: string, sep: char)
    requires sep !in a && sep !in b
    ensures Split(a + [sep] + b, sep) == [a, b]
  {
    SplitCons(a, sep, b);
    SplitNone(b, sep);
  }

  lemma SplitThree(a: string, b: string, c: string, sep: char)
    requires sep !in a && sep !in b && sep !in c
    ensures Split(a + [sep] + b + [sep] + c, sep) == [a, b, c]
  {
    var s := a + [sep] + b + [sep] + c;
    assert s == a + [sep] + (b + [sep] + c);
    SplitThreeOf(s, a, b, c, sep);
  }

  lemma SplitThreeOf(s: string, a: string, b: string, c: string, sep: char)
    requires sep !in a && sep !in b && sep !in c
    requires s == a + [sep] + (b + [sep] + c)
    ensures Split(s, sep) == [a, b, c]
  {
    SplitCons(a, sep, b + [sep] + c);
    SplitTwo(b, c, sep);
  }

  /** `trimStart`: drops the leading white space. */
  function TrimStart(s: string): (r: string)
    ensures |r| <= |s| && r == s[|s| - |r|..]
    ensures AllWhiteSpace(s[..|s| - |r|])
    ensures r == [] || !IsWhiteSpace(r[0])
  {
    if s != [] && IsWhiteSpace(s[0]) then
      var r := TrimStart(s[1..]);
      TrimStartStep(s, r);
      r
    else
      assert s[..0] == [] && s[0..] == s;
      s
  }

  lemma TrimStartStep(s: string, r: string)
    requires s != [] && IsWhiteSpace(s[0]) && |r| <= |s| - 1
    requires r == s[1..][|s| - 1 - |r|..] && AllWhiteSpace(s[1..][..|s| - 1 - |r|])
    ensures r == s[|s| - |r|..] && AllWhiteSpace(s[..|s| - |r|])
  {
    var k := |s| - |r|;
    assert s[1..][k - 1..] == s[k..];
    assert s[..k] == [s[0]] + s[1..][..k - 1];
  }

  /** `trimEnd`: drops the trailing white space. */
  function TrimEnd(s: string): (r: string)
    ensures |r| <= |s| && r == s[..|r|]
    ensures AllWhiteSpace(s[|r|..])
    ensures r == [] || !IsWhiteSpace(r[|r| - 1])
  {
    if s != [] && IsWhiteSpace(s[|s| - 1]) then
      var r := TrimEnd(s[..|s| - 1]);
      TrimEndStep(s, r);
      r
    else
      assert s[|s|..] == [] && s[..|s|] == s;
      s
  }

  lemma TrimEndStep(s: string, r: string)
    requires s != [] && IsWhiteSpace(s[|s| - 1]) && |r| <= |s| - 1
    requires r == s[..|s| - 1][..|r|] && AllWhiteSpace(s[..|s| - 1][|r|..])
    ensures r == s[..|r|] && AllWhiteSpace(s[|r|..])
  {
    assert s[..|s| - 1][..|r|] == s[..|r|];
    assert s[|r|..] == s[..|s| - 1][|r|..] + [s[|s| - 1]];
  }

  /** `trim`. */
  function Trim(s: string): string {
    TrimStart(TrimEnd(s))
  }

  /** Text that neither starts nor ends with white space is not trimmed. */
  lemma TrimKeeps(t: string)
    requires t == [] || (!IsWhiteSpace(t[0]) && !IsWhiteSpace(t[|t| - 1]))
    ensures TrimEnd(t) == t && TrimStart(t) == t && Trim(t) == t
  {
  }

  /** Text that does not start with white space is left as it is. */
  lemma TrimStartKeeps(t: string)
    requires t == [] || !IsWhiteSpace(t[0])
    ensures TrimStart(t) == t
  {
  }

  lemma {:induction false} TrimStartSkips(w: string, t: string)
    requires AllWhiteSpace(w)
    ensures TrimStart(w + t) == TrimStart(t)
    decreases |w|
  {
    if w != [] {
      assert (w + t)[1..] == w[1..] + t;
      TrimStartSkips(w[1..], t);
    } else {
      assert w + t == t;
    }
  }

  lemma {:induction false} TrimEndSkips(t: string, w: string)
    requires AllWhiteSpace(w)
    ensures TrimEnd(t + w) == TrimEnd(t)
    decreases |w|
  {
    if w != [] {
      var w' := w[..|w| - 1];
      assert (t + w)[..|t + w| - 1] == t + w';
      TrimEndSkips(t, w');
    } else {
      assert t + w == t;
    }
  }

  lemma {:induction false} TrimEndPrepend(w: string, t: string)
    requires TrimEnd(t) != []
    ensures TrimEnd(w + t) == w + TrimEnd(t)
    decreases |t|
  {
    if IsWhiteSpace(t[|t| - 1]) {
      assert (w + t)[..|w + t| - 1] == w + t[..|t| - 1];
      TrimEndPrepend(w, t[..|t| - 1]);
    }
  }

  /** `Number` and `trim` do not see white space around a string. */
  lemma TrimIgnoresPadding(w1: string, t: string, w2: string)
    requires AllWhiteSpace(w1) && AllWhiteSpace(w2)
    ensures Trim(w1 + t + w2) == Trim(t)
  {
    TrimEndSkips(w1 + t, w2);
    if TrimEnd(t) == [] {
      assert t[0..] == t;
      assert AllWhiteSpace(w1 + t);
      TrimEndSkips([], w1 + t);
      assert [] + (w1 + t) == w1 + t;
    } else {
      TrimEndPrepend(w1, t);
      TrimStartSkips(w1, TrimEnd(t));
    }
  }

  /** `s.replace(c, r)` with a one-character search string: only the first
      occurrence is replaced. */
  function ReplaceFirst(s: string, c: char, r: string): (t: string)
    ensures c !in s ==> t == s
    ensures c in s ==> |t| == |s| - 1 + |r|
  {
    if c !in s then s
    else
      var i := FirstIndex(s, c);
      s[..i] + r + s[i + 1..]
  }

  /** Replacement happens at the first occurrence and nowhere else. */
  lemma ReplaceFirstAt(a: string, c: char, b: string, r: string)
    requires c !in a
    ensures ReplaceFirst(a + [c] + b, c, r) == a + r + b
  {
    var s := a + [c] + b;
    assert s[|a|] == c;
    assert s[..|a|] == a;
    FirstIndexUnique(s, c, |a|);
    assert s[|a| + 1..] == b;
  }

  /** The length JavaScript reports for a string: its UTF-16 code units, two
      for a code point outside the Basic Multilingual Plane. */
  function Utf16Length(s: string): (n: nat)
    ensures |s| <= n <= 2 * |s|
  {
    if s == [] then 0 else (if s[0] as int > 0xFFFF then 2 else 1) + Utf16Length(s[1..])
  }
}
