/** Regular expressions of the shape the form schema uses: an anchored
    (`^...$`) sequence of character classes, each either required or
    optional (`?`), with `{n}` written out as n copies. The matcher tries
    both choices at every optional term, as a backtracking regex engine does,
    so it is the reference meaning of such a pattern. */
module Regex {
  import opened JsText

  datatype CharClass =
    | Char(c: char)                      // a literal, or `[c]`
    | Range(lo: char, hi: char)          // `[lo-hi]`
    | Space                              // `\s`
    | Union(left: CharClass, right: CharClass)

  predicate InClass(k: CharClass, c: char) {
    match k
    case Char(d) => c == d
    case Range(lo, hi) => lo <= c <= hi
    case Space => IsWhiteSpace(c)
    case Union(l, r) => InClass(l, c) || InClass(r, c)
  }

  datatype Term = Term(charClass: CharClass, optional: bool)

  function One(k: CharClass): Term { Term(k, false) }
  function Maybe(k: CharClass): Term { Term(k, true) }

  /** `k{n}`. */
  function Times(k: CharClass, n: nat): (p: seq<Term>)
    ensures |p| == n && forall i :: 0 <= i < n ==> p[i] == One(k)
  {
    if n == 0 then [] else [One(k)] + Times(k, n - 1)
  }

  /** Whether the whole of `s` matches the anchored pattern `p`. */
  predicate FullMatch(p: seq<Term>, s: string)
    decreases |p|
  {
    if p == [] then s == []
    else
      || (p[0].optional && FullMatch(p[1..], s))
      || (|s| > 0 && InClass(p[0].charClass, s[0]) && FullMatch(p[1..], s[1..]))
  }

  predicate AllRequired(p: seq<Term>) {
    forall i :: 0 <= i < |p| ==> !p[i].optional
  }

  /** A run of required terms consumes exactly one matching character each. */
  lemma {:induction false} FullMatchRequired(p: seq<Term>, rest: seq<Term>, s: string)
    requires AllRequired(p)
    ensures FullMatch(p + rest, s)
        <==> |s| >= |p| && (forall i :: 0 <= i < |p| ==> InClass(p[i].charClass, s[i])) && FullMatch(rest, s[|p|..])
    decreases |p|
  {
    if p == [] {
      assert p + rest == rest;
    } else {
      assert (p + rest)[1..] == p[1..] + rest;
      if |s| > 0 {
        FullMatchRequired(p[1..], rest, s[1..]);
        if |s| >= |p| { assert s[1..][|p| - 1..] == s[|p|..]; }
        if |s| >= |p| && (forall i :: 0 <= i < |p| ==> InClass(p[i].charClass, s[i])) {
          assert forall i :: 0 <= i < |p| - 1 ==> InClass(p[1..][i].charClass, s[1..][i]) by {
            forall i | 0 <= i < |p| - 1 ensures InClass(p[1..][i].charClass, s[1..][i]) {
              assert p[1..][i] == p[i + 1] && s[1..][i] == s[i + 1];
            }
          }
        }
        if FullMatch(p + rest, s) {
          assert forall i :: 0 <= i < |p| ==> InClass(p[i].charClass, s[i]) by {
            forall i | 0 <= i < |p| ensures InClass(p[i].charClass, s[i]) {
              if i > 0 { assert p[1..][i - 1] == p[i] && s[1..][i - 1] == s[i]; }
            }
          }
        }
      }
    }
  }

  /** An optional term whose class cannot start what follows is taken exactly
      when the next character is in its class. */
  lemma FullMatchOptional(k: CharClass, next: CharClass, rest: seq<Term>, s: string)
    requires forall c :: InClass(k, c) ==> !InClass(next, c)
    ensures FullMatch([Maybe(k), One(next)] + rest, s)
        <==> if |s| > 0 && InClass(k, s[0]) then FullMatch([One(next)] + rest, s[1..])
             else FullMatch([One(next)] + rest, s)
  {
    var p := [Maybe(k), One(next)] + rest;
    assert p[1..] == [One(next)] + rest;
    assert ([One(next)] + rest)[1..] == rest;
  }
}
