/** The part of ECMAScript regular-expression matching that the highlighter
    relies on: a pattern `t0|t1|...|tn` built from literal terms, compiled with
    the flags `gi` (global, ignore case, no Unicode flag).

    - `Canonical` is the ignore-case `Canonicalize` of section 22.2.2.7.3 of
      ECMA-262, restricted to ASCII. For terms made of ASCII characters it is
      exact: the non-Unicode `Canonicalize` never maps a character at or above
      U+0080 to one below it, so no non-ASCII character of the text can match
      an ASCII character of a term.
    - `FirstAlt` is the Disjunction of section 22.2.2.3: alternatives are tried
      left to right, and the first one that matches at a position wins.
    - `Exec` is `RegExpBuiltinExec` of section 22.2.7.2 for a global, non-sticky
      expression: starting at `lastIndex`, try every position in turn and
      report the first one where the pattern matches.
*/
module Alternation {

  datatype Option<T> = None | Some(value: T)

  /** The characters that are special in a regular-expression pattern. A term
      holding one of them would not be read as a literal by the alternation. */
  const Metacharacters: string := "^$\\.*+?()[]{}|"

  /** A term the highlighter can use: non-empty (an empty alternative matches
      the empty string, and a global `exec` loop over it never ends), ASCII
      only, and free of metacharacters (the terms are joined without
      escaping). */
  predicate LiteralTerm(t: string) {
    |t| > 0 && forall k :: 0 <= k < |t| ==> t[k] < '\U{80}' && t[k] !in Metacharacters
  }

  /** A usable list of terms: at least one (joining an empty list gives the
      empty pattern, which matches the empty string everywhere), each of them
      a literal term. */
  predicate LiteralTerms(terms: seq<string>) {
    |terms| > 0 && forall i :: 0 <= i < |terms| ==> LiteralTerm(terms[i])
  }

  /** What the scan itself needs of the terms: there is at least one, and
      none is empty, so the pattern never matches the empty string. */
  predicate NonEmptyTerms(terms: seq<string>) {
    |terms| > 0 && forall i :: 0 <= i < |terms| ==> |terms[i]| > 0
  }

  lemma LiteralTermsNonEmpty(terms: seq<string>)
    requires LiteralTerms(terms)
    ensures NonEmptyTerms(terms)
  {
    forall i | 0 <= i < |terms| ensures |terms[i]| > 0 {
      assert LiteralTerm(terms[i]);
    }
  }

  /** Ignore-case canonical form of a character: ASCII lower-case letters map
      to upper case, everything else to itself. */
  function Canonical(c: char): (u: char)
    ensures 'a' <= c <= 'z' ==> u as int == c as int - 32
    ensures !('a' <= c <= 'z') ==> u == c
    ensures u < '\U{80}' <==> c < '\U{80}'
  {
    if 'a' <= c <= 'z' then (c as int - 32) as char else c
  }

  predicate AsciiLetter(c: char) {
    'a' <= c <= 'z' || 'A' <= c <= 'Z'
  }

  /** What the `i` flag promises: two characters compare equal exactly when
      they are the same character, or the same ASCII letter in the other
      case. */
  lemma CanonicalEq(a: char, b: char)
    ensures Canonical(a) == Canonical(b) <==>
      a == b || (AsciiLetter(a) && AsciiLetter(b) && (a as int - b as int == 32 || b as int - a as int == 32))
  {
  }

  /** The term `term` matches the text at offset `i`: it fits, and each of its
      characters equals the text's character at the same place once both are
      canonicalized. */
  predicate MatchesAt(text: string, i: nat, term: string) {
    i + |term| <= |text| && MatchesFrom(text, i, term, 0)
  }

  /** Characters `k..` of `term` match the text from offset `i + k` on. */
  predicate MatchesFrom(text: string, i: nat, term: string, k: nat)
    requires i + |term| <= |text|
    decreases |term| - k
  {
    k >= |term| || (Canonical(text[i + k]) == Canonical(term[k]) && MatchesFrom(text, i, term, k + 1))
  }

  /** The alternative chosen at offset `i`: the index of the first term, in
      list order, that matches there. */
  function FirstAlt(text: string, i: nat, terms: seq<string>): (r: Option<nat>)
    ensures r.Some? ==> r.value < |terms| && MatchesAt(text, i, terms[r.value])
  {
    if terms == [] then None
    else if MatchesAt(text, i, terms[0]) then Some(0)
    else match FirstAlt(text, i, terms[1..])
      case None => None
      case Some(j) => Some(j + 1)
  }

  /** Alternation priority: no term listed before the chosen one matches at
      that offset, and when no alternative is chosen no term matches there. */
  lemma {:induction false} FirstAltIsFirst(text: string, i: nat, terms: seq<string>, k: nat)
    requires k < |terms|
    ensures FirstAlt(text, i, terms).Some? && k < FirstAlt(text, i, terms).value ==>
      !MatchesAt(text, i, terms[k])
    ensures FirstAlt(text, i, terms).None? ==> !MatchesAt(text, i, terms[k])
  {
    if k > 0 && !MatchesAt(text, i, terms[0]) {
      FirstAltIsFirst(text, i, terms[1..], k - 1);
      assert terms[1..][k - 1] == terms[k];
    }
  }

  /** No term matches at any offset in [lo, hi). */
  ghost predicate Gap(text: string, terms: seq<string>, lo: nat, hi: nat) {
    forall p: nat :: lo <= p < hi ==> FirstAlt(text, p, terms).None?
  }

  /** The array returned by `exec`: `index` is where the match starts and
      `value` (element 0 of the array) is the matched slice of the text. */
  datatype ExecMatch = ExecMatch(index: nat, value: string)

  /** One call of `exec` on the global expression whose `lastIndex` is
      `lastIndex`: the leftmost match starting at or after `lastIndex`, or
      `None` when there is none (a `lastIndex` beyond the end fails at once). */
  function Exec(text: string, terms: seq<string>, lastIndex: nat): (r: Option<ExecMatch>)
    requires NonEmptyTerms(terms)
    ensures r.Some? ==> lastIndex <= r.value.index
    ensures r.Some? ==> 0 < |r.value.value| && r.value.index + |r.value.value| <= |text|
    decreases |text| - lastIndex
  {
    if lastIndex > |text| then None
    else match FirstAlt(text, lastIndex, terms)
      case Some(j) =>
        Some(ExecMatch(lastIndex, text[lastIndex..lastIndex + |terms[j]|]))
      case None =>
        if lastIndex == |text| then None else Exec(text, terms, lastIndex + 1)
  }

  /** `exec` finds the leftmost match: no term occurs between `lastIndex` and
      the match, and when it fails no term occurs anywhere from `lastIndex`
      to the end of the text. */
  lemma {:induction false} ExecLeftmost(text: string, terms: seq<string>, lastIndex: nat)
    requires NonEmptyTerms(terms)
    ensures Exec(text, terms, lastIndex).Some? ==>
      Gap(text, terms, lastIndex, Exec(text, terms, lastIndex).value.index)
    ensures Exec(text, terms, lastIndex).None? ==> Gap(text, terms, lastIndex, |text|)
    decreases |text| - lastIndex
  {
    if lastIndex <= |text| && FirstAlt(text, lastIndex, terms).None? && lastIndex < |text| {
      ExecLeftmost(text, terms, lastIndex + 1);
      var r := Exec(text, terms, lastIndex + 1);
      GapExtend(text, terms, lastIndex, if r.Some? then r.value.index else |text|);
    }
  }

  /** A gap can be widened by one offset to the left where nothing occurs. */
  lemma GapExtend(text: string, terms: seq<string>, lo: nat, hi: nat)
    requires FirstAlt(text, lo, terms).None? && Gap(text, terms, lo + 1, hi)
    ensures Gap(text, terms, lo, hi)
  {
  }

  /** What `exec` reports is the alternative chosen at the match index: the
      match is as long as the first term, in list order, that matches there,
      and `match[0]` is that slice of the text. */
  lemma {:induction false} ExecChosen(text: string, terms: seq<string>, lastIndex: nat)
    requires NonEmptyTerms(terms)
    ensures Exec(text, terms, lastIndex).Some? ==>
      var m := Exec(text, terms, lastIndex).value;
      FirstAlt(text, m.index, terms).Some?
      && |m.value| == |terms[FirstAlt(text, m.index, terms).value]|
      && m.value == text[m.index..m.index + |m.value|]
    decreases |text| - lastIndex
  {
    if lastIndex <= |text| && FirstAlt(text, lastIndex, terms).None? && lastIndex < |text| {
      ExecChosen(text, terms, lastIndex + 1);
    }
  }
}
