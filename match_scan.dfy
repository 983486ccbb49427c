/** The match scan of `updateDecorations`: call `exec` on the global
    alternation until it returns null and collect, for every match, the range
    of character offsets `[index, index + length)` it covers. */
module MatchScan {
  import opened Alternation

  /** A highlighted range of the document, in character offsets. */
  datatype Range = Range(start: nat, end: nat)

  /** The ranges the `exec` loop collects when `lastIndex` starts at `from`. */
  function Scan(text: string, terms: seq<string>, from: nat): seq<Range>
    requires NonEmptyTerms(terms)
    decreases |text| - from
  {
    match Exec(text, terms, from)
    case None => []
    case Some(m) =>
      [Range(m.index, m.index + |m.value|)] + Scan(text, terms, m.index + |m.value|)
  }

  /** All the ranges of a document: the scan from offset 0. */
  function Matches(text: string, terms: seq<string>): seq<Range>
    requires NonEmptyTerms(terms)
  {
    Scan(text, terms, 0)
  }

  /** One step of the scan: a match found at `from` heads the list, and the
      scan resumes where the match ends. */
  lemma ScanUnfold(text: string, terms: seq<string>, from: nat)
    requires NonEmptyTerms(terms)
    requires Exec(text, terms, from).Some?
    ensures var m := Exec(text, terms, from).value;
      Scan(text, terms, from) == [Range(m.index, m.index + |m.value|)] + Scan(text, terms, m.index + |m.value|)
  {
  }

  /** `found` holds the ranges the scan from offset 0 produces before
      `lastIndex`: what is still to come is the scan from `lastIndex`. */
  ghost predicate ScannedUpTo(text: string, terms: seq<string>, lastIndex: nat, found: seq<Range>)
    requires NonEmptyTerms(terms)
  {
    found + Scan(text, terms, lastIndex) == Scan(text, terms, 0)
  }

  /** The loop step: pushing the range of the match found at `lastIndex`
      and moving `lastIndex` to its end keeps `ScannedUpTo`. */
  lemma ScanStep(text: string, terms: seq<string>, lastIndex: nat, found: seq<Range>)
    requires NonEmptyTerms(terms)
    requires Exec(text, terms, lastIndex).Some?
    requires ScannedUpTo(text, terms, lastIndex, found)
    ensures var m := Exec(text, terms, lastIndex).value;
      ScannedUpTo(text, terms, m.index + |m.value|, found + [Range(m.index, m.index + |m.value|)])
  {
  }

  /** The loop exit: once `exec` fails, what has been pushed is the whole scan. */
  lemma ScanDone(text: string, terms: seq<string>, lastIndex: nat, found: seq<Range>)
    requires NonEmptyTerms(terms)
    requires Exec(text, terms, lastIndex).None?
    requires ScannedUpTo(text, terms, lastIndex, found)
    ensures found == Matches(text, terms)
  {
  }

  // ---------------------------------------------------------------------------
  // An independent description of the same list of ranges.

  /** `r` covers exactly the first term, in list order, that matches at
      `r.start`. */
  ghost predicate Chosen(text: string, terms: seq<string>, r: Range) {
    match FirstAlt(text, r.start, terms)
    case None => false
    case Some(j) => r.end == r.start + |terms[j]|
  }

  /** Where the i-th gap of `rs` begins: `from` before the first range, and the
      end of the previous range after that. */
  function GapStart(rs: seq<Range>, from: nat, i: nat): nat
    requires i <= |rs|
  {
    if i == 0 then from else rs[i - 1].end
  }

  /** Where the i-th gap of `rs` ends: at the next range's start, or at the end
      of the text after the last range. */
  function GapEnd(rs: seq<Range>, n: nat, i: nat): nat
    requires i <= |rs|
  {
    if i == |rs| then n else rs[i].start
  }

  /** `rs` is the list of leftmost, non-overlapping matches of `terms` in
      `text[from..]`: every range is a chosen match, ranges come in order and
      do not overlap, and no term occurs at any offset between two consecutive
      ranges, before the first one or after the last one. */
  ghost predicate LeftmostCover(text: string, terms: seq<string>, from: nat, rs: seq<Range>) {
    (forall i :: 0 <= i < |rs| ==> Chosen(text, terms, rs[i])) &&
    (forall i :: 0 <= i <= |rs| ==> GapStart(rs, from, i) <= GapEnd(rs, |text|, i)) &&
    (forall i :: 0 <= i <= |rs| ==> Gap(text, terms, GapStart(rs, from, i), GapEnd(rs, |text|, i)))
  }

  /** Putting a chosen match in front of a cover of the rest of the text,
      with nothing occurring before it, gives a cover from `from`. */
  lemma CoverCons(text: string, terms: seq<string>, from: nat, r: Range, tail: seq<Range>)
    requires Chosen(text, terms, r) && from <= r.start && Gap(text, terms, from, r.start)
    requires LeftmostCover(text, terms, r.end, tail)
    ensures LeftmostCover(text, terms, from, [r] + tail)
  {
    var rs := [r] + tail;
    forall i | 0 <= i < |rs| ensures Chosen(text, terms, rs[i]) {
      if i > 0 { assert rs[i] == tail[i - 1]; }
    }
    forall i | 0 <= i <= |rs|
      ensures GapStart(rs, from, i) <= GapEnd(rs, |text|, i)
      ensures Gap(text, terms, GapStart(rs, from, i), GapEnd(rs, |text|, i))
    {
      if i == 0 {
        assert GapStart(rs, from, i) == from && GapEnd(rs, |text|, i) == r.start;
      } else {
        assert GapStart(rs, from, i) == GapStart(tail, r.end, i - 1);
        assert GapEnd(rs, |text|, i) == GapEnd(tail, |text|, i - 1);
      }
    }
  }

  /** A non-empty cover starts with a chosen match that lies inside the text
      and has nothing before it, and the rest covers the text after it. */
  lemma CoverUncons(text: string, terms: seq<string>, from: nat, rs: seq<Range>)
    requires NonEmptyTerms(terms)
    requires LeftmostCover(text, terms, from, rs) && rs != []
    ensures Chosen(text, terms, rs[0]) && from <= rs[0].start && Gap(text, terms, from, rs[0].start)
    ensures rs[0].start < rs[0].end <= |text|
    ensures LeftmostCover(text, terms, rs[0].end, rs[1..])
  {
    var r, tail := rs[0], rs[1..];
    assert Chosen(text, terms, r);
    assert GapStart(rs, from, 0) == from && GapEnd(rs, |text|, 0) == r.start;
    var j := FirstAlt(text, r.start, terms).value;
    assert MatchesAt(text, r.start, terms[j]) && |terms[j]| > 0;
    forall i | 0 <= i <= |tail|
      ensures GapStart(tail, r.end, i) == GapStart(rs, from, i + 1)
      ensures GapEnd(tail, |text|, i) == GapEnd(rs, |text|, i + 1)
    {
    }
    forall i | 0 <= i < |tail| ensures Chosen(text, terms, tail[i]) {
      assert tail[i] == rs[i + 1];
    }
  }

  /** The scan produces the leftmost, non-overlapping matches. */
  lemma {:induction false} ScanIsLeftmost(text: string, terms: seq<string>, from: nat)
    requires NonEmptyTerms(terms)
    requires from <= |text|
    ensures LeftmostCover(text, terms, from, Scan(text, terms, from))
    decreases |text| - from
  {
    ExecLeftmost(text, terms, from);
    match Exec(text, terms, from)
    case None =>
      var rs := Scan(text, terms, from);
      assert rs == [];
      assert GapStart(rs, from, 0) == from && GapEnd(rs, |text|, 0) == |text|;
    case Some(m) =>
      ExecChosen(text, terms, from);
      var e := m.index + |m.value|;
      ScanIsLeftmost(text, terms, e);
      ScanUnfold(text, terms, from);
      CoverCons(text, terms, from, Range(m.index, e), Scan(text, terms, e));
  }

  /** The first chosen match at or after `from` is the one `exec` finds. */
  lemma ExecFindsFirst(text: string, terms: seq<string>, from: nat, r: Range)
    requires NonEmptyTerms(terms)
    requires from <= r.start && Chosen(text, terms, r) && Gap(text, terms, from, r.start)
    ensures Exec(text, terms, from).Some?
    ensures var m := Exec(text, terms, from).value;
      m.index == r.start && m.index + |m.value| == r.end
  {
    var j := FirstAlt(text, r.start, terms).value;
    assert r.start < |text| by {
      assert MatchesAt(text, r.start, terms[j]) && |terms[j]| > 0;
    }
    ExecLeftmost(text, terms, from);
    ExecChosen(text, terms, from);
    var x := Exec(text, terms, from);
    if x.None? {
      assert false;
    }
    var m := x.value;
    if m.index < r.start {
      assert false;
    } else if m.index > r.start {
      assert false;
    }
  }

  /** The leftmost, non-overlapping matches are unique: any list of ranges that
      satisfies `LeftmostCover` is the one the scan produces. */
  lemma {:induction false} LeftmostUnique(text: string, terms: seq<string>, from: nat, rs: seq<Range>)
    requires NonEmptyTerms(terms)
    requires from <= |text|
    requires LeftmostCover(text, terms, from, rs)
    ensures rs == Scan(text, terms, from)
    decreases |rs|
  {
    if rs == [] {
      assert GapStart(rs, from, 0) == from && GapEnd(rs, |text|, 0) == |text|;
      ExecChosen(text, terms, from);
      if Exec(text, terms, from).Some? {
        assert false;
      }
    } else {
      CoverUncons(text, terms, from, rs);
      ExecFindsFirst(text, terms, from, rs[0]);
      LeftmostUnique(text, terms, rs[0].end, rs[1..]);
      ScanUnfold(text, terms, from);
      assert rs == [rs[0]] + rs[1..];
    }
  }

  /** In a cover, every range lies inside the text after `from` and is
      non-empty, and the ranges come in increasing order without overlapping. */
  lemma {:induction false} CoverOrdered(text: string, terms: seq<string>, from: nat, rs: seq<Range>)
    requires NonEmptyTerms(terms)
    requires LeftmostCover(text, terms, from, rs)
    ensures forall i :: 0 <= i < |rs| ==> from <= rs[i].start < rs[i].end <= |text|
    ensures forall i, j :: 0 <= i < j < |rs| ==> rs[i].end <= rs[j].start
    decreases |rs|
  {
    if rs != [] {
      CoverUncons(text, terms, from, rs);
      var tail := rs[1..];
      CoverOrdered(text, terms, rs[0].end, tail);
      forall i | 0 <= i < |rs| ensures from <= rs[i].start < rs[i].end <= |text| {
        if i > 0 { assert rs[i] == tail[i - 1]; }
      }
      forall i, j | 0 <= i < j < |rs| ensures rs[i].end <= rs[j].start {
        assert rs[j] == tail[j - 1];
        if i > 0 { assert rs[i] == tail[i - 1]; }
      }
    }
  }

  // ---------------------------------------------------------------------------
  // Properties of the ranges the highlighter hands to the editor.

  /** Every range lies inside the text and is non-empty, and the ranges come
      in strictly increasing order without overlapping: each starts at or
      after the end of the one before. */
  lemma MatchesOrdered(text: string, terms: seq<string>)
    requires NonEmptyTerms(terms)
    ensures forall i :: 0 <= i < |Matches(text, terms)| ==>
      Matches(text, terms)[i].start < Matches(text, terms)[i].end <= |text|
    ensures forall i, j :: 0 <= i < j < |Matches(text, terms)| ==>
      Matches(text, terms)[i].end <= Matches(text, terms)[j].start
  {
    ScanIsLeftmost(text, terms, 0);
    CoverOrdered(text, terms, 0, Matches(text, terms));
  }

  /** Each range covers a slice of the text equal, up to ASCII case, to a
      search term, and that term is the first in the list to match there. */
  lemma MatchesAreTerms(text: string, terms: seq<string>, i: nat)
    requires NonEmptyTerms(terms)
    ensures i < |Matches(text, terms)| ==>
      var r := Matches(text, terms)[i];
      r.start < r.end <= |text| &&
      exists j :: 0 <= j < |terms| && MatchesAt(text, r.start, terms[j])
                  && |terms[j]| == r.end - r.start
                  && forall k :: 0 <= k < j ==> !MatchesAt(text, r.start, terms[k])
  {
    if i < |Matches(text, terms)| {
      ScanIsLeftmost(text, terms, 0);
      var r := Matches(text, terms)[i];
      assert Chosen(text, terms, r);
      var j := FirstAlt(text, r.start, terms).value;
      assert MatchesAt(text, r.start, terms[j]);
      forall k | 0 <= k < j ensures !MatchesAt(text, r.start, terms[k]) {
        FirstAltIsFirst(text, r.start, terms, k);
      }
    }
  }

  /** Complete: every occurrence of a term starts inside some range, because
      no term occurs in the gaps between ranges, before the first range or
      after the last one. */
  lemma MatchesComplete(text: string, terms: seq<string>, p: nat, k: nat)
    requires NonEmptyTerms(terms)
    requires k < |terms| && MatchesAt(text, p, terms[k])
    ensures exists i :: (0 <= i < |Matches(text, terms)|
                         && Matches(text, terms)[i].start <= p < Matches(text, terms)[i].end)
  {
    var rs := Matches(text, terms);
    FirstAltIsFirst(text, p, terms, k);
    assert p < |text|;
    ScanIsLeftmost(text, terms, 0);
    var i := 0;
    while i < |rs| && rs[i].end <= p
      invariant 0 <= i <= |rs|
      invariant GapStart(rs, 0, i) <= p
    {
      i := i + 1;
    }
    if i == |rs| || p < rs[i].start {
      assert false;
    }
  }

  // ---------------------------------------------------------------------------
  // The loop itself.

  /** The `while (match = regExpFromArray.exec(documentText))` loop of
      `updateDecorations`: `lastIndex` starts at 0, and each match pushes its
      range and moves `lastIndex` to the end of the match. */
  method ScanMatches(text: string, terms: seq<string>) returns (matched: seq<Range>)
    requires NonEmptyTerms(terms)
    ensures matched == Matches(text, terms)
  {
    var lastIndex: nat := 0;
    matched := [];
    while true
      invariant lastIndex <= |text|
      invariant ScannedUpTo(text, terms, lastIndex, matched)
      decreases |text| - lastIndex
    {
      var m := Exec(text, terms, lastIndex);
      if m.None? {
        ScanDone(text, terms, lastIndex, matched);
        break;
      }
      ScanStep(text, terms, lastIndex, matched);
      var match0 := m.value;
      matched := matched + [Range(match0.index, match0.index + |match0.value|)];
      lastIndex := match0.index + |match0.value|;
    }
  }

  /** Alternation priority on a concrete text: with "NT" listed before
      "NTK", only "NT" is highlighted in "ntk", whatever the case. */
  lemma FirstTermWins()
    ensures Matches("ntk NTK", ["NT", "NTK"]) == [Range(0, 2), Range(4, 6)]
  {
    var text, terms := "ntk NTK", ["NT", "NTK"];
    assert MatchesAt(text, 0, terms[0]);
    assert FirstAlt(text, 0, terms) == Some(0);
    assert text[0..2] == "nt";
    assert Exec(text, terms, 0) == Some(ExecMatch(0, "nt"));
    assert !MatchesAt(text, 2, terms[0]) && !MatchesAt(text, 2, terms[1]);
    assert FirstAlt(text, 2, terms[1..]) == None;
    assert !MatchesAt(text, 3, terms[0]) && !MatchesAt(text, 3, terms[1]);
    assert FirstAlt(text, 3, terms[1..]) == None;
    assert MatchesAt(text, 4, terms[0]);
    assert FirstAlt(text, 4, terms) == Some(0);
    assert text[4..6] == "NT";
    assert Exec(text, terms, 4) == Some(ExecMatch(4, "NT"));
    assert Exec(text, terms, 2) == Some(ExecMatch(4, "NT"));
    assert !MatchesAt(text, 6, terms[0]) && !MatchesAt(text, 6, terms[1]);
    assert FirstAlt(text, 6, terms[1..]) == None;
    assert Exec(text, terms, 7) == None;
    assert Exec(text, terms, 6) == None;
  }
}
