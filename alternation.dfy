/**
 * The alternation that `concatOrRegex` in src/find.ts builds from a list of
 * identifiers, `w0(\:|\.|\,|\s|\[|\{|\;|\(){1}|w1(…){1}|…` with the `g` flag,
 * the global scan `matchAll` runs with it, and the offset ranges
 * `rangesMatching` emits for the matches.
 */
module Alternation {
  import opened Chars
  import opened Options

  /** One match: the identifier at `index`; the match text is `word` and the boundary after it. */
  datatype Match = Match(index: nat, word: string)

  /** An emitted range: `start` is the identifier's first offset, `end` the offset of its boundary character. */
  datatype OffsetRange = OffsetRange(start: nat, end: nat)

  /** What `rangesMatching` may be given: a non-empty list of letter-and-digit words. */
  predicate ValidIdentifiers(ids: seq<string>) {
    |ids| > 0 && forall w :: w in ids ==> IsAlnumWord(w)
  }

  /** The alternative `w(\:|\.|\,|\s|\[|\{|\;|\(){1}` matches at `q`. */
  predicate MatchesWithBoundary(s: string, q: nat, w: string) {
    q + |w| < |s| && s[q..q + |w|] == w && IsBoundary(s[q + |w|])
  }

  /** The alternation tried at `q`, alternatives in list order: the identifier of the first that matches. */
  function AlternationAt(ids: seq<string>, s: string, q: nat): (m: Option<string>)
    ensures m.Some? ==> MatchesWithBoundary(s, q, m.value)
    decreases |ids|
  {
    if |ids| == 0 then None
    else if MatchesWithBoundary(s, q, ids[0]) then Some(ids[0])
    else AlternationAt(ids[1..], s, q)
  }

  /** What the alternation matches is one of the identifiers. */
  lemma {:induction false} AlternationAtIn(ids: seq<string>, s: string, q: nat)
    requires AlternationAt(ids, s, q).Some?
    ensures AlternationAt(ids, s, q).value in ids
    decreases |ids|
  {
    if !MatchesWithBoundary(s, q, ids[0]) {
      AlternationAtIn(ids[1..], s, q);
    }
  }

  /** When the alternation fails at `q`, no alternative matches there. */
  lemma {:induction false} AlternationAtNone(ids: seq<string>, s: string, q: nat, w: string)
    requires AlternationAt(ids, s, q).None? && w in ids
    ensures !MatchesWithBoundary(s, q, w)
    decreases |ids|
  {
    if w != ids[0] {
      AlternationAtNone(ids[1..], s, q, w);
    }
  }

  /**
   * At most one alternative can match at an offset: the boundary character is
   * never a letter or digit, so no identifier that matches is a prefix of another.
   */
  lemma AlternativesAgree(s: string, q: nat, w1: string, w2: string)
    requires IsAlnumWord(w1) && IsAlnumWord(w2)
    requires MatchesWithBoundary(s, q, w1) && MatchesWithBoundary(s, q, w2)
    ensures w1 == w2
  {
  }

  /** So the order in which the identifiers are joined does not matter. */
  lemma AlternationIgnoresOrder(ids1: seq<string>, ids2: seq<string>, s: string, q: nat)
    requires ValidIdentifiers(ids1) && forall w :: w in ids1 <==> w in ids2
    ensures AlternationAt(ids1, s, q) == AlternationAt(ids2, s, q)
  {
    var m1, m2 := AlternationAt(ids1, s, q), AlternationAt(ids2, s, q);
    if m1.Some? {
      AlternationAtIn(ids1, s, q);
      if m2.None? {
        AlternationAtNone(ids2, s, q, m1.value);
      }
      AlternationAtIn(ids2, s, q);
      AlternativesAgree(s, q, m1.value, m2.value);
    } else if m2.Some? {
      AlternationAtIn(ids2, s, q);
      AlternationAtNone(ids1, s, q, m2.value);
    }
  }

  /** No alternative matches in `from..to`. */
  predicate NoMatchBetween(ids: seq<string>, s: string, from: nat, to: nat)
    requires from <= to
    decreases (to as int) - from
  {
    from == to || (AlternationAt(ids, s, from).None? && NoMatchBetween(ids, s, from + 1, to))
  }

  lemma {:induction false} NoMatchBetweenAt(ids: seq<string>, s: string, from: nat, to: nat, q: nat)
    requires from <= q < to && NoMatchBetween(ids, s, from, to)
    ensures AlternationAt(ids, s, q).None?
    decreases q - from
  {
    if from < q {
      NoMatchBetweenAt(ids, s, from + 1, to, q);
    }
  }

  /** Where the leftmost match at or after `from` starts. */
  function NextMatch(ids: seq<string>, s: string, from: nat): (m: Option<nat>)
    requires from <= |s|
    ensures m.Some? ==> from <= m.value < |s| && AlternationAt(ids, s, m.value).Some?
    ensures m.Some? ==> NoMatchBetween(ids, s, from, m.value)
    ensures m.None? ==> NoMatchBetween(ids, s, from, |s| + 1)
    decreases |s| - from
  {
    if AlternationAt(ids, s, from).Some? then Some(from)
    else if from == |s| then None
    else NextMatch(ids, s, from + 1)
  }

  /**
   * What `matchAll` yields: the leftmost match, then the scan resumes after its
   * boundary character, which each match consumes.
   */
  function ScanMatches(ids: seq<string>, s: string, from: nat): (ms: seq<Match>)
    requires from <= |s|
    ensures forall m :: m in ms ==> from <= m.index
    decreases |s| - from
  {
    match NextMatch(ids, s, from)
    case None => []
    case Some(q) =>
      var w := AlternationAt(ids, s, q).value;
      [Match(q, w)] + ScanMatches(ids, s, q + |w| + 1)
  }

  /** Every match of the scan is where the alternation matches, with the identifier it matches. */
  lemma {:induction false} ScanMatchesSound(ids: seq<string>, s: string, from: nat, m: Match)
    requires from <= |s| && m in ScanMatches(ids, s, from)
    ensures AlternationAt(ids, s, m.index) == Some(m.word)
    decreases |s| - from
  {
    var q := NextMatch(ids, s, from).value;
    var w := AlternationAt(ids, s, q).value;
    ScanMatchesStep(ids, s, from, q, w);
    if m != Match(q, w) {
      ScanMatchesSound(ids, s, q + |w| + 1, m);
    }
  }

  /** Offset `q` lies in the text of match `m`: the identifier or the boundary after it. */
  predicate Covers(m: Match, q: nat) {
    m.index <= q <= m.index + |m.word|
  }

  /** Some match of `ms` covers offset `q`. */
  predicate Covered(ms: seq<Match>, q: nat) {
    exists m :: m in ms && Covers(m, q)
  }

  /** Putting a match before others keeps what they cover and adds what it covers. */
  lemma CoveredPrepend(m: Match, rest: seq<Match>, q: nat)
    requires Covers(m, q) || Covered(rest, q)
    ensures Covered([m] + rest, q)
  {
    if Covers(m, q) {
      assert m in [m] + rest;
    } else {
      var r :| r in rest && Covers(r, q);
      assert r in [m] + rest;
    }
  }

  /** A match covers its identifier and the boundary character after it. */
  lemma MatchCovers(p: nat, v: string, q: nat)
    requires p <= q <= p + |v|
    ensures Covers(Match(p, v), q)
  {
  }

  /** The scan is complete and leftmost: every offset where the alternation matches starts a match or lies inside one. */
  lemma {:induction false} ScanCoversEveryMatch(ids: seq<string>, s: string, from: nat, q: nat)
    requires from <= |s| && from <= q && AlternationAt(ids, s, q).Some?
    ensures Covered(ScanMatches(ids, s, from), q)
    decreases |s| - from
  {
    var next := NextMatch(ids, s, from);
    if next.None? {
      NoMatchBetweenAt(ids, s, from, |s| + 1, q);
      assert false;
    }
    var p := next.value;
    if q < p {
      NoMatchBetweenAt(ids, s, from, p, q);
      assert false;
    }
    var v := AlternationAt(ids, s, p).value;
    ScanMatchesStep(ids, s, from, p, v);
    var rest := ScanMatches(ids, s, p + |v| + 1);
    if q > p + |v| {
      ScanCoversEveryMatch(ids, s, p + |v| + 1, q);
      assert Covered(rest, q);
    } else {
      MatchCovers(p, v, q);
    }
    CoveredPrepend(Match(p, v), rest, q);
  }

  /** The scan does not depend on the order of the identifiers. */
  lemma {:induction false} ScanIgnoresOrder(ids1: seq<string>, ids2: seq<string>, s: string, from: nat)
    requires from <= |s| && ValidIdentifiers(ids1) && forall w :: w in ids1 <==> w in ids2
    ensures ScanMatches(ids1, s, from) == ScanMatches(ids2, s, from)
    decreases |s| - from
  {
    NextMatchIgnoresOrder(ids1, ids2, s, from);
    match NextMatch(ids1, s, from)
    case None =>
    case Some(q) =>
      AlternationIgnoresOrder(ids1, ids2, s, q);
      var w := AlternationAt(ids1, s, q).value;
      ScanIgnoresOrder(ids1, ids2, s, q + |w| + 1);
      ScanMatchesStep(ids1, s, from, q, w);
      ScanMatchesStep(ids2, s, from, q, w);
  }

  /** One step of the scan: the match at the leftmost offset, then the rest after its boundary. */
  lemma ScanMatchesStep(ids: seq<string>, s: string, from: nat, q: nat, w: string)
    requires from <= |s| && NextMatch(ids, s, from) == Some(q) && AlternationAt(ids, s, q) == Some(w)
    ensures q + |w| + 1 <= |s|
    ensures ScanMatches(ids, s, from) == [Match(q, w)] + ScanMatches(ids, s, q + |w| + 1)
  {
    assert MatchesWithBoundary(s, q, w);
  }

  lemma {:induction false} NextMatchIgnoresOrder(ids1: seq<string>, ids2: seq<string>, s: string, from: nat)
    requires from <= |s| && ValidIdentifiers(ids1) && forall w :: w in ids1 <==> w in ids2
    ensures NextMatch(ids1, s, from) == NextMatch(ids2, s, from)
    decreases |s| - from
  {
    AlternationIgnoresOrder(ids1, ids2, s, from);
    if from < |s| {
      NextMatchIgnoresOrder(ids1, ids2, s, from + 1);
    }
  }

  /** The range `rangesMatching` pushes for a match: from `match.index` to `match.index + match[0].length - 1`. */
  function RangeOf(m: Match): (r: OffsetRange)
    ensures r.start == m.index && r.end - r.start == |m.word|
  {
    OffsetRange(m.index, m.index + (|m.word| + 1 - 1))
  }

  /** The ranges emitted for a sequence of matches, in order; a match at offset 0 is skipped. */
  function EmittedRanges(ms: seq<Match>): (rs: seq<OffsetRange>)
    ensures |rs| <= |ms|
    ensures forall i :: 0 <= i < |rs| ==> 0 < rs[i].start
  {
    if |ms| == 0 then []
    else
      var last := ms[|ms| - 1];
      EmittedRanges(ms[..|ms| - 1]) + (if last.index == 0 then [] else [RangeOf(last)])
  }

  /** One more match adds its range, unless it is at offset 0. */
  lemma EmittedRangesStep(ms: seq<Match>, m: Match)
    ensures EmittedRanges(ms + [m]) == EmittedRanges(ms) + (if m.index == 0 then [] else [RangeOf(m)])
  {
    assert (ms + [m])[..|ms|] == ms;
  }

  /** The emitted ranges are exactly those of the matches away from offset 0. */
  lemma {:induction false} EmittedRangesAre(ms: seq<Match>, r: OffsetRange)
    ensures r in EmittedRanges(ms) <==> exists m :: m in ms && m.index != 0 && r == RangeOf(m)
  {
    if |ms| > 0 {
      var init := ms[..|ms| - 1];
      var last := ms[|ms| - 1];
      assert ms == init + [last];
      EmittedRangesAre(init, r);
      if r in EmittedRanges(ms) && r !in EmittedRanges(init) {
        assert r == RangeOf(last);
      }
    }
  }

  /** The matches of a scan, in order, each ending before the next begins. */
  predicate MatchesInOrder(ms: seq<Match>) {
    forall i, j :: 0 <= i < j < |ms| ==> ms[i].index + |ms[i].word| < ms[j].index
  }

  /** A match put before matches in order that all start after it keeps them in order. */
  lemma PrependInOrder(m: Match, rest: seq<Match>)
    requires MatchesInOrder(rest) && forall r :: r in rest ==> m.index + |m.word| < r.index
    ensures MatchesInOrder([m] + rest)
  {
    var ms := [m] + rest;
    forall i, j | 0 <= i < j < |ms| ensures ms[i].index + |ms[i].word| < ms[j].index {
      assert ms[j] == rest[j - 1] && rest[j - 1] in rest;
      if i > 0 {
        assert ms[i] == rest[i - 1];
      }
    }
  }

  /** Matches come in order, each after the boundary character of the one before. */
  lemma {:induction false} ScanInOrder(ids: seq<string>, s: string, from: nat)
    requires from <= |s|
    ensures MatchesInOrder(ScanMatches(ids, s, from))
    decreases |s| - from
  {
    match NextMatch(ids, s, from)
    case None =>
    case Some(q) =>
      var w := AlternationAt(ids, s, q).value;
      ScanMatchesStep(ids, s, from, q, w);
      ScanInOrder(ids, s, q + |w| + 1);
      PrependInOrder(Match(q, w), ScanMatches(ids, s, q + |w| + 1));
  }

  /** Ranges in order, each ending before the next starts. */
  predicate RangesInOrder(rs: seq<OffsetRange>) {
    forall i, j :: 0 <= i < j < |rs| ==> rs[i].end < rs[j].start
  }

  /** A range after the end of every range in order keeps them in order. */
  lemma AppendInOrder(rs: seq<OffsetRange>, r: OffsetRange)
    requires RangesInOrder(rs) && forall x :: x in rs ==> x.end < r.start
    ensures RangesInOrder(rs + [r])
  {
    var out := rs + [r];
    forall i, j | 0 <= i < j < |out| ensures out[i].end < out[j].start {
      assert out[i] == rs[i] && rs[i] in rs;
    }
  }

  /** Ranges of matches in order are in order too. */
  lemma {:induction false} EmittedRangesInOrder(ms: seq<Match>)
    requires MatchesInOrder(ms)
    ensures RangesInOrder(EmittedRanges(ms))
  {
    if |ms| > 0 {
      var init := ms[..|ms| - 1];
      var last := ms[|ms| - 1];
      assert MatchesInOrder(init);
      EmittedRangesInOrder(init);
      if last.index != 0 {
        var ri := EmittedRanges(init);
        forall x | x in ri ensures x.end < RangeOf(last).start {
          EmittedRangesAre(init, x);
          var m :| m in init && m.index != 0 && x == RangeOf(m);
          var k :| 0 <= k < |init| && init[k] == m;
          assert ms[k] == m;
        }
        AppendInOrder(ri, RangeOf(last));
      }
    }
  }

  /**
   * Each range `rangesMatching` emits spans one of the identifiers exactly: it
   * starts after offset 0, `text[start..end]` is that identifier and `end` is
   * the offset of the boundary character that follows it.
   */
  lemma RangesSound(ids: seq<string>, s: string, r: OffsetRange)
    requires ValidIdentifiers(ids) && r in EmittedRanges(ScanMatches(ids, s, 0))
    ensures 0 < r.start < r.end < |s|
    ensures s[r.start..r.end] in ids && IsBoundary(s[r.end])
  {
    EmittedRangesAre(ScanMatches(ids, s, 0), r);
    var m :| m in ScanMatches(ids, s, 0) && m.index != 0 && r == RangeOf(m);
    ScanMatchesSound(ids, s, 0, m);
    AlternationAtIn(ids, s, m.index);
    MatchSpan(ids, s, m);
  }

  /** The range of a match where the alternation matches spans its identifier. */
  lemma MatchSpan(ids: seq<string>, s: string, m: Match)
    requires ValidIdentifiers(ids) && m.word in ids && MatchesWithBoundary(s, m.index, m.word)
    ensures m.index < RangeOf(m).end < |s|
    ensures s[m.index..RangeOf(m).end] == m.word && IsBoundary(s[RangeOf(m).end])
  {
    assert IsAlnumWord(m.word);
  }

  /** The emitted ranges are disjoint and in text order. */
  lemma RangesOrdered(ids: seq<string>, s: string)
    ensures var rs := EmittedRanges(ScanMatches(ids, s, 0));
      forall i, j :: 0 <= i < j < |rs| ==> rs[i].end < rs[j].start
  {
    ScanInOrder(ids, s, 0);
    EmittedRangesInOrder(ScanMatches(ids, s, 0));
  }

  /**
   * Every offset where an identifier followed by a boundary occurs lies in an
   * emitted range, except inside a match at offset 0, which is dropped.
   */
  lemma RangesComplete(ids: seq<string>, s: string, q: nat)
    requires AlternationAt(ids, s, q).Some?
    ensures (exists r :: r in EmittedRanges(ScanMatches(ids, s, 0)) && r.start <= q <= r.end)
      || (AlternationAt(ids, s, 0).Some? && q <= |AlternationAt(ids, s, 0).value|)
  {
    var ms := ScanMatches(ids, s, 0);
    ScanCoversEveryMatch(ids, s, 0, q);
    var m :| m in ms && Covers(m, q);
    if m.index != 0 {
      EmittedRangesAre(ms, RangeOf(m));
    } else {
      ScanMatchesSound(ids, s, 0, m);
    }
  }

  /** The text `state.x` starts with an identifier and a boundary, yet no range is emitted for it. */
  lemma OffsetZeroDropped()
    ensures MatchesWithBoundary("state.x", 0, "state")
    ensures ScanMatches(["state"], "state.x", 0) == [Match(0, "state")]
    ensures EmittedRanges(ScanMatches(["state"], "state.x", 0)) == []
  {
    var s, ids := "state.x", ["state"];
    assert MatchesWithBoundary(s, 0, "state");
    assert AlternationAt(ids, s, 0) == Some("state");
    assert NextMatch(ids, s, 0) == Some(0);
    assert NextMatch(ids, s, 6) == None by {
      assert !MatchesWithBoundary(s, 6, "state");
      assert !MatchesWithBoundary(s, 7, "state");
    }
    ScanMatchesStep(ids, s, 0, 0, "state");
  }

  /** The ranges of all matches, the one at offset 0 included. */
  function AllRanges(ms: seq<Match>): (rs: seq<OffsetRange>)
    ensures |rs| == |ms|
    ensures forall i :: 0 <= i < |ms| ==> rs[i] == RangeOf(ms[i])
  {
    if |ms| == 0 then [] else AllRanges(ms[..|ms| - 1]) + [RangeOf(ms[|ms| - 1])]
  }

  /** Without the offset-0 exception, every occurrence lies in a range. */
  lemma AllRangesComplete(ids: seq<string>, s: string, q: nat)
    requires AlternationAt(ids, s, q).Some?
    ensures exists r :: r in AllRanges(ScanMatches(ids, s, 0)) && r.start <= q <= r.end
  {
    var ms := ScanMatches(ids, s, 0);
    ScanCoversEveryMatch(ids, s, 0, q);
    var m :| m in ms && Covers(m, q);
    var k :| 0 <= k < |ms| && ms[k] == m;
    assert AllRanges(ms)[k] == RangeOf(m);
  }

  /** The ranges of all matches span identifiers exactly, as the emitted ones do. */
  lemma AllRangesSound(ids: seq<string>, s: string, r: OffsetRange)
    requires ValidIdentifiers(ids) && r in AllRanges(ScanMatches(ids, s, 0))
    ensures r.start < r.end < |s|
    ensures s[r.start..r.end] in ids && IsBoundary(s[r.end])
  {
    var ms := ScanMatches(ids, s, 0);
    var k :| 0 <= k < |ms| && AllRanges(ms)[k] == r;
    assert ms[k] in ms;
    ScanMatchesSound(ids, s, 0, ms[k]);
    AlternationAtIn(ids, s, ms[k].index);
    MatchSpan(ids, s, ms[k]);
  }
}
