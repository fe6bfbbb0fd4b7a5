/**
 * The destructuring-site regex of src/find.ts,
 * `((let)|(const)|(var))\s*\{([\w\s,])*\}\s*=\s*(<manager>)` with the `g` flag,
 * the brace re-match `/\{.*\}/g`, and the global scan of the first over a text.
 */
module Destructuring {
  import opened Chars
  import opened Options

  /**
   * One match of the site regex: the keyword at `start..keywordEnd`, the braces
   * at `open` and `close`, the `=` at `equals`, the manager name at `nameStart..end`.
   */
  datatype Site = Site(start: nat, keywordEnd: nat, open: nat, close: nat, equals: nat, nameStart: nat, end: nat)

  /** Every character of `s[i..j]` may stand in a brace list. */
  predicate BraceList(s: string, i: nat, j: nat)
    requires i <= j <= |s|
  {
    forall k :: i <= k < j ==> InBraceList(s[k])
  }

  /** `(let)|(const)|(var)` at `p`: the end of the keyword. */
  function KeywordEnd(s: string, p: nat): (k: Option<nat>)
    ensures k.Some? ==> p < k.value <= |s| && (s[p] == 'l' || s[p] == 'c' || s[p] == 'v')
    ensures k.Some? ==> forall j :: p < j < k.value ==> IsLetter(s[j]) && s[j] != 'l' && s[j] != 'c' && s[j] != 'v'
  {
    if p + 3 <= |s| && s[p] == 'l' && s[p + 1] == 'e' && s[p + 2] == 't' then Some(p + 3)
    else if p + 5 <= |s| && s[p] == 'c' && s[p + 1] == 'o' && s[p + 2] == 'n' && s[p + 3] == 's' && s[p + 4] == 't' then Some(p + 5)
    else if p + 3 <= |s| && s[p] == 'v' && s[p + 1] == 'a' && s[p + 2] == 'r' then Some(p + 3)
    else None
  }

  /**
   * `st` is a way for the site regex to match `s` from `st.start` to `st.end`:
   * each part of the pattern matched by its own stretch of the text.
   */
  ghost predicate IsSite(s: string, name: string, st: Site) {
    && st.start < st.keywordEnd <= st.open < st.close < st.equals < st.nameStart <= st.end <= |s|
    && KeywordEnd(s, st.start) == Some(st.keywordEnd)
    && AllSpace(s, st.keywordEnd, st.open) && s[st.open] == '{'
    && BraceList(s, st.open + 1, st.close) && s[st.close] == '}'
    && AllSpace(s, st.close + 1, st.equals) && s[st.equals] == '='
    && AllSpace(s, st.equals + 1, st.nameStart)
    && OccursAt(s, st.nameStart, name) && st.end == st.nameStart + |name|
  }

  /** The greedy `([\w\s,])*` from `i`: the end of the run of brace-list characters. */
  function BraceListEnd(s: string, i: nat): (j: nat)
    requires i <= |s|
    ensures i <= j <= |s| && BraceList(s, i, j)
    ensures j == |s| || !InBraceList(s[j])
    decreases |s| - i
  {
    if i < |s| && InBraceList(s[i]) then BraceListEnd(s, i + 1) else i
  }

  /** The match of the site regex that starts at `p`, if there is one. */
  function SiteAt(s: string, name: string, p: nat): (m: Option<Site>)
    requires p <= |s|
    ensures m.Some? ==> m.value.start == p < m.value.end <= |s|
  {
    match KeywordEnd(s, p)
    case None => None
    case Some(k) => BracesFrom(s, name, p, k)
  }

  /** The rest of the match after the keyword ending at `k`: white space and the brace list. */
  function BracesFrom(s: string, name: string, p: nat, k: nat): (m: Option<Site>)
    requires p < k <= |s|
    ensures m.Some? ==> m.value.start == p < m.value.end <= |s|
  {
    var o := SpaceRun(s, k);
    if o < |s| && s[o] == '{' then
      var c := BraceListEnd(s, o + 1);
      if c < |s| && s[c] == '}' then AssignmentFrom(s, name, p, k, o, c) else None
    else None
  }

  /** The rest of the match after the closing brace at `c`: `=` and the manager's name, with white space around `=`. */
  function AssignmentFrom(s: string, name: string, p: nat, k: nat, o: nat, c: nat): (m: Option<Site>)
    requires p < c < |s|
    ensures m.Some? ==> m.value.start == p < m.value.end <= |s|
  {
    var e := SpaceRun(s, c + 1);
    if e < |s| && s[e] == '=' then
      var n := SpaceRun(s, e + 1);
      if OccursAt(s, n, name) then Some(Site(p, k, o, c, e, n, n + |name|)) else None
    else None
  }

  /** A match found by `SiteAt` is a way for the regex to match. */
  lemma SiteAtIsSite(s: string, name: string, p: nat)
    requires p <= |s| && SiteAt(s, name, p).Some?
    ensures IsSite(s, name, SiteAt(s, name, p).value)
  {
  }

  /** A maximal run of brace-list characters is the one `BraceListEnd` finds. */
  lemma BraceListEndIs(s: string, i: nat, j: nat)
    requires i <= j < |s| && BraceList(s, i, j) && !InBraceList(s[j])
    ensures BraceListEnd(s, i) == j
  {
  }

  /**
   * No backtracking is ever needed: each starred part is followed by a character
   * outside its class, so the regex matches at most one way, and `SiteAt` finds it.
   */
  lemma SiteAtFindsEveryShape(s: string, name: string, st: Site)
    requires IsSite(s, name, st) && IsIdentifier(name)
    ensures SiteAt(s, name, st.start) == Some(st)
  {
    AssignmentFromFinds(s, name, st);
    BracesFromFinds(s, name, st);
  }

  /** The part after the keyword is found the one way it can match. */
  lemma BracesFromFinds(s: string, name: string, st: Site)
    requires st.start < st.keywordEnd <= st.open < st.close < |s|
    requires AllSpace(s, st.keywordEnd, st.open) && s[st.open] == '{'
    requires BraceList(s, st.open + 1, st.close) && s[st.close] == '}'
    requires AssignmentFrom(s, name, st.start, st.keywordEnd, st.open, st.close) == Some(st)
    ensures BracesFrom(s, name, st.start, st.keywordEnd) == Some(st)
  {
    SpaceRunIs(s, st.keywordEnd, st.open);
    BraceListEndIs(s, st.open + 1, st.close);
  }

  /** The part after the closing brace is found the one way it can match. */
  lemma AssignmentFromFinds(s: string, name: string, st: Site)
    requires st.start < st.close < st.equals < st.nameStart <= st.end <= |s| && IsIdentifier(name)
    requires AllSpace(s, st.close + 1, st.equals) && s[st.equals] == '='
    requires AllSpace(s, st.equals + 1, st.nameStart)
    requires OccursAt(s, st.nameStart, name) && st.end == st.nameStart + |name|
    ensures AssignmentFrom(s, name, st.start, st.keywordEnd, st.open, st.close) == Some(st)
  {
    SpaceRunIs(s, st.close + 1, st.equals);
    assert s[st.nameStart] == name[0] && IsLetter(name[0]);
    SpaceRunIs(s, st.equals + 1, st.nameStart);
  }

  /** A manager name after which no site can start inside a site: an identifier without 'l', 'c' or 'v'. */
  predicate IsManagerName(name: string) {
    IsIdentifier(name) && forall k :: 0 <= k < |name| ==> name[k] != 'l' && name[k] != 'c' && name[k] != 'v'
  }

  /** A site begins with one of the letters that begin a keyword, and its keyword is letters. */
  lemma SiteStart(s: string, name: string, q: nat)
    requires q <= |s| && SiteAt(s, name, q).Some?
    ensures q < |s| && (s[q] == 'l' || s[q] == 'c' || s[q] == 'v')
    ensures var t := SiteAt(s, name, q).value;
      && KeywordEnd(s, q) == Some(t.keywordEnd)
      && AllSpace(s, t.keywordEnd, t.open) && t.open < |s| && s[t.open] == '{'
  {
  }

  /** No site starts inside a brace list: its keyword would need a `{` before the closing `}`. */
  lemma NoSiteInBraceList(s: string, name: string, lo: nat, hi: nat, q: nat)
    requires lo <= q < hi < |s| && BraceList(s, lo, hi) && s[hi] == '}'
    ensures SiteAt(s, name, q).None?
  {
    if SiteAt(s, name, q).Some? {
      SiteStart(s, name, q);
      assert false;
    }
  }

  /** Outside its brace list, a site holds no letter that begins a keyword. */
  lemma NoKeywordLetterInSite(s: string, name: string, st: Site, q: nat)
    requires IsSite(s, name, st) && IsManagerName(name) && st.start < q < st.end
    requires !(st.open < q < st.close)
    ensures s[q] != 'l' && s[q] != 'c' && s[q] != 'v'
  {
    if st.keywordEnd <= q < st.nameStart && q != st.open && q != st.close && q != st.equals {
      assert IsSpace(s[q]);
    } else if st.nameStart <= q {
      assert s[q] == name[q - st.nameStart];
    }
  }

  /** Sites never overlap: none starts strictly inside another. */
  lemma NoSiteInside(s: string, name: string, st: Site, q: nat)
    requires IsSite(s, name, st) && IsManagerName(name) && st.start < q < st.end
    ensures SiteAt(s, name, q).None?
  {
    if st.open < q < st.close {
      NoSiteInBraceList(s, name, st.open + 1, st.close, q);
    } else if SiteAt(s, name, q).Some? {
      NoKeywordLetterInSite(s, name, st, q);
      SiteStart(s, name, q);
      assert false;
    }
  }

  /** So no site starts strictly inside the match `SiteAt` finds at `p`. */
  lemma NoSiteInsideMatch(s: string, name: string, p: nat, q: nat)
    requires p <= |s| && SiteAt(s, name, p).Some? && IsManagerName(name)
    requires p < q < SiteAt(s, name, p).value.end
    ensures SiteAt(s, name, q).None?
  {
    SiteAtIsSite(s, name, p);
    NoSiteInside(s, name, SiteAt(s, name, p).value, q);
  }

  /** No site starts in `from..to`. */
  predicate NoSiteBetween(s: string, name: string, from: nat, to: nat)
    requires from <= to <= |s| + 1
    decreases (to as int) - from
  {
    from == to || (SiteAt(s, name, from).None? && NoSiteBetween(s, name, from + 1, to))
  }

  lemma {:induction false} NoSiteBetweenAt(s: string, name: string, from: nat, to: nat, q: nat)
    requires from <= q < to <= |s| + 1 && NoSiteBetween(s, name, from, to)
    ensures SiteAt(s, name, q).None?
    decreases q - from
  {
    if from < q {
      NoSiteBetweenAt(s, name, from + 1, to, q);
    }
  }

  /** Where the leftmost site at or after `from` starts. */
  function NextSite(s: string, name: string, from: nat): (m: Option<nat>)
    requires from <= |s|
    ensures m.Some? ==> from <= m.value <= |s| && SiteAt(s, name, m.value).Some?
    ensures m.Some? ==> NoSiteBetween(s, name, from, m.value)
    ensures m.None? ==> NoSiteBetween(s, name, from, |s| + 1)
    decreases |s| - from
  {
    if SiteAt(s, name, from).Some? then Some(from)
    else if from == |s| then None
    else NextSite(s, name, from + 1)
  }

  /** What `matchAll` yields for the site regex: leftmost matches, each scan resuming at the last match's end. */
  function ScanSites(s: string, name: string, from: nat): (sites: seq<Site>)
    requires from <= |s|
    ensures forall st :: st in sites ==> from <= st.start < st.end <= |s|
    decreases |s| - from
  {
    match NextSite(s, name, from)
    case None => []
    case Some(p) =>
      var st := SiteAt(s, name, p).value;
      [st] + ScanSites(s, name, st.end)
  }

  /** Every match of the scan is the site-regex match at its start. */
  lemma {:induction false} ScanSitesSound(s: string, name: string, from: nat, st: Site)
    requires from <= |s| && st in ScanSites(s, name, from)
    ensures SiteAt(s, name, st.start) == Some(st)
    decreases |s| - from
  {
    var first := SiteAt(s, name, NextSite(s, name, from).value).value;
    if st != first {
      ScanSitesSound(s, name, first.end, st);
    }
  }

  /** One step of the scan: the leftmost site, then the rest from its end. */
  lemma ScanSitesStep(s: string, name: string, from: nat, st: Site)
    requires from <= |s| && NextSite(s, name, from).Some? && SiteAt(s, name, NextSite(s, name, from).value) == Some(st)
    ensures st.end <= |s| && ScanSites(s, name, from) == [st] + ScanSites(s, name, st.end)
  {
  }

  /** A site is in the scan when it is its first match or in the rest. */
  lemma InPrepend(x: Site, first: Site, rest: seq<Site>)
    requires x == first || x in rest
    ensures x in [first] + rest
  {
  }

  /** The scan misses no site: every site at or after `from` is one of its matches. */
  lemma {:induction false} ScanFindsEverySite(s: string, name: string, from: nat, q: nat)
    requires from <= q <= |s| && SiteAt(s, name, q).Some? && IsManagerName(name)
    ensures SiteAt(s, name, q).value in ScanSites(s, name, from)
    decreases |s| - from, 1
  {
    var next := NextSite(s, name, from);
    if next.None? {
      NoSiteBetweenAt(s, name, from, |s| + 1, q);
      assert false;
    }
    if q < next.value {
      NoSiteBetweenAt(s, name, from, next.value, q);
      assert false;
    }
    ScanFindsFromNext(s, name, from, q);
  }

  /** The same, once the leftmost site at or after `from` is known to start no later than `q`. */
  lemma {:induction false} ScanFindsFromNext(s: string, name: string, from: nat, q: nat)
    requires from <= q <= |s| && SiteAt(s, name, q).Some? && IsManagerName(name)
    requires NextSite(s, name, from).Some? && NextSite(s, name, from).value <= q
    ensures SiteAt(s, name, q).value in ScanSites(s, name, from)
    decreases |s| - from, 0
  {
    var p := NextSite(s, name, from).value;
    var st := SiteAt(s, name, p).value;
    ScanSitesStep(s, name, from, st);
    var rest := ScanSites(s, name, st.end);
    if p == q {
      InPrepend(SiteAt(s, name, q).value, st, rest);
    } else {
      if q < st.end {
        NoSiteInsideMatch(s, name, p, q);
        assert false;
      }
      ScanFindsEverySite(s, name, st.end, q);
      InPrepend(SiteAt(s, name, q).value, st, rest);
    }
  }

  /** The first index at or after `i` that holds a line terminator, or `|t|`: where a greedy `.*` stops. */
  function LineEnd(t: string, i: nat): (e: nat)
    requires i <= |t|
    ensures i <= e <= |t| && NoLineTerminator(t, i, e)
    ensures e == |t| || IsLineTerminator(t[e])
    decreases |t| - i
  {
    if i == |t| || IsLineTerminator(t[i]) then i else LineEnd(t, i + 1)
  }

  /** The last `}` in `t[lo..hi]`. */
  function LastClose(t: string, lo: nat, hi: nat): (j: Option<nat>)
    requires lo <= hi <= |t|
    ensures j.Some? ==> lo <= j.value < hi && t[j.value] == '}'
    ensures j.Some? ==> forall k :: j.value < k < hi ==> t[k] != '}'
    ensures j.None? ==> forall k :: lo <= k < hi ==> t[k] != '}'
    decreases hi
  {
    if hi == lo then None
    else if t[hi - 1] == '}' then Some(hi - 1)
    else LastClose(t, lo, hi - 1)
  }

  /**
   * The first match of `/\{.*\}/` in `t` at or after `i`: the leftmost `{` that has
   * a `}` after it on its line, with the last such `}` (the greedy `.*`).
   */
  function BraceMatchFrom(t: string, i: nat): (m: Option<(nat, nat)>)
    requires i <= |t|
    ensures m.Some? ==> i <= m.value.0 < m.value.1 <= |t|
    ensures m.Some? ==> t[m.value.0] == '{' && t[m.value.1 - 1] == '}'
    ensures m.Some? ==> NoLineTerminator(t, m.value.0, m.value.1)
    decreases |t| - i
  {
    if i == |t| then None
    else if t[i] == '{' then
      match LastClose(t, i + 1, LineEnd(t, i + 1))
      case Some(j) => Some((i, j + 1))
      case None => BraceMatchFrom(t, i + 1)
    else BraceMatchFrom(t, i + 1)
  }

  /** `t.match(/\{.*\}/g)` and its element 0, as a pair of offsets into `t`. */
  function BraceMatch(t: string): (m: Option<(nat, nat)>)
    ensures m.Some? ==> m.value.0 < m.value.1 <= |t|
    ensures m.Some? ==> t[m.value.0] == '{' && t[m.value.1 - 1] == '}'
    ensures m.Some? ==> NoLineTerminator(t, m.value.0, m.value.1)
  {
    BraceMatchFrom(t, 0)
  }

  /** The `.*` is greedy: no `}` follows the matched one before the line ends. */
  lemma {:induction false} BraceMatchFromIsGreedy(t: string, i: nat)
    requires i <= |t| && BraceMatchFrom(t, i).Some?
    ensures var (o, c) := BraceMatchFrom(t, i).value;
      forall k :: c <= k < LineEnd(t, o + 1) ==> t[k] != '}'
    decreases |t| - i
  {
    if t[i] != '{' || LastClose(t, i + 1, LineEnd(t, i + 1)).None? {
      BraceMatchFromIsGreedy(t, i + 1);
    }
  }

  /** The re-match ends at the last `}` on the line of its `{`. */
  lemma BraceMatchIsGreedy(t: string)
    requires BraceMatch(t).Some?
    ensures var (o, c) := BraceMatch(t).value;
      forall k :: c <= k < LineEnd(t, o + 1) ==> t[k] != '}'
  {
    BraceMatchFromIsGreedy(t, 0);
  }

  lemma {:induction false} SkipNoBrace(t: string, i: nat, j: nat)
    requires i <= j <= |t|
    requires forall k :: i <= k < j ==> t[k] != '{'
    ensures BraceMatchFrom(t, i) == BraceMatchFrom(t, j)
    decreases j - i
  {
    if i < j {
      SkipNoBrace(t, i + 1, j);
    }
  }

  lemma {:induction false} LastCloseIs(t: string, lo: nat, hi: nat, j: nat)
    requires lo <= j < hi <= |t| && t[j] == '}'
    requires forall k :: j < k < hi ==> t[k] != '}'
    ensures LastClose(t, lo, hi) == Some(j)
    decreases hi
  {
    if j < hi - 1 {
      LastCloseIs(t, lo, hi - 1, j);
    }
  }

  /**
   * `\{.*\}` over a text whose only `{` is at `o`, followed by a brace list
   * closed at `c` and then by no brace: the brace list with its braces, unless
   * a line terminator in it stops `.*` short of the `}`.
   */
  lemma BraceMatchOfList(t: string, o: nat, c: nat)
    requires o < c < |t| && t[o] == '{' && t[c] == '}' && BraceList(t, o + 1, c)
    requires forall k :: 0 <= k < o ==> t[k] != '{'
    requires forall k :: c < k < |t| ==> t[k] != '{' && t[k] != '}'
    ensures BraceMatch(t) == if NoLineTerminator(t, o + 1, c) then Some((o, c + 1)) else None
  {
    SkipNoBrace(t, 0, o);
    var le := LineEnd(t, o + 1);
    if NoLineTerminator(t, o + 1, c) {
      assert c < le;
      LastCloseIs(t, o + 1, le, c);
    } else {
      assert le < c;
      assert forall k :: o < k < |t| ==> t[k] != '{' by {
        forall k | o < k < |t| ensures t[k] != '{' {
          if k < c {
            assert InBraceList(t[k]);
          }
        }
      }
      SkipNoBrace(t, o + 1, |t|);
    }
  }

  /** Where the braces of a site's own text are. */
  lemma BracesOfSiteText(s: string, name: string, st: Site)
    requires IsSite(s, name, st) && IsManagerName(name)
    ensures var t, o, c := s[st.start..st.end], st.open - st.start, st.close - st.start;
      && o < c < |t| && t[o] == '{' && t[c] == '}'
      && (forall k :: 0 <= k < o ==> t[k] != '{')
      && (forall k :: c < k < |t| ==> t[k] != '{' && t[k] != '}')
  {
    var t, d := s[st.start..st.end], st.start;
    forall k | 0 <= k < st.open - d ensures t[k] != '{' {
      if d + k >= st.keywordEnd {
        assert IsSpace(s[d + k]);
      }
    }
    forall k | st.close - d < k < |t| ensures t[k] != '{' && t[k] != '}' {
      if d + k >= st.nameStart {
        assert s[d + k] == name[d + k - st.nameStart];
      } else if d + k != st.equals {
        assert IsSpace(s[d + k]);
      }
    }
  }

  /** The brace list of a site, read in the site's own text. */
  lemma BraceListOfSiteText(s: string, name: string, st: Site)
    requires IsSite(s, name, st)
    ensures var t, o, c := s[st.start..st.end], st.open - st.start, st.close - st.start;
      && BraceList(t, o + 1, c)
      && (NoLineTerminator(t, o + 1, c) <==> NoLineTerminator(s, st.open + 1, st.close))
  {
    var t, d := s[st.start..st.end], st.start;
    forall k | st.open - d + 1 <= k < st.close - d ensures InBraceList(t[k]) {
      assert InBraceList(s[d + k]);
    }
    if !NoLineTerminator(s, st.open + 1, st.close) {
      var k :| st.open + 1 <= k < st.close && IsLineTerminator(s[k]);
      assert IsLineTerminator(t[k - d]);
    }
  }

  /**
   * Re-matching `\{.*\}` inside a site's text gives back its brace list with
   * both braces, unless the list holds a line terminator; then there is no match.
   */
  lemma BraceMatchOfSite(s: string, name: string, st: Site)
    requires IsSite(s, name, st) && IsManagerName(name)
    ensures BraceMatch(s[st.start..st.end]) ==
      if NoLineTerminator(s, st.open + 1, st.close)
      then Some((st.open - st.start, st.close + 1 - st.start))
      else None
  {
    BracesOfSiteText(s, name, st);
    BraceListOfSiteText(s, name, st);
    BraceMatchOfList(s[st.start..st.end], st.open - st.start, st.close - st.start);
  }
}
