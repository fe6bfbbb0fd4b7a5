/**
 * The two exported scans of src/find.ts over a document's text: the names
 * destructured from a manager (`variablesDestructuredFrom`) and the ranges
 * where identifiers occur (`rangesMatching`).
 */
module Find {
  import opened Chars
  import opened Options
  import opened Identifier
  import opened Destructuring
  import opened Alternation
  import opened Positions
  import opened Managers

  /*
   * variablesDestructuredFrom
   */

  /** The names one site match contributes: the identifier tokens of the `{…}` that the brace re-match finds in the match text. */
  function SiteNames(t: string): (names: seq<string>)
    ensures BraceMatch(t).None? ==> names == []
    ensures forall x :: x in names ==> IsIdentifier(x)
  {
    match BraceMatch(t)
    case None => []
    case Some((i, j)) => Tokens(t[i..j], 0)
  }

  /** Every site lies within the text. */
  predicate InText(s: string, sites: seq<Site>) {
    forall st :: st in sites ==> st.start <= st.end <= |s|
  }

  /** The names the site matches contribute, accumulated in scan order. */
  ghost function NamesOfSites(s: string, sites: seq<Site>): set<string>
    requires InText(s, sites)
  {
    if |sites| == 0 then {}
    else
      var last := sites[|sites| - 1];
      NamesOfSites(s, sites[..|sites| - 1]) + Elements(SiteNames(s[last.start..last.end]))
  }

  /**
   * The site `st` of the manager `name` binds `x`: it lies with its braces on
   * one line, and `x` is a maximal letter-and-digit token, starting with a
   * letter, between them.
   */
  ghost predicate BindsAt(s: string, name: string, st: Site, x: string) {
    IsSite(s, name, st) && NoLineTerminator(s, st.open + 1, st.close)
    && x in TokenSet(s[st.open..st.close + 1])
  }

  /** `x` is bound by some destructuring `let|const|var {…} = name` of the text. */
  ghost predicate Binds(s: string, name: string, x: string) {
    exists st :: BindsAt(s, name, st, x)
  }

  /** `names` holds exactly the names the text binds to destructurings of `name`. */
  ghost predicate BoundNames(s: string, name: string, names: set<string>) {
    forall x :: x in names <==> Binds(s, name, x)
  }

  lemma {:induction false} NamesOfSitesAre(s: string, sites: seq<Site>, x: string)
    requires InText(s, sites)
    ensures x in NamesOfSites(s, sites) <==>
      exists st :: st in sites && x in Elements(SiteNames(s[st.start..st.end]))
  {
    if |sites| > 0 {
      var init := sites[..|sites| - 1];
      var last := sites[|sites| - 1];
      assert sites == init + [last];
      NamesOfSitesAre(s, init, x);
      if x in NamesOfSites(s, sites) && x !in NamesOfSites(s, init) {
        assert last in sites;
      }
    }
  }

  /** One more site match: its names join those of the matches before it. */
  lemma CollectAdvance(s: string, sites: seq<Site>, i: nat, before: set<string>)
    requires InText(s, sites) && i < |sites| && InText(s, sites[..i]) && before == NamesOfSites(s, sites[..i])
    ensures InText(s, sites[..i + 1])
    ensures before + Elements(SiteNames(s[sites[i].start..sites[i].end])) == NamesOfSites(s, sites[..i + 1])
    ensures BraceMatch(s[sites[i].start..sites[i].end]).None? ==> before == NamesOfSites(s, sites[..i + 1])
  {
    assert sites[i] in sites;
    assert sites[..i + 1][..i] == sites[..i];
    assert Elements([]) == {};
  }

  lemma TakeOneMore<T>(xs: seq<T>, i: nat)
    requires i < |xs|
    ensures xs[..i + 1] == xs[..i] + [xs[i]]
  {
  }

  lemma SliceOfSlice<T>(xs: seq<T>, a: nat, b: nat, p: nat, q: nat)
    requires a <= p <= q <= b <= |xs|
    ensures xs[a..b][p - a..q - a] == xs[p..q]
  {
    var inner, outer := xs[a..b][p - a..q - a], xs[p..q];
    assert |inner| == |outer|;
    forall k | 0 <= k < |inner| ensures inner[k] == outer[k] {
      assert inner[k] == xs[a..b][p - a + k];
    }
  }

  lemma ElementsStep(xs: seq<string>, x: string)
    ensures Elements(xs + [x]) == Elements(xs) + {x}
  {
  }

  /** The names of a match text `s[a..b]` whose braces the re-match finds at `s[p..q]` are the tokens there. */
  lemma SiteNamesOfBraces(s: string, a: nat, b: nat, p: nat, q: nat)
    requires a <= p && a <= b <= |s| && BraceMatch(s[a..b]) == Some((p - a, q - a))
    ensures p <= q <= b && Elements(SiteNames(s[a..b])) == TokenSet(s[p..q])
  {
    var t := s[a..b];
    assert SiteNames(t) == Tokens(t[p - a..q - a], 0);
    SliceOfSlice(s, a, b, p, q);
    TokensAreTokenSet(s[p..q]);
  }

  /** What one site contributes: its brace tokens when the braces sit on one line, nothing otherwise. */
  lemma SiteNamesOfSite(s: string, name: string, st: Site)
    requires IsSite(s, name, st) && IsManagerName(name)
    ensures Elements(SiteNames(s[st.start..st.end])) ==
      if NoLineTerminator(s, st.open + 1, st.close) then TokenSet(s[st.open..st.close + 1]) else {}
  {
    BraceMatchOfSite(s, name, st);
    if NoLineTerminator(s, st.open + 1, st.close) {
      SiteNamesOfBraces(s, st.start, st.end, st.open, st.close + 1);
    } else {
      assert Elements([]) == {};
    }
  }

  /** Every name the scan collects is bound by the text. */
  lemma ScanBindsOnly(s: string, name: string, x: string)
    requires IsManagerName(name) && x in NamesOfSites(s, ScanSites(s, name, 0))
    ensures Binds(s, name, x)
  {
    var sites := ScanSites(s, name, 0);
    NamesOfSitesAre(s, sites, x);
    var st :| st in sites && x in Elements(SiteNames(s[st.start..st.end]));
    ScanSitesSound(s, name, 0, st);
    SiteAtIsSite(s, name, st.start);
    SiteNamesOfSite(s, name, st);
    assert BindsAt(s, name, st, x);
  }

  /** Every name the text binds is collected by the scan. */
  lemma ScanBindsAll(s: string, name: string, x: string)
    requires IsManagerName(name) && Binds(s, name, x)
    ensures x in NamesOfSites(s, ScanSites(s, name, 0))
  {
    var st :| BindsAt(s, name, st, x);
    SiteAtFindsEveryShape(s, name, st);
    ScanFindsEverySite(s, name, 0, st.start);
    var sites := ScanSites(s, name, 0);
    assert st in sites;
    SiteNamesOfSite(s, name, st);
    assert x in Elements(SiteNames(s[st.start..st.end]));
    NamesOfSitesAre(s, sites, x);
  }

  /** The scan collects exactly the names the text binds. */
  lemma ScanBindsExactly(s: string, name: string)
    requires IsManagerName(name)
    ensures BoundNames(s, name, NamesOfSites(s, ScanSites(s, name, 0)))
  {
    forall x
      ensures x in NamesOfSites(s, ScanSites(s, name, 0)) <==> Binds(s, name, x)
    {
      if x in NamesOfSites(s, ScanSites(s, name, 0)) {
        ScanBindsOnly(s, name, x);
      }
      if Binds(s, name, x) {
        ScanBindsAll(s, name, x);
      }
    }
  }

  /** Every collected name has the shape of an identifier: a letter, then letters and digits. */
  lemma NamesAreIdentifiers(s: string, sites: seq<Site>, x: string)
    requires InText(s, sites) && x in NamesOfSites(s, sites)
    ensures IsIdentifier(x)
  {
    NamesOfSitesAre(s, sites, x);
    var st :| st in sites && x in Elements(SiteNames(s[st.start..st.end]));
    assert x in SiteNames(s[st.start..st.end]);
  }

  /** A text with no destructuring site of the manager yields no names. */
  lemma NoSiteNoNames(s: string, name: string)
    requires forall p :: 0 <= p <= |s| ==> SiteAt(s, name, p).None?
    ensures NamesOfSites(s, ScanSites(s, name, 0)) == {}
  {
    NoSiteNoNext(s, name, 0);
    assert ScanSites(s, name, 0) == [];
  }

  lemma {:induction false} NoSiteNoNext(s: string, name: string, from: nat)
    requires from <= |s| && forall p :: 0 <= p <= |s| ==> SiteAt(s, name, p).None?
    ensures NextSite(s, name, from).None?
    decreases |s| - from
  {
    if from < |s| {
      NoSiteNoNext(s, name, from + 1);
    }
  }

  /** The inner loop of `variablesDestructuredFrom`: add each identifier of one site to the set. */
  method AddEach(variables: set<string>, identifiers: seq<string>) returns (out: set<string>)
    ensures out == variables + Elements(identifiers)
  {
    out := variables;
    for j := 0 to |identifiers|
      invariant out == variables + Elements(identifiers[..j])
    {
      ElementsStep(identifiers[..j], identifiers[j]);
      TakeOneMore(identifiers, j);
      out := out + {identifiers[j]};
    }
    assert identifiers[..|identifiers|] == identifiers;
  }

  /**
   * `variablesDestructuredFrom`: scan the text for destructuring sites of the
   * manager and add every identifier of each site's braces to a set.
   */
  method VariablesDestructuredFrom(manager: Manager, text: string) returns (variables: set<string>)
    ensures variables == NamesOfSites(text, ScanSites(text, Name(manager), 0))
    ensures BoundNames(text, Name(manager), variables)
  {
    var name := Name(manager);
    variables := {};
    var matches := ScanSites(text, name, 0);
    for i := 0 to |matches|
      invariant InText(text, matches[..i])
      invariant variables == NamesOfSites(text, matches[..i])
    {
      var st := matches[i];
      var matched := text[st.start..st.end];
      var site := BraceMatch(matched);
      CollectAdvance(text, matches, i, variables);
      if site.None? {
        continue;
      }
      var group := matched[site.value.0..site.value.1];
      var identifiers := Tokens(group, 0);
      variables := AddEach(variables, identifiers);
    }
    assert matches[..|matches|] == matches;
    ScanBindsExactly(text, name);
  }

  /** The keyword and the braces of `const { a, b } = state`. */
  lemma ExampleHead()
    ensures var t := "const { a, b } = state";
      && AllSpace(t, 5, 6) && t[6] == '{'
      && BraceList(t, 7, 13) && t[13] == '}'
  {
    var t := "const { a, b } = state";
    forall k | 7 <= k < 13 ensures InBraceList(t[k]) {
      assert t[k] == ' ' || t[k] == 'a' || t[k] == ',' || t[k] == 'b';
    }
  }

  /** The assignment from `state` in `const { a, b } = state`. */
  lemma ExampleTail()
    ensures var t := "const { a, b } = state";
      && AllSpace(t, 14, 15) && t[15] == '=' && AllSpace(t, 16, 17) && OccursAt(t, 17, "state")
  {
    var t := "const { a, b } = state";
    assert t[17..22] == "state";
  }

  /** `const { a, b } = state` has the shape of a site. */
  lemma ExampleIsSite()
    ensures IsSite("const { a, b } = state", "state", Site(0, 5, 6, 13, 15, 17, 22))
  {
    assert KeywordEnd("const { a, b } = state", 0) == Some(5);
    ExampleHead();
    ExampleTail();
  }

  /** So the scan finds it at its start. */
  lemma DestructuringExample()
    ensures SiteAt("const { a, b } = state", "state", 0) == Some(Site(0, 5, 6, 13, 15, 17, 22))
  {
    ExampleIsSite();
    assert IsManagerName(Name(State));
    SiteAtFindsEveryShape("const { a, b } = state", "state", Site(0, 5, 6, 13, 15, 17, 22));
  }

  /** The identifiers of the group `{ a, b }`. */
  lemma ExampleGroupTokens()
    ensures Tokens("{ a, b }", 0) == ["a", "b"]
  {
    var g := "{ a, b }";
    assert NextToken(g, 0) == Some((2, 3));
    assert NextToken(g, 3) == Some((5, 6));
    assert NextToken(g, 6) == None;
    assert g[2..3] == "a" && g[5..6] == "b";
  }

  /** The brace re-match finds its braces `{ a, b }`. */
  lemma ExampleBraces()
    ensures BraceMatch("const { a, b } = state") == Some((6, 14))
  {
    var t := "const { a, b } = state";
    ExampleIsSite();
    assert IsManagerName(Name(State));
    assert NoLineTerminator(t, 7, 13);
    BraceMatchOfSite(t, "state", Site(0, 5, 6, 13, 15, 17, 22));
    assert t[0..22] == t;
  }

  /** A re-match found yields the tokens between its braces. */
  lemma SiteNamesOfMatch(t: string, i: nat, j: nat)
    requires BraceMatch(t) == Some((i, j))
    ensures i < j <= |t| && SiteNames(t) == Tokens(t[i..j], 0)
  {
  }

  /** Those braces yield `a` and `b`. */
  lemma DestructuringExampleNames()
    ensures SiteNames("const { a, b } = state") == ["a", "b"]
  {
    var t := "const { a, b } = state";
    ExampleBraces();
    SiteNamesOfMatch(t, 6, 14);
    ExampleGroup();
    ExampleGroupTokens();
  }

  /** The text between those braces. */
  lemma ExampleGroup()
    ensures "const { a, b } = state"[6..14] == "{ a, b }"
  {
    var t := "const { a, b } = state";
    var g := t[6..14];
    forall k | 0 <= k < 8 ensures g[k] == "{ a, b }"[k] {
      assert g[k] == t[k + 6];
    }
  }

  /** A renaming `{a: b}` is no site: `:` cannot stand in a brace list. */
  lemma RenamingExample()
    ensures SiteAt("const {a: b} = state", "state", 0).None?
  {
    assert KeywordEnd("const {a: b} = state", 0) == Some(5);
    RenamingBraces();
  }

  /** The brace list of `const {a: b} = state` stops at the `:`, which is not the closing brace. */
  lemma RenamingBraces()
    ensures BracesFrom("const {a: b} = state", "state", 0, 5).None?
  {
    var t := "const {a: b} = state";
    assert SpaceRun(t, 5) == 6;
    assert BraceListEnd(t, 7) == 8 && t[8] == ':';
  }

  /** The keyword and the braces of `let {a,\nb} = state`. */
  lemma LineBreakHead()
    ensures var t := "let {a,\nb} = state";
      && KeywordEnd(t, 0) == Some(3) && AllSpace(t, 3, 4) && t[4] == '{'
      && BraceList(t, 5, 9) && t[9] == '}' && IsLineTerminator(t[7])
  {
    var t := "let {a,\nb} = state";
    forall k | 5 <= k < 9 ensures InBraceList(t[k]) {
      assert t[k] == 'a' || t[k] == ',' || t[k] == '\n' || t[k] == 'b';
    }
  }

  /** The assignment from `state` in `let {a,\nb} = state`. */
  lemma LineBreakTail()
    ensures var t := "let {a,\nb} = state";
      && AllSpace(t, 10, 11) && t[11] == '=' && AllSpace(t, 12, 13) && OccursAt(t, 13, "state")
  {
    var t := "let {a,\nb} = state";
    assert t[13..18] == "state";
  }

  /** A brace list broken over two lines has the shape of a site, yet the brace re-match fails on it and it yields nothing. */
  lemma LineBreakExample()
    ensures IsSite("let {a,\nb} = state", "state", Site(0, 3, 4, 9, 11, 13, 18))
    ensures SiteNames("let {a,\nb} = state") == []
  {
    var t, st := "let {a,\nb} = state", Site(0, 3, 4, 9, 11, 13, 18);
    LineBreakHead();
    LineBreakTail();
    assert IsManagerName(Name(State));
    BraceMatchOfSite(t, "state", st);
    assert t[0..18] == t;
  }

  /*
   * rangesMatching
   */

  /** The editor range of an offset range. */
  function ToRange(t: string, r: OffsetRange): (range: Range)
    ensures r.start <= r.end ==> NotAfter(range.start, range.end)
  {
    if r.start <= r.end then
      PositionAtMonotone(t, r.start, r.end);
      Range(PositionAt(t, r.start), PositionAt(t, r.end))
    else
      Range(PositionAt(t, r.start), PositionAt(t, r.end))
  }

  /** The editor ranges of a sequence of offset ranges, one for one. */
  function ToRanges(t: string, rs: seq<OffsetRange>): (out: seq<Range>)
    ensures |out| == |rs|
    ensures forall i :: 0 <= i < |rs| ==> out[i] == ToRange(t, rs[i])
  {
    if |rs| == 0 then [] else ToRanges(t, rs[..|rs| - 1]) + [ToRange(t, rs[|rs| - 1])]
  }

  lemma ToRangesStep(t: string, rs: seq<OffsetRange>, r: OffsetRange)
    ensures ToRanges(t, rs + [r]) == ToRanges(t, rs) + [ToRange(t, r)]
  {
    assert (rs + [r])[..|rs|] == rs;
  }

  /** `ranges` are the editor ranges of the matches `done`. */
  ghost predicate RangesOfMatches(t: string, ranges: seq<Range>, done: seq<Match>) {
    ranges == ToRanges(t, EmittedRanges(done))
  }

  /** A match: the loop's ranges stay those of the matches so far, with the match's range pushed unless it is at offset 0. */
  lemma EmitAdvance(t: string, done: seq<Match>, m: Match, ranges: seq<Range>, done': seq<Match>, ranges': seq<Range>)
    requires RangesOfMatches(t, ranges, done) && done' == done + [m]
    requires m.index == 0 ==> ranges' == ranges
    requires m.index != 0 ==> ranges' == ranges + [Range(PositionAt(t, m.index), PositionAt(t, m.index + (|m.word| + 1 - 1)))]
    ensures RangesOfMatches(t, ranges', done')
  {
    EmittedRangesStep(done, m);
    if m.index != 0 {
      assert EmittedRanges(done') == EmittedRanges(done) + [RangeOf(m)];
      ToRangesStep(t, EmittedRanges(done), RangeOf(m));
      assert ToRange(t, RangeOf(m)) == Range(PositionAt(t, m.index), PositionAt(t, m.index + (|m.word| + 1 - 1)));
    } else {
      assert EmittedRanges(done') == EmittedRanges(done) + [];
      assert EmittedRanges(done) + [] == EmittedRanges(done);
    }
  }

  /**
   * `rangesMatching`: scan the text with the alternation of the identifiers
   * and push the range of every match not at offset 0.
   */
  method RangesMatching(identifiers: seq<string>, text: string) returns (ranges: seq<Range>)
    requires ValidIdentifiers(identifiers)
    ensures ranges == ToRanges(text, EmittedRanges(ScanMatches(identifiers, text, 0)))
  {
    ranges := [];
    var matches := ScanMatches(identifiers, text, 0);
    for i := 0 to |matches|
      invariant RangesOfMatches(text, ranges, matches[..i])
    {
      var m := matches[i];
      TakeOneMore(matches, i);
      if m.index == 0 {
        EmitAdvance(text, matches[..i], m, ranges, matches[..i + 1], ranges);
        continue;
      }
      // match[0] is the identifier and the boundary character after it
      var matchLength := |m.word| + 1;
      var start := PositionAt(text, m.index);
      var end := PositionAt(text, m.index + (matchLength - 1));
      ghost var pushed := ranges;
      ranges := ranges + [Range(start, end)];
      EmitAdvance(text, matches[..i], m, pushed, matches[..i + 1], ranges);
    }
    assert matches[..|matches|] == matches;
  }

  /** Each range lies on one line and spans exactly one of the identifiers. */
  lemma RangesOnOneLine(identifiers: seq<string>, text: string, r: OffsetRange)
    requires ValidIdentifiers(identifiers) && r in EmittedRanges(ScanMatches(identifiers, text, 0))
    ensures r.start < r.end <= |text| && text[r.start..r.end] in identifiers
    ensures ToRange(text, r).end ==
      Position(ToRange(text, r).start.line, ToRange(text, r).start.character + |text[r.start..r.end]|)
  {
    RangesSound(identifiers, text, r);
    var w := text[r.start..r.end];
    assert IsAlnumWord(w);
    forall k | r.start <= k < r.end
      ensures text[k] != '\n'
    {
      assert text[k] == w[k - r.start];
    }
    PositionAtSameLine(text, r.start, r.end);
  }

  /** The ranges follow one another through the document without overlapping. */
  lemma RangesInDocumentOrder(identifiers: seq<string>, text: string, i: nat, j: nat)
    requires i < j < |EmittedRanges(ScanMatches(identifiers, text, 0))|
    ensures var rs := EmittedRanges(ScanMatches(identifiers, text, 0));
      NotAfter(ToRange(text, rs[i]).end, ToRange(text, rs[j]).start)
  {
    var rs := EmittedRanges(ScanMatches(identifiers, text, 0));
    RangesOrdered(identifiers, text);
    PositionAtMonotone(text, rs[i].end, rs[j].start);
  }
}
