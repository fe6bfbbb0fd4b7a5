/**
 * The global identifier regex `/[a-zA-Z]([a-zA-Z]|\d)*\/g` of src/find.ts and
 * what a `matchAll` with it yields: the scan, and a declarative reading of it.
 */
module Identifier {
  import opened Chars
  import opened Options

  /** The greedy `([a-zA-Z]|\d)*` from `i`: the end of the run of letters and digits there. */
  function AlnumRunEnd(t: string, i: nat): (j: nat)
    requires i <= |t|
    ensures i <= j <= |t|
    ensures forall k :: i <= k < j ==> IsAlnum(t[k])
    ensures j == |t| || !IsAlnum(t[j])
    decreases |t| - i
  {
    if i < |t| && IsAlnum(t[i]) then AlnumRunEnd(t, i + 1) else i
  }

  /** The start of the run of digits that ends just before `i`. */
  function DigitRunStart(t: string, i: nat): (r: nat)
    requires i <= |t|
    ensures r <= i
    ensures forall k :: r <= k < i ==> IsDigit(t[k])
    ensures r == 0 || !IsDigit(t[r - 1])
  {
    if i > 0 && IsDigit(t[i - 1]) then DigitRunStart(t, i - 1) else i
  }

  /**
   * `i` starts a match of a scan over all of `t`: a letter that is the first
   * letter of its run of letters and digits (only digits may come before it).
   */
  predicate IsTokenStart(t: string, i: nat) {
    i < |t| && IsLetter(t[i]) &&
    var r := DigitRunStart(t, i); r == 0 || !IsLetter(t[r - 1])
  }

  /** The leftmost match of the identifier regex at or after `from`, as a pair of offsets. */
  function NextToken(t: string, from: nat): (m: Option<(nat, nat)>)
    requires from <= |t|
    ensures m.None? ==> forall k :: from <= k < |t| ==> !IsLetter(t[k])
    ensures m.Some? ==>
      && from <= m.value.0 < m.value.1 <= |t|
      && IsLetter(t[m.value.0])
      && (forall k :: from <= k < m.value.0 ==> !IsLetter(t[k]))
      && m.value.1 == AlnumRunEnd(t, m.value.0)
    decreases |t| - from
  {
    if from == |t| then None
    else if IsLetter(t[from]) then Some((from, AlnumRunEnd(t, from)))
    else NextToken(t, from + 1)
  }

  /** The matches of the global scan from `from` on, in order (each scan resumes where the last match ended). */
  function Tokens(t: string, from: nat): (ts: seq<string>)
    requires from <= |t|
    ensures forall x :: x in ts ==> IsIdentifier(x)
    decreases |t| - from
  {
    match NextToken(t, from)
    case None => []
    case Some((i, j)) => [t[i..j]] + Tokens(t, j)
  }

  /** The distinct strings of a sequence. */
  ghost function Elements(xs: seq<string>): set<string> {
    set x | x in xs
  }

  /** Declarative reading of the identifier matches of `t`: one per token start. */
  ghost function TokenSet(t: string): set<string> {
    set i | 0 <= i < |t| && IsTokenStart(t, i) :: t[i..AlnumRunEnd(t, i)]
  }

  /** Where a scan may resume: no run of letters and digits is cut at `from`. */
  predicate CleanCut(t: string, from: nat)
    requires from <= |t|
  {
    from == 0 || from == |t| || !IsAlnum(t[from - 1]) || !IsAlnum(t[from])
  }

  /** From a clean cut, the scan yields exactly the tokens that start at or after it. */
  lemma {:induction false} TokensFrom(t: string, from: nat, x: string)
    requires from <= |t| && CleanCut(t, from)
    ensures x in Tokens(t, from) <==>
      exists i :: from <= i < |t| && IsTokenStart(t, i) && x == t[i..AlnumRunEnd(t, i)]
    decreases |t| - from
  {
    match NextToken(t, from)
    case None =>
    case Some((i0, j0)) =>
      assert Tokens(t, from) == [t[i0..j0]] + Tokens(t, j0);
      // the first match starts a token
      var r := DigitRunStart(t, i0);
      if r < from {
        assert IsDigit(t[from - 1]);
        assert from < i0 ==> IsDigit(t[from]);
        assert IsAlnum(t[from]);
        assert false;
      }
      assert r == 0 || !IsLetter(t[r - 1]) by {
        if r > from { assert !IsLetter(t[r - 1]); }
      }
      assert IsTokenStart(t, i0);
      assert j0 == |t| || !IsAlnum(t[j0]);
      TokensFrom(t, j0, x);
      if x in Tokens(t, from) {
        if x != t[i0..j0] {
          assert x in Tokens(t, j0);
          var i :| j0 <= i < |t| && IsTokenStart(t, i) && x == t[i..AlnumRunEnd(t, i)];
          assert from <= i;
        }
      } else {
        forall i | from <= i < |t| && IsTokenStart(t, i)
          ensures x != t[i..AlnumRunEnd(t, i)]
        {
          if i < j0 {
            assert i0 == i;
          } else {
            assert x !in Tokens(t, j0);
          }
        }
      }
  }

  /** The scan over all of `t` yields exactly the declarative token set. */
  lemma TokensAreTokenSet(t: string)
    ensures Elements(Tokens(t, 0)) == TokenSet(t)
  {
    forall x
      ensures x in Tokens(t, 0) <==> x in TokenSet(t)
    {
      TokensFrom(t, 0, x);
    }
  }

  /** Underscores split names: "a_b" yields "a" and "b"; "1a2" yields "a2". */
  lemma TokensExamples()
    ensures Tokens("a_b", 0) == ["a", "b"]
    ensures Tokens("1a2", 0) == ["a2"]
  {
    assert NextToken("a_b", 0) == Some((0, 1));
    assert NextToken("a_b", 1) == Some((2, 3));
    assert NextToken("a_b", 3) == None;
    assert "a_b"[0..1] == "a" && "a_b"[2..3] == "b";
    assert NextToken("1a2", 0) == Some((1, 3));
    assert NextToken("1a2", 3) == None;
    assert "1a2"[1..3] == "a2";
  }
}
