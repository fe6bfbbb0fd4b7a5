/**
 * The two state managers of ixfx (src/shared-types.ts:3) and the names under
 * which their values are reached (src/find.ts:4-5).
 */
module Managers {
  import opened Alternation
  import opened Destructuring

  datatype Manager = State | Settings

  /** The name the manager is destructured from, as the union's string literal spells it. */
  function Name(m: Manager): (name: string)
    ensures IsManagerName(name)
  {
    match m
    case State => "state"
    case Settings => "settings"
  }

  /** A word with its first letter in upper case, as in `useState`. */
  function Capitalized(w: string): (c: string)
    ensures |c| == |w| && (|w| > 0 ==> c[1..] == w[1..])
    ensures |w| > 0 && 'a' <= w[0] <= 'z' ==> 'A' <= c[0] <= 'Z' && c[0] as int == w[0] as int - 32
  {
    if |w| > 0 && 'a' <= w[0] <= 'z' then [(w[0] as int - 32) as char] + w[1..] else w
  }

  /** The alias table: the manager's own name, its `use…` hook and its `update…` function. */
  function Aliases(m: Manager): (a: seq<string>)
    ensures |a| == 3 && a[0] == Name(m)
    ensures ValidIdentifiers(a)
  {
    match m
    case State => ["state", "useState", "updateState"]
    case Settings => ["settings", "useSettings", "updateSettings"]
  }

  /** The hook and the update function are named `use` and `update` followed by the capitalized manager name. */
  lemma AliasesFollowNaming(m: Manager)
    ensures Aliases(m)[1] == "use" + Capitalized(Name(m))
    ensures Aliases(m)[2] == "update" + Capitalized(Name(m))
  {
    var c := Capitalized(Name(m));
    match m
    case State =>
      assert c == "State";
      assert "use" + c == "useState";
      assert "update" + c == "updateState";
    case Settings =>
      assert c == "Settings";
      assert "use" + c == "useSettings";
      assert "update" + c == "updateSettings";
  }
}
