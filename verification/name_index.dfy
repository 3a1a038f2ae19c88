/** The case-insensitive name index: the lower-case-to-title map built once
    from the catalog, and the position of a title in the catalog. */
module NameIndex {
  import opened CaseFold

  /** The map from folded title to stored title, built like a dictionary
      comprehension over `titles`: a later title whose folded form equals an
      earlier one's overwrites it. */
  function LowerNameMap(titles: seq<string>): (m: map<string, string>)
    ensures m.Keys == set t | t in titles :: LowerStr(t)
    ensures forall k | k in m :: m[k] in titles && LowerStr(m[k]) == k
    decreases |titles|
  {
    if |titles| == 0 then map[]
    else
      var last := titles[|titles| - 1];
      assert titles == titles[..|titles| - 1] + [last];
      LowerNameMap(titles[..|titles| - 1])[LowerStr(last) := last]
  }

  /** The map keeps the last title of each folded form: a title that no later
      title folds onto is what its folded form looks up. */
  lemma {:induction false} LowerNameMapLastWins(titles: seq<string>, j: nat)
    requires j < |titles|
    requires forall j' | j < j' < |titles| :: LowerStr(titles[j']) != LowerStr(titles[j])
    ensures LowerStr(titles[j]) in LowerNameMap(titles)
    ensures LowerNameMap(titles)[LowerStr(titles[j])] == titles[j]
    decreases |titles|
  {
    var n := |titles| - 1;
    if j < n {
      var init := titles[..n];
      assert init[j] == titles[j];
      LowerNameMapLastWins(init, j);
    }
  }

  /** Folded forms of distinct positions differ. */
  ghost predicate DistinctFolded(titles: seq<string>) {
    forall i, j | 0 <= i < j < |titles| :: LowerStr(titles[i]) != LowerStr(titles[j])
  }

  /** With distinct folded titles the map is the inverse of folding: every
      title is found under its own folded form. */
  lemma LowerNameMapInverse(titles: seq<string>, j: nat)
    requires DistinctFolded(titles)
    requires j < |titles|
    ensures LowerNameMap(titles)[LowerStr(titles[j])] == titles[j]
  {
    LowerNameMapLastWins(titles, j);
  }

  /** Position of the first occurrence of a title, as `list.index` returns it. */
  function IndexOf(titles: seq<string>, t: string): (i: nat)
    requires t in titles
    ensures i < |titles| && titles[i] == t
    ensures forall j | 0 <= j < i :: titles[j] != t
  {
    if titles[0] == t then 0 else 1 + IndexOf(titles[1..], t)
  }
}
