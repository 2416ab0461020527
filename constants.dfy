/** The application-wide tables: the canonical mathematical symbols, the pool of
    point labels used to name figures, and the level, difficulty and document
    lists. */
module Constants {
  import opened TextChars

  /** The symbol table, entry by entry in its declared order. */
  const MathSymbolEntries: seq<(string, string)> := [
    ("multiplication", "×"),
    ("division", "÷"),
    ("pi", "π"),
    ("degree", "°"),
    ("squared", "²"),
    ("cubed", "³"),
    ("sqrt", "√"),
    ("approximately", "≈"),
    ("less_than_or_equal", "≤"),
    ("greater_than_or_equal", "≥")
  ]

  const MathSymbols: map<string, string> := MapOf(MathSymbolEntries)

  /** Triples of point labels, in alphabetical order. */
  const GeometryPointSets: seq<seq<string>> := [
    ["A", "B", "C"],
    ["D", "E", "F"],
    ["G", "H", "I"],
    ["J", "K", "L"],
    ["M", "N", "P"],
    ["Q", "R", "S"],
    ["T", "U", "V"],
    ["W", "X", "Y"]
  ]

  const SchoolLevels: seq<string> := ["6e", "5e", "4e", "3e"]

  const DifficultyLevels: seq<string> := ["facile", "moyen", "difficile"]

  const DocumentTypes: seq<string> := ["evaluation", "exercice", "controle", "ds"]

  predicate Distinct<T(==)>(xs: seq<T>) {
    forall i, j :: 0 <= i < j < |xs| ==> xs[i] != xs[j]
  }

  /** Each element below the next one. */
  predicate AdjacentIncreasing(s: seq<char>) {
    forall i :: 0 < i < |s| ==> s[i - 1] < s[i]
  }

  lemma {:induction false} AdjacentIncreasingIsStrict(s: seq<char>)
    requires AdjacentIncreasing(s)
    ensures StrictlyIncreasing(s)
  {
    if |s| > 1 {
      AdjacentIncreasingIsStrict(s[1..]);
      assert forall j :: 1 < j < |s| ==> s[1] < s[j] by {
        forall j | 1 < j < |s| ensures s[1] < s[j] {
          assert s[1..][0] == s[1] && s[1..][j - 1] == s[j];
        }
      }
      forall i, j | 0 <= i < j < |s| ensures s[i] < s[j] {
        if i > 0 {
          assert s[1..][i - 1] == s[i] && s[1..][j - 1] == s[j];
        }
      }
    }
  }

  /** The dictionary a list of key-value pairs builds: a later key overrides an earlier one. */
  function MapOf(entries: seq<(string, string)>): (m: map<string, string>)
    ensures forall k :: k in m <==> exists i :: 0 <= i < |entries| && entries[i].0 == k
  {
    if entries == [] then map[]
    else
      var m := MapOf(entries[..|entries| - 1]);
      var e := entries[|entries| - 1];
      assert forall i :: 0 <= i < |entries| - 1 ==> entries[..|entries| - 1][i] == entries[i];
      m[e.0 := e.1]
  }

  function Keys(entries: seq<(string, string)>): (r: seq<string>)
    ensures |r| == |entries| && forall i :: 0 <= i < |r| ==> r[i] == entries[i].0
  {
    if entries == [] then [] else [entries[0].0] + Keys(entries[1..])
  }

  function Values(entries: seq<(string, string)>): (r: seq<string>)
    ensures |r| == |entries| && forall i :: 0 <= i < |r| ==> r[i] == entries[i].1
  {
    if entries == [] then [] else [entries[0].1] + Values(entries[1..])
  }

  /** With distinct keys every entry survives: the dictionary has one key per
      entry and maps each key to its own value. */
  lemma {:induction false} MapOfDistinctKeys(entries: seq<(string, string)>)
    requires Distinct(Keys(entries))
    ensures |MapOf(entries).Keys| == |entries|
    ensures forall i :: 0 <= i < |entries| ==> MapOf(entries)[entries[i].0] == entries[i].1
  {
    if entries != [] {
      var init := entries[..|entries| - 1];
      var e := entries[|entries| - 1];
      assert Keys(init) == Keys(entries)[..|entries| - 1];
      MapOfDistinctKeys(init);
      var m := MapOf(init);
      assert MapOf(entries) == m[e.0 := e.1];
      forall i | 0 <= i < |entries| - 1 ensures entries[i].0 in m && m[entries[i].0] == entries[i].1 && entries[i].0 != e.0 {
        assert init[i] == entries[i];
        assert Keys(entries)[i] != Keys(entries)[|entries| - 1];
      }
      LastEntry(m, entries);
    }
  }

  /** Adding the last entry, whose key is new, keeps every earlier entry and
      grows the dictionary by one key. */
  lemma LastEntry(m: map<string, string>, entries: seq<(string, string)>)
    requires entries != []
    requires forall i :: 0 <= i < |entries| - 1 ==>
      entries[i].0 in m && m[entries[i].0] == entries[i].1 && entries[i].0 != entries[|entries| - 1].0
    requires entries[|entries| - 1].0 !in m
    ensures var e := entries[|entries| - 1]; |m[e.0 := e.1].Keys| == |m.Keys| + 1
    ensures var e := entries[|entries| - 1];
      forall i :: 0 <= i < |entries| ==> entries[i].0 in m[e.0 := e.1] && m[e.0 := e.1][entries[i].0] == entries[i].1
  {
    var e := entries[|entries| - 1];
    assert m[e.0 := e.1].Keys == m.Keys + {e.0};
  }

  /** Keys whose lengths are pairwise different are pairwise different. */
  lemma KeysDistinctByLength(entries: seq<(string, string)>, lengths: seq<int>)
    requires |entries| == |lengths| && Distinct(lengths)
    requires forall i :: 0 <= i < |lengths| ==> |entries[i].0| == lengths[i]
    ensures Distinct(Keys(entries))
  {
  }

  /** One-character values whose code points are pairwise different are
      pairwise different. */
  lemma ValuesDistinctByCode(entries: seq<(string, string)>, codes: seq<int>)
    requires |entries| == |codes| && Distinct(codes)
    requires forall i :: 0 <= i < |codes| ==> |entries[i].1| == 1 && entries[i].1[0] as int == codes[i]
    ensures forall i :: 0 <= i < |entries| ==> |entries[i].1| == 1
    ensures forall i, j :: 0 <= i < j < |entries| ==> entries[i].1 != entries[j].1
  {
    forall i, j | 0 <= i < j < |entries| ensures entries[i].1 != entries[j].1 {
      assert entries[i].1[0] as int != entries[j].1[0] as int;
    }
  }

  /** A label made of one upper-case letter, the shape every figure point must have. */
  predicate IsPointLabel(p: string) {
    |p| == 1 && IsUpperChar(p[0])
  }

  /** The code points of the symbols, in order; no two are equal. */
  const MathSymbolCodes: seq<int> := [0xD7, 0xF7, 0x3C0, 0xB0, 0xB2, 0xB3, 0x221A, 0x2248, 0x2264, 0x2265]

  /** The lengths of the keys, in order; no two are equal. */
  const MathSymbolKeyLengths: seq<int> := [14, 8, 2, 6, 7, 5, 4, 13, 18, 21]

  lemma MathSymbolKeysDistinct()
    ensures Distinct(Keys(MathSymbolEntries))
  {
    assert |MathSymbolEntries| == 10;
    assert forall i :: 0 <= i < 10 ==> |MathSymbolEntries[i].0| == MathSymbolKeyLengths[i];
    assert Distinct(MathSymbolKeyLengths);
    KeysDistinctByLength(MathSymbolEntries, MathSymbolKeyLengths);
  }

  /** A table built from entries with distinct keys and distinct one-character
      values has one key per entry, maps every key to one character, and no two
      keys to the same character. */
  lemma MapOfOneToOne(entries: seq<(string, string)>)
    requires Distinct(Keys(entries))
    requires forall i :: 0 <= i < |entries| ==> |entries[i].1| == 1
    requires forall i, j :: 0 <= i < j < |entries| ==> entries[i].1 != entries[j].1
    ensures |MapOf(entries).Keys| == |entries|
    ensures forall k :: k in MapOf(entries) ==> |MapOf(entries)[k]| == 1
    ensures forall k1, k2 :: k1 in MapOf(entries) && k2 in MapOf(entries) && MapOf(entries)[k1] == MapOf(entries)[k2] ==> k1 == k2
  {
    var m := MapOf(entries);
    MapOfDistinctKeys(entries);
    forall k | k in m ensures |m[k]| == 1 {
      var i :| 0 <= i < |entries| && entries[i].0 == k;
    }
    forall k1, k2 | k1 in m && k2 in m && m[k1] == m[k2]
      ensures k1 == k2
    {
      var i :| 0 <= i < |entries| && entries[i].0 == k1;
      var j :| 0 <= j < |entries| && entries[j].0 == k2;
      assert entries[i].1 == entries[j].1;
      assert !(i < j) && !(j < i);
    }
  }

  /** The symbol table has ten keys; each maps to a single character, and no
      two keys share a character. */
  lemma MathSymbolValueCodes()
    ensures |MathSymbolEntries| == |MathSymbolCodes| && Distinct(MathSymbolCodes)
    ensures forall i :: 0 <= i < |MathSymbolCodes| ==> |MathSymbolEntries[i].1| == 1
    ensures forall i :: 0 <= i < |MathSymbolCodes| ==> MathSymbolEntries[i].1[0] as int == MathSymbolCodes[i]
  {
    assert MathSymbolEntries[0].1 == "×" && MathSymbolEntries[1].1 == "÷";
    assert MathSymbolEntries[2].1 == "π" && MathSymbolEntries[3].1 == "°";
    assert MathSymbolEntries[4].1 == "²" && MathSymbolEntries[5].1 == "³";
    assert MathSymbolEntries[6].1 == "√" && MathSymbolEntries[7].1 == "≈";
    assert MathSymbolEntries[8].1 == "≤" && MathSymbolEntries[9].1 == "≥";
  }

  lemma MathSymbolsShape()
    ensures |MathSymbols.Keys| == 10
    ensures forall k :: k in MathSymbols ==> |MathSymbols[k]| == 1
    ensures forall k1, k2 :: k1 in MathSymbols && k2 in MathSymbols && MathSymbols[k1] == MathSymbols[k2] ==> k1 == k2
  {
    MathSymbolKeysDistinct();
    MathSymbolValueCodes();
    ValuesDistinctByCode(MathSymbolEntries, MathSymbolCodes);
    MapOfOneToOne(MathSymbolEntries);
  }

  /** The glyphs the normalizer writes are the table's multiplication, squared,
      cubed, approximately and degree symbols. */
  lemma NormalizerGlyphsAreTableSymbols()
    ensures "multiplication" in MathSymbols && MathSymbols["multiplication"] == "×"
    ensures "squared" in MathSymbols && MathSymbols["squared"] == "²"
    ensures "cubed" in MathSymbols && MathSymbols["cubed"] == "³"
    ensures "approximately" in MathSymbols && MathSymbols["approximately"] == "≈"
    ensures "degree" in MathSymbols && MathSymbols["degree"] == "°"
  {
    MathSymbolKeysDistinct();
    MapOfDistinctKeys(MathSymbolEntries);
    assert MathSymbolEntries[0] == ("multiplication", "×");
    assert MathSymbolEntries[3] == ("degree", "°");
    assert MathSymbolEntries[4] == ("squared", "²");
    assert MathSymbolEntries[5] == ("cubed", "³");
    assert MathSymbolEntries[7] == ("approximately", "≈");
  }

  /** The pooled letters, group after group. */
  const PoolLetters: seq<char> := "ABCDEFGHIJKLMNPQRSTUVWXY"

  /** Label `j` of group `i` is pooled letter `3 * i + j`. */
  lemma PointSetsSplit()
    ensures |GeometryPointSets| == 8 && |PoolLetters| == 24
    ensures forall i :: 0 <= i < 8 ==> |GeometryPointSets[i]| == 3
    ensures forall i, j :: 0 <= i < 8 && 0 <= j < 3 ==> GeometryPointSets[i][j] == [PoolLetters[3 * i + j]]
  {
  }

  /** Position of label `j` of group `i` in reading order. */
  function Rank(i: int, j: int): int {
    3 * i + j
  }

  /** Reading the groups in order, and each group in order, the letters strictly
      increase; so no two groups share a label and no group repeats one. */
  lemma PointSetsAlphabetical()
    ensures forall i, j :: 0 <= i < |GeometryPointSets| && 0 <= j < |GeometryPointSets[i]| ==> |GeometryPointSets[i][j]| == 1
    ensures forall i1, j1, i2, j2 ::
      0 <= i1 < 8 && 0 <= j1 < 3 && 0 <= i2 < 8 && 0 <= j2 < 3 && Rank(i1, j1) < Rank(i2, j2) ==>
      GeometryPointSets[i1][j1][0] < GeometryPointSets[i2][j2][0]
  {
    PointSetsSplit();
    assert AdjacentIncreasing(PoolLetters);
    AdjacentIncreasingIsStrict(PoolLetters);
  }

  /** Eight groups of three distinct one-letter upper-case labels. */
  lemma PointSetsShape()
    ensures |GeometryPointSets| == 8
    ensures forall i :: 0 <= i < |GeometryPointSets| ==> |GeometryPointSets[i]| == 3 && Distinct(GeometryPointSets[i])
    ensures forall i, j :: 0 <= i < |GeometryPointSets| && 0 <= j < |GeometryPointSets[i]| ==> IsPointLabel(GeometryPointSets[i][j])
  {
    PointSetsSplit();
    PointSetsAlphabetical();
    forall i, j | 0 <= i < 8 && 0 <= j < 3 ensures IsPointLabel(GeometryPointSets[i][j]) {
      assert IsAsciiUpper(PoolLetters[3 * i + j]);
    }
    forall i, j1, j2 | 0 <= i < 8 && 0 <= j1 < j2 < 3 ensures GeometryPointSets[i][j1] != GeometryPointSets[i][j2] {
      assert Rank(i, j1) < Rank(i, j2);
    }
  }

  /** No label belongs to two groups. */
  lemma PointSetsDisjoint()
    ensures forall i1, i2, p :: 0 <= i1 < i2 < |GeometryPointSets| && p in GeometryPointSets[i1] ==> p !in GeometryPointSets[i2]
  {
    PointSetsSplit();
    PointSetsAlphabetical();
    forall i1, i2, p | 0 <= i1 < i2 < 8 && p in GeometryPointSets[i1]
      ensures p !in GeometryPointSets[i2]
    {
      var j1 :| 0 <= j1 < 3 && GeometryPointSets[i1][j1] == p;
    }
  }

  /** Every pooled letter lies in A-Y, and neither O nor Z is used. */
  lemma PointSetsAvoidOAndZ()
    ensures forall i, j :: 0 <= i < |GeometryPointSets| && 0 <= j < |GeometryPointSets[i]| ==>
      var p := GeometryPointSets[i][j]; |p| == 1 && 'A' <= p[0] <= 'Y' && p != "O" && p != "Z"
  {
    PointSetsSplit();
    assert forall k :: 0 <= k < 24 ==> 'A' <= PoolLetters[k] <= 'Y' && PoolLetters[k] != 'O';
    forall i, j | 0 <= i < 8 && 0 <= j < 3
      ensures var p := GeometryPointSets[i][j]; |p| == 1 && 'A' <= p[0] <= 'Y' && p != "O" && p != "Z"
    {
      assert GeometryPointSets[i][j] == [PoolLetters[3 * i + j]];
    }
  }

  lemma LevelListsDistinct()
    ensures |SchoolLevels| == 4 && Distinct(SchoolLevels)
    ensures |DifficultyLevels| == 3 && Distinct(DifficultyLevels)
    ensures |DocumentTypes| == 4 && Distinct(DocumentTypes)
  {
  }
}
