/**
 * The map export's hash bookkeeping: for every level name, a list with one
 * column per game holding the hash of that level's rendered map, padded
 * with empty strings for games in which the level was absent; and the CSV
 * summary written once every game has been exported. The hash itself
 * (SHA-512 of the raster, in Base64) is an opaque string here.
 */
module LevelHashes {
  import opened Common
  import opened Text
  import opened Sheets

  /**
   * The list after recording `h` for game `g`: pad with "" up to `g` entries,
   * then insert `h` at index `g`.
   */
  function Recorded(list: seq<string>, g: nat, h: string): (r: seq<string>)
    ensures |r| == (if |list| < g then g else |list|) + 1
    ensures r[g] == h
    ensures forall k | 0 <= k < g && k < |list| :: r[k] == list[k]
    ensures forall k | |list| <= k < g :: r[k] == ""
    ensures forall k | g <= k < |list| :: r[k + 1] == list[k]
  {
    var padded := list + seq(if |list| < g then g - |list| else 0, _ => "");
    padded[..g] + [h] + padded[g..]
  }

  /**
   * A level name seen twice within one game (two files with the same base
   * name in different folders) pushes the earlier hash one column right,
   * into the next game's place.
   */
  lemma DuplicateNameShifts(list: seq<string>, g: nat, h1: string, h2: string)
    ensures var r := Recorded(Recorded(list, g, h1), g, h2);
      |r| >= g + 2 && r[g] == h2 && r[g + 1] == h1
  {
  }

  /** A level absent from the previous games gets "" in their columns and its hash in column `g`, last. */
  lemma FirstSightingAligns(list: seq<string>, g: nat, h: string)
    requires |list| <= g
    ensures Recorded(list, g, h) == list + seq(g - |list|, _ => "") + [h]
  {
    var r := Recorded(list, g, h);
    var e := list + seq(g - |list|, _ => "") + [h];
    assert |r| == |e|;
    forall k | 0 <= k < |r|
      ensures r[k] == e[k]
    {
      if k < |list| {
      } else if k < g {
      }
    }
  }

  /** `order` names every level of `hashes` exactly once, as the sorted key sequence does. */
  predicate ListsEveryKeyOnce(order: seq<string>, hashes: map<string, seq<string>>) {
    (forall k | k in order :: k in hashes) &&
    (forall k | k in hashes :: k in order) &&
    forall i, j | 0 <= i < j < |order| :: order[i] != order[j]
  }

  /** A sequence without repetitions has as many distinct elements as entries. */
  lemma {:induction false} DistinctCount(s: seq<string>)
    requires forall i, j | 0 <= i < j < |s| :: s[i] != s[j]
    ensures |set k | k in s| == |s|
  {
    if |s| > 0 {
      DistinctCount(s[1..]);
      assert (set k | k in s) == {s[0]} + (set k | k in s[1..]);
      assert s[0] !in s[1..];
    }
  }

  /**
   * The rows of the summary sheet: a header of game names, then each level
   * and its hashes, in `order`.
   */
  function SheetRows(gameNames: seq<string>, order: seq<string>, hashes: map<string, seq<string>>): (rows: seq<seq<string>>)
    requires forall k | k in order :: k in hashes
    ensures |rows| == |order| + 1 && rows[0] == ["Level"] + gameNames
    ensures forall i | 1 <= i < |rows| :: |rows[i]| > 0 && rows[i][0] in hashes && rows[i][1..] == hashes[rows[i][0]]
  {
    [["Level"] + gameNames] + seq(|order|, i requires 0 <= i < |order| => [order[i]] + hashes[order[i]])
  }

  /**
   * Reading the sheet back: the header names the games in export order, and
   * each line names a level followed by its hash list, one per key in `order`.
   */
  lemma SheetReadsBack(gameNames: seq<string>, order: seq<string>, hashes: map<string, seq<string>>)
    requires forall k | k in order :: k in hashes
    requires PlainCells(SheetRows(gameNames, order, hashes), ',')
    ensures var t := ParseTable(RenderTable(SheetRows(gameNames, order, hashes), ','), ',');
      |t| == |order| + 1 &&
      t[0] == ["Level"] + gameNames &&
      forall i | 0 <= i < |order| :: t[i + 1] == [order[i]] + hashes[order[i]]
  {
    TableRoundTrip(SheetRows(gameNames, order, hashes), ',');
  }

  /**
   * With the key order the export uses, the sheet has exactly one line per
   * recorded level, and no level name heads two lines.
   */
  lemma SheetHasOneRowPerLevel(gameNames: seq<string>, order: seq<string>, hashes: map<string, seq<string>>)
    requires ListsEveryKeyOnce(order, hashes)
    requires PlainCells(SheetRows(gameNames, order, hashes), ',')
    ensures var t := ParseTable(RenderTable(SheetRows(gameNames, order, hashes), ','), ',');
      |t| == |hashes| + 1 &&
      (forall name | name in hashes :: exists i | 1 <= i < |t| :: t[i] == [name] + hashes[name]) &&
      (forall i, j | 1 <= i < j < |t| :: |t[i]| > 0 && |t[j]| > 0 && t[i][0] != t[j][0])
  {
    var rows := SheetRows(gameNames, order, hashes);
    var t := ParseTable(RenderTable(rows, ','), ',');
    SheetReadsBack(gameNames, order, hashes);
    DistinctCount(order);
    assert hashes.Keys == set k | k in order;
    forall name | name in hashes
      ensures exists i | 1 <= i < |t| :: t[i] == [name] + hashes[name]
    {
      var k :| 0 <= k < |order| && order[k] == name;
      assert t[k + 1] == [name] + hashes[name];
    }
    forall i, j | 1 <= i < j < |t|
      ensures |t[i]| > 0 && |t[j]| > 0 && t[i][0] != t[j][0]
    {
      assert t[i] == [order[i - 1]] + hashes[order[i - 1]];
      assert t[j] == [order[j - 1]] + hashes[order[j - 1]];
    }
  }

  /** One line of the summary sheet: the level name, its hashes, then the line break. */
  method AppendLevelRow(sb: string, key: string, hashes: seq<string>) returns (sb': string)
    ensures sb' == sb + RenderRow([key] + hashes, ',')
  {
    sb' := sb + key + ",";
    sb' := AppendCells(sb', hashes, ',');
    TerminatedCons(key, hashes, ',');
    sb' := sb' + NewLine;
  }

  /** The table `ExportMapsAsync` fills while it walks the games. */
  class HashTable {
    var levelHashes: map<string, seq<string>>
    var gameNames: seq<string>
    var currentGameIndex: nat

    /** The current game's column is the one after the finished games' names. */
    ghost predicate Valid()
      reads this
    {
      currentGameIndex == |gameNames|
    }

    /** The hashes recorded so far for `levelName`; none when it was never seen. */
    function HashesOf(levelName: string): seq<string>
      reads this
    {
      if levelName in levelHashes then levelHashes[levelName] else []
    }

    constructor ()
      ensures Valid()
      ensures levelHashes == map[] && gameNames == [] && currentGameIndex == 0
    {
      levelHashes := map[];
      gameNames := [];
      currentGameIndex := 0;
    }

    /** Records the hash of one level of the current game. */
    method RecordHash(levelName: string, hash: string)
      requires Valid()
      modifies this
      ensures Valid()
      ensures levelHashes == old(levelHashes)[levelName := Recorded(old(HashesOf(levelName)), currentGameIndex, hash)]
      ensures gameNames == old(gameNames) && currentGameIndex == old(currentGameIndex)
    {
      if levelName !in levelHashes {
        levelHashes := levelHashes[levelName := []];
      }
      var list := levelHashes[levelName];
      ghost var start := list;
      while |list| < currentGameIndex
        invariant |start| <= currentGameIndex ==> |list| <= currentGameIndex
        invariant |start| > currentGameIndex ==> |list| == |start|
        invariant list == start + seq(|list| - |start|, _ => "")
      {
        list := list + [""];
      }
      assert list == start + seq(if |start| < currentGameIndex then currentGameIndex - |start| else 0, _ => "");
      levelHashes := levelHashes[levelName := list[..currentGameIndex] + [hash] + list[currentGameIndex..]];
    }

    /** Closes the current game: its name becomes the next column. */
    method FinishGame(exportName: string)
      requires Valid()
      modifies this
      ensures Valid()
      ensures gameNames == old(gameNames) + [exportName]
      ensures currentGameIndex == old(currentGameIndex) + 1
      ensures levelHashes == old(levelHashes)
    {
      gameNames := gameNames + [exportName];
      currentGameIndex := currentGameIndex + 1;
    }

    /**
     * The summary CSV: "Level" and the game names, then one line per level
     * name in `order` (every key once, sorted by the culture's string
     * comparison, which is not modelled), each cell followed by ','.
     */
    method RenderSheet(order: seq<string>) returns (csv: string)
      requires ListsEveryKeyOnce(order, levelHashes)
      ensures csv == RenderTable(SheetRows(gameNames, order, levelHashes), ',')
    {
      ghost var rows := SheetRows(gameNames, order, levelHashes);
      var sb := "Level,";
      sb := AppendCells(sb, gameNames, ',');
      TerminatedCons("Level", gameNames, ',');
      sb := sb + NewLine;
      assert rows[..1] == [rows[0]];
      for r := 0 to |order|
        invariant sb == RenderTable(rows[..r + 1], ',')
      {
        var key := order[r];
        sb := AppendLevelRow(sb, key, levelHashes[key]);
        assert rows[..r + 2][..r + 1] == rows[..r + 1];
      }
      assert rows[..|order| + 1] == rows;
      csv := sb;
    }
  }
}
