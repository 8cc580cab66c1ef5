/**
 * The scripts extractor: the name of each exported script file, the name
 * of the world-map script, and the tab-separated world-map sheet built
 * from the decoded world map and text table.
 */
module ScriptsExtractor {
  import opened Common
  import opened Text
  import opened Sheets
  import DataExtractor

  // ---------------------------------------------------------------------
  // Engine version and archive path

  /** This tool only tells PS1 (a SYSTEM.CNF in the source folder) from the educational PC release. */
  function ScriptsEngineVersion(files: set<string>): (v: DataExtractor.EngineVersion)
    ensures v == DataExtractor.PS1_Edu || v == DataExtractor.PC_Edu
    ensures v == DataExtractor.PS1_Edu <==> "SYSTEM.CNF" in files
  {
    if "SYSTEM.CNF" in files then DataExtractor.PS1_Edu else DataExtractor.PC_Edu
  }

  /**
   * The two tools agree on PS1, and agree everywhere on folders without the
   * kit or fan-edition executables.
   */
  lemma EngineVersionsAgree(files: set<string>)
    ensures ScriptsEngineVersion(files) == DataExtractor.PS1_Edu <==>
      DataExtractor.DetectEngineVersion(files) == DataExtractor.PS1_Edu
    ensures (forall f | f in files :: DataExtractor.MarkerVersion(f) != Some(DataExtractor.PC_Kit) &&
                                      DataExtractor.MarkerVersion(f) != Some(DataExtractor.PC_Fan)) ==>
      ScriptsEngineVersion(files) == DataExtractor.DetectEngineVersion(files)
  {
    DataExtractor.DetectPicksBestMarker(files);
  }

  /** The COMMON.DAT path, relative to the source folder. */
  function CommonArchivePath(isPs1: bool, version: string): (p: seq<string>)
    ensures |p| == (if isPs1 then 3 else 2)
    ensures p[0] == "PCMAP" && p[|p| - 1] == "COMMON.DAT"
    ensures isPs1 ==> p[1] == version
  {
    if isPs1 then ["PCMAP", version, "COMMON.DAT"] else ["PCMAP", "COMMON.DAT"]
  }

  /**
   * Both tools read COMMON.DAT from the same place below the game folder,
   * given the same volume string. The data extractor upper-cases the volume
   * folder's name and the scripts extractor does not, so for a folder not
   * named in upper case the paths agree only up to letter case.
   */
  lemma CommonArchivePathsAgree(src: string, files: set<string>, version: string)
    ensures var v := ScriptsEngineVersion(files);
      [src] + CommonArchivePath(v == DataExtractor.PS1_Edu, version) == DataExtractor.CommonArchivePath(src, version, v)
  {
  }

  // ---------------------------------------------------------------------
  // Output names

  /** `{name}.json` for the shared VERSION script, `{version} - {name}.json` for a volume's scripts. */
  function OutputName(name: string, version: Option<string>): (fileName: string)
    ensures |fileName| == (if version.Some? then |version.value| + 3 else 0) + |name| + 5
    ensures fileName[|fileName| - 5..] == ".json"
    ensures fileName[|fileName| - 5 - |name|..|fileName| - 5] == name
    ensures version.Some? ==> fileName[..|version.value| + 3] == version.value + " - "
  {
    match version
    case None => name + ".json"
    case Some(v) => v + " - " + name + ".json"
  }

  /**
   * Within one volume different scripts get different files, and one script
   * gets a different file in every volume.
   */
  lemma OutputNamesDistinct(name1: string, name2: string, v1: Option<string>, v2: Option<string>)
    requires OutputName(name1, v1) == OutputName(name2, v2)
    ensures v1 == v2 ==> name1 == name2
    ensures name1 == name2 && v1.Some? && v2.Some? ==> v1 == v2
  {
    var f := OutputName(name1, v1);
    if name1 == name2 && v1.Some? && v2.Some? {
      assert v1.value + " - " == f[..|v1.value| + 3] == v2.value + " - ";
      assert v1.value == (v1.value + " - ")[..|v1.value|];
    }
  }

  /** `WLDMAP{n:00}`: the world-map script named by the general script's world-map number. */
  function WorldMapName(n: nat): (name: string)
    ensures |name| >= 8 && name[..6] == "WLDMAP"
    ensures forall k | 6 <= k < |name| :: IsDigit(name[k])
  {
    "WLDMAP" + TwoDigitString(n)
  }

  /** The number reads back from the name, which is eight characters long for numbers below 100. */
  lemma WorldMapNameReadsBack(n: nat)
    ensures DecimalValue(WorldMapName(n)[6..]) == n
    ensures n < 100 <==> |WorldMapName(n)| == 8
  {
    assert WorldMapName(n)[6..] == TwoDigitString(n);
    TwoDigitRoundTrip(n);
  }

  /** The sheet file `{version} - WLDMAP{n:00}.csv`. */
  function WorldMapSheetName(version: string, n: nat): (fileName: string)
    ensures |fileName| == |version| + 3 + |WorldMapName(n)| + 4
    ensures fileName[|fileName| - 4..] == ".csv"
    ensures fileName[..|version| + 3] == version + " - "
    ensures fileName[|version| + 3..|fileName| - 4] == WorldMapName(n)
  {
    version + " - " + WorldMapName(n) + ".csv"
  }

  // ---------------------------------------------------------------------
  // The world map

  /** One entry of a level link list; only its first variant is shown. */
  datatype LevelLinkEntry = LevelLinkEntry(levelVariants: seq<Option<string>>)

  /**
   * One location on the world map. Names are indices into the text table;
   * the type is shown by its enumeration name; a variant is shown by its
   * text form, and `None` stands for null.
   */
  datatype WorldInfo = WorldInfo(
    xPosition: int,
    worldName: int,
    levelName: int,
    typeName: string,
    world: nat,
    livesCount: nat,
    levelLinks: seq<seq<LevelLinkEntry>>,
    levelVariants: seq<seq<Option<string>>>,
    runningDemo: Option<nat>)

  const Header: seq<string> := ["Name", "Description", "Type", "World", "Lives",
    "Level 1", "Level 2", "Level 3", "Level 4", "Level 5", "Demo level"]

  /** Number of level link columns. */
  const LinkColumns: nat := 5

  /** A text table lookup, which raises outside the table. */
  function NameCell(text: seq<string>, i: int): (r: Result<string>)
    ensures r.Failure? <==> !(0 <= i < |text|)
    ensures r.Failure? ==> r.error == IndexOutOfRange
    ensures r.Success? ==> '/' !in r.value && r.value == RemoveChar(text[i], '/')
  {
    if 0 <= i < |text| then Success(RemoveChar(text[i], '/')) else Failure(IndexOutOfRange)
  }

  /** `String.Join` renders a null item as the empty string. */
  function VariantText(v: Option<string>): string {
    match v
    case None => ""
    case Some(s) => s
  }

  /** The first variant of every entry of a link list, in list order. */
  function FirstVariants(links: seq<LevelLinkEntry>): seq<string>
    requires forall j | 0 <= j < |links| :: |links[j].levelVariants| > 0
  {
    seq(|links|, j requires 0 <= j < |links| => VariantText(links[j].levelVariants[0]))
  }

  /** Link list `i` joined by spaces; raises when the list or an entry's first variant is missing. */
  function LinkCell(info: WorldInfo, i: nat): (r: Result<string>)
    ensures r.Failure? <==>
              i >= |info.levelLinks| ||
              exists j | 0 <= j < |info.levelLinks[i]| :: |info.levelLinks[i][j].levelVariants| == 0
    ensures r.Failure? ==> r.error == IndexOutOfRange
  {
    if i >= |info.levelLinks| then Failure(IndexOutOfRange)
    else
      var links := info.levelLinks[i];
      if exists j | 0 <= j < |links| :: |links[j].levelVariants| == 0 then Failure(IndexOutOfRange)
      else Success(Join(" ", FirstVariants(links)))
  }

  /** The first `n` link columns, stopping at the first one that raises. */
  function LinkCells(info: WorldInfo, n: nat): (r: Result<seq<string>>)
    ensures r.Success? ==> |r.value| == n
  {
    if n == 0 then Success([])
    else
      var prev := LinkCells(info, n - 1);
      if prev.Failure? then prev
      else
        var cell := LinkCell(info, n - 1);
        if cell.Failure? then Failure(cell.error) else Success(prev.value + [cell.value])
  }

  /** Some level variant is set: this tool cannot show those. */
  predicate HasLevelVariation(info: WorldInfo) {
    exists i, j | 0 <= i < |info.levelVariants| && 0 <= j < |info.levelVariants[i]| ::
      info.levelVariants[i][j].Some?
  }

  /** The demo level's number, or empty when there is no running demo. */
  function DemoCell(demo: Option<nat>): string {
    match demo
    case None => ""
    case Some(level) => DecimalString(level)
  }

  /** The cells of one shown entry, or the exception its evaluation raises first. */
  function Row(info: WorldInfo, text: seq<string>): (r: Result<seq<string>>)
    ensures r.Success? ==> |r.value| == |Header| && !HasLevelVariation(info)
  {
    var name := NameCell(text, info.worldName);
    if name.Failure? then Failure(name.error)
    else
      var description := NameCell(text, info.levelName);
      if description.Failure? then Failure(description.error)
      else
        var links := LinkCells(info, LinkColumns);
        if links.Failure? then Failure(links.error)
        else if HasLevelVariation(info) then Failure(LevelVariations)
        else
          Success([name.value, description.value, info.typeName, DecimalString(info.world),
                   DecimalString(info.livesCount)] + links.value + [DemoCell(info.runningDemo)])
  }

  /** The entries that get a row: those not at x position 0. */
  function Shown(infos: seq<WorldInfo>): (shown: seq<WorldInfo>)
    ensures |shown| <= |infos|
    ensures forall k | 0 <= k < |shown| :: shown[k].xPosition != 0 && shown[k] in infos
  {
    if |infos| == 0 then []
    else
      var init := Shown(infos[..|infos| - 1]);
      var last := infos[|infos| - 1];
      if last.xPosition == 0 then init else init + [last]
  }

  /** The positions of the entries that get a row, in increasing order. */
  function ShownPositions(infos: seq<WorldInfo>): (ps: seq<nat>)
    ensures forall k | 0 <= k < |ps| :: ps[k] < |infos| && infos[ps[k]].xPosition != 0
    ensures forall a, b | 0 <= a < b < |ps| :: ps[a] < ps[b]
    ensures forall i | 0 <= i < |infos| && infos[i].xPosition != 0 :: i in ps
  {
    if |infos| == 0 then []
    else
      var init := ShownPositions(infos[..|infos| - 1]);
      if infos[|infos| - 1].xPosition == 0 then init else init + [|infos| - 1]
  }

  /**
   * The shown entries are exactly the entries at non-zero x position, in
   * map order: entry k is the one at the k-th such position.
   */
  lemma {:induction false} ShownInOrder(infos: seq<WorldInfo>)
    ensures |Shown(infos)| == |ShownPositions(infos)|
    ensures forall k | 0 <= k < |Shown(infos)| :: Shown(infos)[k] == infos[ShownPositions(infos)[k]]
  {
    if |infos| > 0 {
      var init, last := infos[..|infos| - 1], infos[|infos| - 1];
      ShownInOrder(init);
      var shown, ps := Shown(init), ShownPositions(init);
      forall k | 0 <= k < |ps|
        ensures init[ps[k]] == infos[ps[k]]
      {
      }
      if last.xPosition != 0 {
        assert Shown(infos) == shown + [last];
        assert ShownPositions(infos) == ps + [|infos| - 1];
      } else {
        assert Shown(infos) == shown;
        assert ShownPositions(infos) == ps;
      }
    }
  }

  /** The data rows for the entries in order, or the first exception. */
  function SheetRows(infos: seq<WorldInfo>, text: seq<string>): (r: Result<seq<seq<string>>>)
    ensures r.Success? ==> |r.value| == |Shown(infos)|
  {
    if |infos| == 0 then Success([])
    else
      var prev := SheetRows(infos[..|infos| - 1], text);
      var last := infos[|infos| - 1];
      if prev.Failure? || last.xPosition == 0 then prev
      else
        var row := Row(last, text);
        if row.Failure? then Failure(row.error) else Success(prev.value + [row.value])
  }

  /** The whole sheet: the header line, then one line per shown entry. */
  function WorldMapSheet(infos: seq<WorldInfo>, text: seq<string>): (r: Result<string>)
    ensures r.Success? <==> SheetRows(infos, text).Success?
    ensures r.Success? ==> var head := RenderRow(Header, '\t');
      |r.value| >= |head| && r.value[..|head|] == head
  {
    var rows := SheetRows(infos, text);
    if rows.Failure? then Failure(rows.error)
    else
      RenderTableStartsWithFirstRow([Header] + rows.value, '\t');
      Success(RenderTable([Header] + rows.value, '\t'))
  }

  // ---------------------------------------------------------------------
  // Building the sheet

  /** `CreateWorldMapSheet`: walks the map entries, writing a line for each shown one. */
  method CreateWorldMapSheet(mapDefine: seq<WorldInfo>, text: seq<string>) returns (r: Result<string>)
    ensures r == WorldMapSheet(mapDefine, text)
  {
    var sb := AppendCells("", Header, '\t');
    sb := sb + NewLine;
    ghost var rows: seq<seq<string>> := [];
    assert [Header] + rows == [Header];
    for k := 0 to |mapDefine|
      invariant SheetRows(mapDefine[..k], text) == Success(rows)
      invariant sb == RenderTable([Header] + rows, '\t')
    {
      SheetRowsStep(mapDefine, k, text);
      var info := mapDefine[k];
      if info.xPosition == 0 {
        continue;
      }
      var line := WriteRow(info, text);
      if line.Failure? {
        SheetRowsFailurePersists(mapDefine, k + 1, text);
        return Failure(line.error);
      }
      RenderTableSnoc([Header] + rows, Row(info, text).value, '\t');
      assert [Header] + (rows + [Row(info, text).value]) == [Header] + rows + [Row(info, text).value];
      sb := sb + line.value;
      rows := rows + [Row(info, text).value];
    }
    assert mapDefine[..|mapDefine|] == mapDefine;
    return Success(sb);
  }

  /** The rows of one more entry, from those of the entries before it. */
  lemma SheetRowsStep(infos: seq<WorldInfo>, k: nat, text: seq<string>)
    requires k < |infos|
    ensures SheetRows(infos[..k + 1], text) ==
      var prev := SheetRows(infos[..k], text);
      if prev.Failure? || infos[k].xPosition == 0 then prev
      else if Row(infos[k], text).Failure? then Failure(Row(infos[k], text).error)
      else Success(prev.value + [Row(infos[k], text).value])
  {
    assert infos[..k + 1][..k] == infos[..k];
  }

  /** Once the entries so far raise, the whole map raises the same exception. */
  lemma {:induction false} SheetRowsFailurePersists(infos: seq<WorldInfo>, k: nat, text: seq<string>)
    requires k <= |infos| && SheetRows(infos[..k], text).Failure?
    ensures SheetRows(infos, text) == SheetRows(infos[..k], text)
    decreases |infos| - k
  {
    if k < |infos| {
      SheetRowsStep(infos, k, text);
      SheetRowsFailurePersists(infos, k + 1, text);
    } else {
      assert infos[..k] == infos;
    }
  }

  /** The body of the loop for one shown entry: its line, or the exception it raises. */
  method WriteRow(info: WorldInfo, text: seq<string>) returns (r: Result<string>)
    ensures Row(info, text).Failure? <==> r.Failure?
    ensures r.Failure? ==> r.error == Row(info, text).error
    ensures r.Success? ==> r.value == RenderRow(Row(info, text).value, '\t')
  {
    if !(0 <= info.worldName < |text|) {
      return Failure(IndexOutOfRange);
    }
    if !(0 <= info.levelName < |text|) {
      return Failure(IndexOutOfRange);
    }
    var cells := [RemoveChar(text[info.worldName], '/'), RemoveChar(text[info.levelName], '/'),
                  info.typeName, DecimalString(info.world), DecimalString(info.livesCount)];
    assert cells[5..] == [];
    for i := 0 to LinkColumns
      invariant |cells| == 5 + i
      invariant LinkCells(info, i) == Success(cells[5..])
      invariant cells[..5] == [RemoveChar(text[info.worldName], '/'), RemoveChar(text[info.levelName], '/'),
                               info.typeName, DecimalString(info.world), DecimalString(info.livesCount)]
    {
      var lvls := LinkCell(info, i);
      if lvls.Failure? {
        LinkCellsOutcome(info, LinkColumns);
        return Failure(IndexOutOfRange);
      }
      assert (cells + [lvls.value])[5..] == cells[5..] + [lvls.value];
      cells := cells + [lvls.value];
    }
    if HasLevelVariation(info) {
      return Failure(LevelVariations);
    }
    assert Row(info, text).value == cells[..5] + cells[5..] + [DemoCell(info.runningDemo)];
    assert cells[..5] + cells[5..] == cells;
    cells := cells + [DemoCell(info.runningDemo)];
    var sb := AppendCells("", cells, '\t');
    assert "" + Terminated(cells, '\t') == Terminated(cells, '\t');
    return Success(sb + NewLine);
  }

  // ---------------------------------------------------------------------
  // What the sheet holds

  /**
   * A row is produced exactly when the names are in the table, there are
   * five link lists whose entries all have a first variant, and no level
   * variant is set; index errors are raised before the variant check.
   */
  lemma RowOutcome(info: WorldInfo, text: seq<string>)
    ensures var indexError :=
        !(0 <= info.worldName < |text|) || !(0 <= info.levelName < |text|) ||
        exists i | 0 <= i < LinkColumns :: LinkCell(info, i).Failure?;
      (Row(info, text).Failure? <==> indexError || HasLevelVariation(info)) &&
      (Row(info, text).Failure? ==>
         Row(info, text).error == (if indexError then IndexOutOfRange else LevelVariations))
  {
    LinkCellsOutcome(info, LinkColumns);
  }

  /** The link columns raise exactly when one of them does. */
  lemma {:induction false} LinkCellsOutcome(info: WorldInfo, n: nat)
    ensures LinkCells(info, n).Failure? <==> exists i | 0 <= i < n :: LinkCell(info, i).Failure?
    ensures LinkCells(info, n).Failure? ==> LinkCells(info, n).error == IndexOutOfRange
    ensures LinkCells(info, n).Success? ==>
      forall i | 0 <= i < n :: LinkCell(info, i).Success? && LinkCells(info, n).value[i] == LinkCell(info, i).value
  {
    if n > 0 {
      LinkCellsOutcome(info, n - 1);
    }
  }

  /**
   * A produced row has the eleven columns of the header: names without
   * '/', the type, world and lives, the five link lists joined by spaces in
   * list order, and the demo level, empty when there is none.
   */
  lemma RowCells(info: WorldInfo, text: seq<string>)
    requires Row(info, text).Success?
    ensures var cells := Row(info, text).value;
      |cells| == |Header| == 11 &&
      '/' !in cells[0] && '/' !in cells[1] &&
      cells[0] == RemoveChar(text[info.worldName], '/') &&
      cells[1] == RemoveChar(text[info.levelName], '/') &&
      cells[2] == info.typeName &&
      DecimalValue(cells[3]) == info.world && DecimalValue(cells[4]) == info.livesCount &&
      |info.levelLinks| >= LinkColumns &&
      (forall i | 0 <= i < LinkColumns ::
        (forall j | 0 <= j < |info.levelLinks[i]| :: |info.levelLinks[i][j].levelVariants| > 0) &&
        cells[5 + i] == Join(" ", FirstVariants(info.levelLinks[i]))) &&
      (cells[10] == "" <==> info.runningDemo.None?)
  {
    LinkCellsOutcome(info, LinkColumns);
    DecimalRoundTrip(info.world);
    DecimalRoundTrip(info.livesCount);
  }

  /** The rows are those of the shown entries, in order, when every shown entry yields one. */
  lemma {:induction false} RowsOfShownEntries(infos: seq<WorldInfo>, text: seq<string>)
    ensures var rows := SheetRows(infos, text); var shown := Shown(infos);
      rows.Success? <==> forall k | 0 <= k < |shown| :: Row(shown[k], text).Success?
    ensures var rows := SheetRows(infos, text); var shown := Shown(infos);
      rows.Success? ==>
        |rows.value| == |shown| && forall k | 0 <= k < |shown| :: rows.value[k] == Row(shown[k], text).value
  {
    if |infos| > 0 {
      var init, last := infos[..|infos| - 1], infos[|infos| - 1];
      RowsOfShownEntries(init, text);
      var prev, shownBefore := SheetRows(init, text), Shown(init);
      if last.xPosition != 0 {
        var shown := Shown(infos);
        assert shown == shownBefore + [last];
        if prev.Failure? {
          var k :| 0 <= k < |shownBefore| && Row(shownBefore[k], text).Failure?;
          assert Shown(infos)[k] == shownBefore[k];
          assert Row(Shown(infos)[k], text).Failure?;
          assert SheetRows(infos, text).Failure?;
        } else if Row(last, text).Failure? {
          assert Shown(infos)[|shownBefore|] == last;
          assert SheetRows(infos, text).Failure?;
        } else {
          assert SheetRows(infos, text).value == prev.value + [Row(last, text).value];
          forall k | 0 <= k < |shown|
            ensures Row(shown[k], text).Success?
          {
            if k < |shownBefore| {
              assert shown[k] == shownBefore[k];
            }
          }
        }
      } else {
        assert Shown(infos) == shownBefore && SheetRows(infos, text) == prev;
      }
    }
  }

  /** A failing sheet fails with the exception of its first failing shown entry. */
  lemma {:induction false} FirstFailureWins(infos: seq<WorldInfo>, text: seq<string>)
    requires SheetRows(infos, text).Failure?
    ensures var shown := Shown(infos);
      exists k | 0 <= k < |shown| ::
        Row(shown[k], text).Failure? && SheetRows(infos, text).error == Row(shown[k], text).error &&
        forall m | 0 <= m < k :: Row(shown[m], text).Success?
  {
    var init, last := infos[..|infos| - 1], infos[|infos| - 1];
    var prev, shownBefore := SheetRows(init, text), Shown(init);
    SheetRowsStep(infos, |infos| - 1, text);
    assert infos[..|infos|] == infos;
    if prev.Failure? {
      FirstFailureWins(init, text);
      var k :| 0 <= k < |shownBefore| &&
        Row(shownBefore[k], text).Failure? && prev.error == Row(shownBefore[k], text).error &&
        forall m | 0 <= m < k :: Row(shownBefore[m], text).Success?;
      assert Shown(infos)[..|shownBefore|] == shownBefore;
      assert Shown(infos)[k] == shownBefore[k];
    } else {
      RowsOfShownEntries(init, text);
      assert Shown(infos) == shownBefore + [last];
      assert Shown(infos)[|shownBefore|] == last;
    }
  }

  /**
   * Reading the sheet back gives the header's eleven names and then the
   * rows, as long as no cell holds a tab or a line feed.
   */
  lemma SheetReadsBack(infos: seq<WorldInfo>, text: seq<string>)
    requires SheetRows(infos, text).Success?
    requires PlainCells([Header] + SheetRows(infos, text).value, '\t')
    ensures var t := ParseTable(WorldMapSheet(infos, text).value, '\t');
      |t| == 1 + |Shown(infos)| && t[0] == Header && t[1..] == SheetRows(infos, text).value
  {
    RowsOfShownEntries(infos, text);
    TableRoundTrip([Header] + SheetRows(infos, text).value, '\t');
  }
}
