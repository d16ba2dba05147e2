/**
 * `ScanBreakdownModel` (Source/View/Dialogs/scanBreakdownModel.cpp and the older
 * Source/Windows/scanBreakdownModel.cpp): a per-extension tally of the regular files of a
 * scan, turned into one table row per extension.
 */
module ScanBreakdown {
  import opened FileData
  import opened SizeUnits

  /** The key for files without an extension. */
  const NoExtension: string := "No Extension"

  function KeyOf(file: FileInfo): (key: string)
    ensures key != []
    ensures file.extension != [] ==> key == file.extension
  {
    if file.extension == [] then NoExtension else file.extension
  }

  datatype ExtensionTally = ExtensionTally(visibleCount: nat, totalCount: nat, visibleSize: nat, totalSize: nat)

  /** One table row; the formatted size and count strings are left out. */
  datatype RowModel = RowModel(fileExtension: string, visibleSize: nat, totalSize: nat, visibleCount: nat, totalCount: nat)

  const EmptyTally := ExtensionTally(0, 0, 0, 0)

  function RowOf(extension: string, tally: ExtensionTally): RowModel
  {
    RowModel(extension, tally.visibleSize, tally.totalSize, tally.visibleCount, tally.totalCount)
  }

  /** The visible share of every tally is part of its total. */
  ghost predicate VisibleWithinTotal(m: map<string, ExtensionTally>)
  {
    forall k :: k in m ==> m[k].visibleCount <= m[k].totalCount && m[k].visibleSize <= m[k].totalSize
  }

  /** A file passed to `Insert`, with whether it is currently visible. */
  datatype Insertion = Insertion(file: FileInfo, isVisible: bool)

  // ---------------------------------------------------------------------------------
  // The reference definition: what a sequence of insertions tallies
  // ---------------------------------------------------------------------------------

  /** What one `Insert` does to the map; `operator[]` starts a missing key at zeros. */
  function Tallied(m: map<string, ExtensionTally>, file: FileInfo, isVisible: bool): map<string, ExtensionTally>
  {
    if file.fileType != Regular then m
    else
      var key := KeyOf(file);
      var entry := if key in m then m[key] else EmptyTally;
      m[key := ExtensionTally(
        entry.visibleCount + (if isVisible then 1 else 0),
        entry.totalCount + 1,
        entry.visibleSize + (if isVisible then file.size else 0),
        entry.totalSize + file.size)]
  }

  function TalliedAll(m: map<string, ExtensionTally>, inserts: seq<Insertion>): map<string, ExtensionTally>
  {
    if inserts == [] then m
    else
      var last := inserts[|inserts| - 1];
      Tallied(TalliedAll(m, inserts[..|inserts| - 1]), last.file, last.isVisible)
  }

  /** The insertions of regular files under `key`, optionally only the visible ones. */
  function Counted(inserts: seq<Insertion>, key: string, visibleOnly: bool): (n: nat)
    ensures n <= |inserts|
  {
    if inserts == [] then 0
    else
      var last := inserts[|inserts| - 1];
      Counted(inserts[..|inserts| - 1], key, visibleOnly) +
      (if last.file.fileType == Regular && KeyOf(last.file) == key && (last.isVisible || !visibleOnly) then 1 else 0)
  }

  /** The bytes of the insertions of regular files under `key`, optionally only the visible ones. */
  function Summed(inserts: seq<Insertion>, key: string, visibleOnly: bool): nat
  {
    if inserts == [] then 0
    else
      var last := inserts[|inserts| - 1];
      Summed(inserts[..|inserts| - 1], key, visibleOnly) +
      (if last.file.fileType == Regular && KeyOf(last.file) == key && (last.isVisible || !visibleOnly) then last.file.size else 0)
  }

  /**
   * Starting from an empty map, a key is present exactly when some regular file was inserted
   * under it, and its tally counts and sums those files, all of them and the visible ones.
   */
  lemma {:induction false} TalliedAllCounts(inserts: seq<Insertion>, key: string)
    ensures key in TalliedAll(map[], inserts) <==> Counted(inserts, key, false) > 0
    ensures key in TalliedAll(map[], inserts) ==>
      TalliedAll(map[], inserts)[key] == ExtensionTally(
        Counted(inserts, key, true), Counted(inserts, key, false),
        Summed(inserts, key, true), Summed(inserts, key, false))
    decreases |inserts|
  {
    if inserts != [] {
      var init, last := inserts[..|inserts| - 1], inserts[|inserts| - 1];
      TalliedAllCounts(init, key);
      var before := TalliedAll(map[], init);
      assert TalliedAll(map[], inserts) == Tallied(before, last.file, last.isVisible);
      if last.file.fileType == Regular && KeyOf(last.file) == key && key !in before {
        assert Counted(init, key, true) == 0 by {
          CountedVisibleWithinAll(init, key);
        }
        SummedWithoutFiles(init, key);
      }
    }
  }

  lemma {:induction false} CountedVisibleWithinAll(inserts: seq<Insertion>, key: string)
    ensures Counted(inserts, key, true) <= Counted(inserts, key, false)
    ensures Summed(inserts, key, true) <= Summed(inserts, key, false)
    decreases |inserts|
  {
    if inserts != [] {
      CountedVisibleWithinAll(inserts[..|inserts| - 1], key);
    }
  }

  /** With no file under a key, nothing is summed under it. */
  lemma {:induction false} SummedWithoutFiles(inserts: seq<Insertion>, key: string)
    requires Counted(inserts, key, false) == 0
    ensures Summed(inserts, key, false) == 0 && Summed(inserts, key, true) == 0
    decreases |inserts|
  {
    if inserts != [] {
      SummedWithoutFiles(inserts[..|inserts| - 1], key);
    }
  }

  /** Every insertion keeps the visible share of each tally within its total. */
  lemma TalliedKeepsVisibleWithinTotal(m: map<string, ExtensionTally>, file: FileInfo, isVisible: bool)
    requires VisibleWithinTotal(m)
    ensures VisibleWithinTotal(Tallied(m, file, isVisible))
  {
  }

  /** Keys are never lost, and only regular files add keys. */
  lemma TalliedKeys(m: map<string, ExtensionTally>, file: FileInfo, isVisible: bool)
    ensures file.fileType != Regular ==> Tallied(m, file, isVisible) == m
    ensures file.fileType == Regular ==> Tallied(m, file, isVisible).Keys == m.Keys + {KeyOf(file)}
  {
  }

  /** The rows hold each key of the map once, with its tally copied. */
  ghost predicate RowsOf(rows: seq<RowModel>, m: map<string, ExtensionTally>)
  {
    && |rows| == |m|
    && (forall i :: 0 <= i < |rows| ==> rows[i].fileExtension in m && rows[i] == RowOf(rows[i].fileExtension, m[rows[i].fileExtension]))
    && (forall i, j :: 0 <= i < j < |rows| ==> rows[i].fileExtension != rows[j].fileExtension)
    && (forall k :: k in m ==> exists i :: 0 <= i < |rows| && rows[i].fileExtension == k)
  }

  class ScanBreakdownModel {
    var fileTypeMap: map<string, ExtensionTally>
    var fileTypeVector: seq<RowModel>
    var prefix: Prefix

    ghost predicate Valid()
      reads this
    {
      VisibleWithinTotal(fileTypeMap)
    }

    constructor()
      ensures Valid() && fileTypeMap == map[] && fileTypeVector == []
    {
      fileTypeMap := map[];
      fileTypeVector := [];
      prefix := Binary;
    }

    function RowCount(): int
      reads this
    {
      |fileTypeMap|
    }

    function ColumnCount(): int
    {
      5
    }

    /** Anything but a regular file is ignored; a regular file adds to its extension's tally. */
    method Insert(file: FileInfo, isVisible: bool)
      requires Valid()
      modifies this
      ensures Valid()
      ensures fileTypeMap == Tallied(old(fileTypeMap), file, isVisible)
      ensures fileTypeVector == old(fileTypeVector) && prefix == old(prefix)
    {
      if file.fileType != Regular {
        return;
      }
      var key := if file.extension == [] then NoExtension else file.extension;
      var entry := if key in fileTypeMap then fileTypeMap[key] else EmptyTally;
      entry := entry.(visibleSize := entry.visibleSize + (if isVisible then file.size else 0));
      entry := entry.(visibleCount := entry.visibleCount + (if isVisible then 1 else 0));
      entry := entry.(totalSize := entry.totalSize + file.size);
      entry := entry.(totalCount := entry.totalCount + 1);
      fileTypeMap := fileTypeMap[key := entry];
    }

    method ClearData()
      modifies this
      ensures Valid() && fileTypeMap == map[] && fileTypeVector == [] && prefix == old(prefix)
    {
      fileTypeMap := map[];
      fileTypeVector := [];
    }

    /** Fills the empty table with one row per extension, in the map's (unspecified) order. */
    method BuildModel(sizePrefix: Prefix)
      requires Valid()
      requires fileTypeMap != map[] && fileTypeVector == []
      modifies this`fileTypeVector, this`prefix
      ensures Valid() && prefix == sizePrefix
      ensures RowsOf(fileTypeVector, fileTypeMap)
      ensures |fileTypeVector| == RowCount()
    {
      prefix := sizePrefix;
      var remaining := fileTypeMap.Keys;
      while remaining != {}
        invariant prefix == sizePrefix
        invariant RowsExcept(fileTypeVector, fileTypeMap, remaining)
        decreases remaining
      {
        var extension :| extension in remaining;
        RowsExceptStep(fileTypeVector, fileTypeMap, remaining, extension);
        fileTypeVector := fileTypeVector + [RowOf(extension, fileTypeMap[extension])];
        remaining := remaining - {extension};
      }
    }
  }

  /** Mid-build: `rows` holds one row for each extension of `m` not in `remaining`, each once. */
  ghost predicate RowsExcept(rows: seq<RowModel>, m: map<string, ExtensionTally>, remaining: set<string>)
  {
    && remaining <= m.Keys
    && |rows| + |remaining| == |m|
    && (forall i :: 0 <= i < |rows| ==>
          rows[i].fileExtension in m && rows[i].fileExtension !in remaining &&
          rows[i] == RowOf(rows[i].fileExtension, m[rows[i].fileExtension]))
    && (forall i, j :: 0 <= i < j < |rows| ==> rows[i].fileExtension != rows[j].fileExtension)
    && (forall k :: k in m && k !in remaining ==> exists i :: 0 <= i < |rows| && rows[i].fileExtension == k)
  }

  /** Appending the row of one more extension takes it off the remaining ones. */
  lemma RowsExceptStep(rows: seq<RowModel>, m: map<string, ExtensionTally>, remaining: set<string>, extension: string)
    requires RowsExcept(rows, m, remaining) && extension in remaining
    ensures extension in m
    ensures RowsExcept(rows + [RowOf(extension, m[extension])], m, remaining - {extension})
  {
    var next := rows + [RowOf(extension, m[extension])];
    assert next[|rows|].fileExtension == extension;
    assert forall i :: 0 <= i < |rows| ==> next[i] == rows[i];
  }

  // ---------------------------------------------------------------------------------
  // The older model: a total size and an item count per extension
  // ---------------------------------------------------------------------------------

  datatype LegacyTally = LegacyTally(totalSize: nat, count: nat)

  datatype LegacyRowModel = LegacyRowModel(fileExtension: string, totalSize: nat, itemCount: nat)

  function LegacyTallied(m: map<string, LegacyTally>, file: FileInfo): map<string, LegacyTally>
  {
    if file.fileType != Regular then m
    else
      var key := KeyOf(file);
      var entry := if key in m then m[key] else LegacyTally(0, 0);
      m[key := LegacyTally(entry.totalSize + file.size, entry.count + 1)]
  }

  /** The older tally, projected from the newer one. */
  function Projected(m: map<string, ExtensionTally>): (r: map<string, LegacyTally>)
    ensures r.Keys == m.Keys
  {
    map k | k in m :: LegacyTally(m[k].totalSize, m[k].totalCount)
  }

  /** Tallying a file in the older model is tallying it in the newer one and dropping the visible share. */
  lemma LegacyAgreesWithNewer(m: map<string, ExtensionTally>, file: FileInfo, isVisible: bool)
    ensures LegacyTallied(Projected(m), file) == Projected(Tallied(m, file, isVisible))
  {
    if file.fileType == Regular {
      var key := KeyOf(file);
      var l, r := LegacyTallied(Projected(m), file), Projected(Tallied(m, file, isVisible));
      assert l.Keys == r.Keys;
      forall k | k in l
        ensures l[k] == r[k]
      {
      }
    }
  }

  class LegacyScanBreakdownModel {
    var fileTypeMap: map<string, LegacyTally>
    var fileTypeVector: seq<LegacyRowModel>

    constructor()
      ensures fileTypeMap == map[] && fileTypeVector == []
    {
      fileTypeMap := map[];
      fileTypeVector := [];
    }

    function RowCount(): int
      reads this
    {
      |fileTypeMap|
    }

    function ColumnCount(): int
    {
      3
    }

    method Insert(file: FileInfo)
      modifies this
      ensures fileTypeMap == LegacyTallied(old(fileTypeMap), file)
      ensures fileTypeVector == old(fileTypeVector)
    {
      if file.fileType != Regular {
        return;
      }
      if file.extension == [] {
        var entry := if NoExtension in fileTypeMap then fileTypeMap[NoExtension] else LegacyTally(0, 0);
        fileTypeMap := fileTypeMap[NoExtension := LegacyTally(entry.totalSize + file.size, entry.count + 1)];
      } else {
        var entry := if file.extension in fileTypeMap then fileTypeMap[file.extension] else LegacyTally(0, 0);
        fileTypeMap := fileTypeMap[file.extension := LegacyTally(entry.totalSize + file.size, entry.count + 1)];
      }
    }

    method ClearData()
      modifies this
      ensures fileTypeMap == map[] && fileTypeVector == []
    {
      fileTypeMap := map[];
      fileTypeVector := [];
    }

    /** Fills the empty table with one row per extension, in the map's (unspecified) order. */
    method Process(sizePrefix: Prefix)
      requires fileTypeMap != map[] && fileTypeVector == []
      modifies this
      ensures fileTypeMap == old(fileTypeMap) && |fileTypeVector| == RowCount()
      ensures forall i :: 0 <= i < |fileTypeVector| ==>
        fileTypeVector[i].fileExtension in fileTypeMap &&
        fileTypeVector[i].totalSize == fileTypeMap[fileTypeVector[i].fileExtension].totalSize &&
        fileTypeVector[i].itemCount == fileTypeMap[fileTypeVector[i].fileExtension].count
      ensures forall i, j :: 0 <= i < j < |fileTypeVector| ==> fileTypeVector[i].fileExtension != fileTypeVector[j].fileExtension
      ensures forall k :: k in fileTypeMap ==> exists i :: 0 <= i < |fileTypeVector| && fileTypeVector[i].fileExtension == k
    {
      var remaining := fileTypeMap.Keys;
      while remaining != {}
        invariant remaining <= fileTypeMap.Keys
        invariant fileTypeMap == old(fileTypeMap)
        invariant |fileTypeVector| + |remaining| == |fileTypeMap|
        invariant forall i :: 0 <= i < |fileTypeVector| ==>
          fileTypeVector[i].fileExtension in fileTypeMap && fileTypeVector[i].fileExtension !in remaining &&
          fileTypeVector[i].totalSize == fileTypeMap[fileTypeVector[i].fileExtension].totalSize &&
          fileTypeVector[i].itemCount == fileTypeMap[fileTypeVector[i].fileExtension].count
        invariant forall i, j :: 0 <= i < j < |fileTypeVector| ==> fileTypeVector[i].fileExtension != fileTypeVector[j].fileExtension
        invariant forall k :: k in fileTypeMap && k !in remaining ==>
          exists i :: 0 <= i < |fileTypeVector| && fileTypeVector[i].fileExtension == k
        decreases remaining
      {
        var extension :| extension in remaining;
        var tally := fileTypeMap[extension];
        ghost var rows := fileTypeVector;
        fileTypeVector := fileTypeVector + [LegacyRowModel(extension, tally.totalSize, tally.count)];
        remaining := remaining - {extension};
        assert fileTypeVector[|rows|].fileExtension == extension;
        assert forall i :: 0 <= i < |rows| ==> fileTypeVector[i] == rows[i];
      }
    }
  }
}
