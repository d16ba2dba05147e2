/**
 * What every node of the file tree carries (`VizBlock`): the scanned file, the block drawn
 * for it and the bounding box around it and everything stacked on it; and the
 * visualisation parameters that decide which nodes are shown, highlighted or searched.
 */
module FileData {
  import opened Blocks

  datatype FileType = Regular | Directory

  /** `FileInfo`: the name without its extension, the extension (dot included) and the size. */
  datatype FileInfo = FileInfo(name: string, extension: string, size: nat, fileType: FileType)

  /** The geometry of a `Block` as a node holds it: origin and extents. */
  datatype Cuboid = Cuboid(origin: Point, width: real, height: real, depth: real)

  datatype VizBlock = VizBlock(file: FileInfo, block: Cuboid, boundingBox: Cuboid)

  /** The data of a head that stands for "no tree yet": an empty directory with no geometry. */
  const EmptyHead: VizBlock := VizBlock(FileInfo([], [], 0, Directory),
                                        Cuboid(Point(0.0, 0.0, 0.0), 0.0, 0.0, 0.0),
                                        Cuboid(Point(0.0, 0.0, 0.0), 0.0, 0.0, 0.0))

  /** `Settings::VisualizationParameters`. */
  datatype VisualizationParameters = VisualizationParameters(
    rootDirectory: string,
    minimumFileSize: nat,
    onlyShowDirectories: bool,
    useDirectoryGradient: bool,
    forceNewScan: bool)

  /**
   * The filter shared by the highlight passes and the settings' visibility checks: a node is
   * skipped when it is too small, or when only directories are shown and it is not one.
   */
  predicate IsShown(file: FileInfo, parameters: VisualizationParameters)
  {
    !((parameters.onlyShowDirectories && file.fileType != Directory) || file.size < parameters.minimumFileSize)
  }

  /** The name a node is looked up and searched by: name and extension together. */
  function FullName(file: FileInfo): string
  {
    file.name + file.extension
  }

  /** Lower-casing of one character; only the ASCII capitals change. */
  function LowerChar(c: char): (r: char)
    ensures 'A' <= c <= 'Z' ==> 'a' <= r <= 'z' && r as int - c as int == 'a' as int - 'A' as int
    ensures !('A' <= c <= 'Z') ==> r == c
  {
    if 'A' <= c <= 'Z' then (c as int - 'A' as int + 'a' as int) as char else c
  }

  function Lower(s: string): (r: string)
    ensures |r| == |s| && forall i :: 0 <= i < |s| ==> r[i] == LowerChar(s[i])
  {
    seq(|s|, i requires 0 <= i < |s| => LowerChar(s[i]))
  }

  /** Lower-casing twice changes nothing more. */
  lemma LowerIdempotent(s: string)
    ensures Lower(Lower(s)) == Lower(s)
  {
    assert forall i :: 0 <= i < |s| ==> LowerChar(LowerChar(s[i])) == LowerChar(s[i]);
  }

  /** Does `query` occur in `s` at position `i`? */
  predicate OccursAt(s: string, query: string, i: nat)
  {
    i + |query| <= |s| && s[i..i + |query|] == query
  }

  /** `boost::contains(s, query)`: `query` occurs somewhere in `s`. */
  predicate Contains(s: string, query: string)
  {
    exists i: nat :: i <= |s| && OccursAt(s, query, i)
  }

  /** The empty query is found in every name. */
  lemma EmptyQueryFound(s: string)
    ensures Contains(s, "")
  {
    assert OccursAt(s, "", 0);
  }

  /** Case-insensitive containment (`boost::icontains`) is containment after lower-casing both sides. */
  predicate ContainsIgnoringCase(s: string, query: string)
  {
    Contains(Lower(s), Lower(query))
  }

  /** A case-sensitive match is also a case-insensitive one. */
  lemma ContainsIgnoringCaseWeaker(s: string, query: string)
    requires Contains(s, query)
    ensures ContainsIgnoringCase(s, query)
  {
    var i: nat :| i <= |s| && OccursAt(s, query, i);
    assert Lower(s)[i..i + |query|] == Lower(query);
    assert OccursAt(Lower(s), Lower(query), i);
  }
}
