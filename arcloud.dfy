/** The read side of the ArDrive CLI `sync` table.

    The table is an append-only log: one row per historical state of a file
    or folder, keyed by the entity's stable `fileId`. The row with the
    largest `unixTime` for a `fileId` is that entity's current state; every
    other row for it is stale. The table is an immutable sequence of rows.
    SQL leaves the order of a query without ORDER BY open; in this model
    such a query yields its rows in table order. */
module ArCloud {
  import opened Wrappers
  import opened Names

  type FileId = string

  /** One row of the `sync` table. `parentFolderId` is NULL (None) for the
      drive root. */
  datatype Row = Row(
    id: int,
    fileId: FileId,
    unixTime: int,
    entityType: string,
    fileName: string,
    filePath: string,
    parentFolderId: Option<FileId>)

  // ---------------------------------------------------------------------
  // getLatestForId

  /** `SELECT ... WHERE fileId = ? ORDER BY unixTime DESC LIMIT 1`.
      Among several rows of maximal time, the first one in table order is
      returned (`LatestIsFirstMaximal`). */
  function LatestForId(table: seq<Row>, fileId: FileId): (r: Option<Row>)
    ensures r.None? <==> forall k :: 0 <= k < |table| ==> table[k].fileId != fileId
    ensures r.Some? ==> r.value in table && r.value.fileId == fileId
    ensures r.Some? ==>
      forall k :: 0 <= k < |table| && table[k].fileId == fileId ==> table[k].unixTime <= r.value.unixTime
  {
    if table == [] then None
    else
      var rest := LatestForId(table[1..], fileId);
      if table[0].fileId != fileId then rest
      else if rest.Some? && rest.value.unixTime > table[0].unixTime then rest
      else Some(table[0])
  }

  /** The tie-break: no row of the entity before the returned one has the
      same time. */
  lemma {:induction false} LatestIsFirstMaximal(table: seq<Row>, fileId: FileId)
    requires LatestForId(table, fileId).Some?
    ensures var r := LatestForId(table, fileId).value;
      exists k :: 0 <= k < |table| && table[k] == r &&
        forall j :: 0 <= j < k && table[j].fileId == fileId ==> table[j].unixTime < r.unixTime
  {
    var r := LatestForId(table, fileId).value;
    var rest := LatestForId(table[1..], fileId);
    if table[0] == r && table[0].fileId == fileId && (rest.None? || rest.value.unixTime <= table[0].unixTime) {
      assert table[0] == r;
    } else {
      assert rest == Some(r);
      LatestIsFirstMaximal(table[1..], fileId);
      var k :| 0 <= k < |table[1..]| && table[1..][k] == r &&
        forall j :: 0 <= j < k && table[1..][j].fileId == fileId ==> table[1..][j].unixTime < r.unixTime;
      assert table[k + 1] == r;
      forall j | 0 <= j < k + 1 && table[j].fileId == fileId
        ensures table[j].unixTime < r.unixTime
      {
        if j > 0 {
          assert table[j] == table[1..][j - 1];
        }
      }
    }
  }

  /** Appending a row that is later than every row of its entity makes it
      that entity's current state: the latest row wins. */
  lemma {:induction false} AppendLaterBecomesCurrent(table: seq<Row>, row: Row)
    requires forall k :: 0 <= k < |table| && table[k].fileId == row.fileId ==> table[k].unixTime < row.unixTime
    ensures LatestForId(table + [row], row.fileId) == Some(row)
  {
    if table != [] {
      assert (table + [row])[1..] == table[1..] + [row];
      AppendLaterBecomesCurrent(table[1..], row);
    }
  }

  /** Appending a row of one entity leaves the current state of every other
      entity as it was. */
  lemma {:induction false} AppendKeepsOthers(table: seq<Row>, row: Row, fileId: FileId)
    requires row.fileId != fileId
    ensures LatestForId(table + [row], fileId) == LatestForId(table, fileId)
  {
    if table != [] {
      assert (table + [row])[1..] == table[1..] + [row];
      AppendKeepsOthers(table[1..], row, fileId);
    }
  }

  // ---------------------------------------------------------------------
  // getIdForPath

  /** The current row of `fileId` exists and records `path`. */
  predicate HasCurrentPath(table: seq<Row>, fileId: FileId, path: string) {
    var current := LatestForId(table, fileId);
    current.Some? && current.value.filePath == path
  }

  /** Scans the rows whose `filePath` is `path` and returns the `fileId` of
      the first one whose entity still has that path in its current row. */
  method GetIdForPath(table: seq<Row>, path: string) returns (r: Option<FileId>)
    ensures r.Some? ==> HasCurrentPath(table, r.value, path)
    ensures r.None? <==> forall fileId :: !HasCurrentPath(table, fileId, path)
    ensures r.Some? ==>
      exists k :: 0 <= k < |table| && table[k].filePath == path && table[k].fileId == r.value &&
        forall j :: 0 <= j < k && table[j].filePath == path ==> !HasCurrentPath(table, table[j].fileId, path)
  {
    for i := 0 to |table|
      invariant forall j :: 0 <= j < i && table[j].filePath == path ==> !HasCurrentPath(table, table[j].fileId, path)
    {
      if table[i].filePath == path {
        var data := LatestForId(table, table[i].fileId);
        if data.value.filePath == path {
          assert HasCurrentPath(table, table[i].fileId, path);
          return Some(table[i].fileId);
        }
      }
    }
    return None;
  }

  /** An entity moved from `/x` to `/y`: its stale row still records `/x`,
      but only its current row, at `/y`, counts. */
  lemma MovedEntityResolvesToNewPath(root: FileId, e: FileId)
    ensures var table := [Row(1, e, 1, "file", "x", "/x", Some(root)),
                          Row(2, e, 2, "file", "y", "/y", Some(root))];
      && !HasCurrentPath(table, e, "/x")
      && HasCurrentPath(table, e, "/y")
      && forall fileId :: !HasCurrentPath(table, fileId, "/x")
  {
  }

  /** Path resolution on the moved entity: `/x` resolves to nothing and
      `/y` to the entity. */
  method ResolveMovedEntity(root: FileId, e: FileId) returns (atOld: Option<FileId>, atNew: Option<FileId>)
    ensures atOld == None
    ensures atNew == Some(e)
  {
    var table := [Row(1, e, 1, "file", "x", "/x", Some(root)),
                  Row(2, e, 2, "file", "y", "/y", Some(root))];
    MovedEntityResolvesToNewPath(root, e);
    atOld := GetIdForPath(table, "/x");
    atNew := GetIdForPath(table, "/y");
    assert LatestForId(table, atNew.value).value in table;
  }

  // ---------------------------------------------------------------------
  // getFolderContent

  /** SQL `parentFolderId = ?`: a NULL on either side matches nothing. */
  predicate NamesParent(row: Row, folderId: Option<FileId>) {
    folderId.Some? && row.parentFolderId == folderId
  }

  /** What `getFolderContent` has collected after scanning the rows of
      `scanned`, a prefix of the table: for each row naming the folder as
      parent, the current row of that row's entity if it is still in the
      folder. No de-duplication takes place. */
  function ContentOf(table: seq<Row>, scanned: seq<Row>, folderId: Option<FileId>): seq<Row>
    requires scanned <= table
  {
    if scanned == [] then []
    else
      var n := |scanned| - 1;
      var prev := ContentOf(table, scanned[..n], folderId);
      var row := scanned[n];
      assert row == table[n];
      if !NamesParent(row, folderId) then prev
      else
        var data := LatestForId(table, row.fileId);
        if data.value.parentFolderId != folderId then prev
        else prev + [data.value]
  }

  /** Every listed row is the current row of its entity, and that entity is
      still in the folder: an entity moved away is never listed, whatever
      its stale rows say. With no folder id nothing is listed. */
  lemma {:induction false} ContentSound(table: seq<Row>, scanned: seq<Row>, folderId: Option<FileId>)
    requires scanned <= table
    ensures forall x :: x in ContentOf(table, scanned, folderId) ==>
      x.parentFolderId == folderId && LatestForId(table, x.fileId) == Some(x)
    ensures folderId.None? ==> ContentOf(table, scanned, folderId) == []
  {
    if scanned != [] {
      ContentSound(table, scanned[..|scanned| - 1], folderId);
    }
  }

  /** The number of rows of `fileId` in `rows` that name the folder as
      parent. */
  function RowsUnder(rows: seq<Row>, fileId: FileId, folderId: Option<FileId>): nat {
    if rows == [] then 0
    else
      var n := |rows| - 1;
      RowsUnder(rows[..n], fileId, folderId) + (if rows[n].fileId == fileId && NamesParent(rows[n], folderId) then 1 else 0)
  }

  lemma {:induction false} RowsUnderPositive(rows: seq<Row>, k: nat, folderId: Option<FileId>)
    requires k < |rows| && NamesParent(rows[k], folderId)
    ensures RowsUnder(rows, rows[k].fileId, folderId) >= 1
  {
    var n := |rows| - 1;
    if k < n {
      RowsUnderPositive(rows[..n], k, folderId);
    }
  }

  /** An entity whose current row is in the folder is listed once for each
      of its rows, current or stale, that names the folder as parent. */
  lemma {:induction false} ContentMultiplicity(table: seq<Row>, scanned: seq<Row>, folderId: Option<FileId>, fileId: FileId)
    requires scanned <= table
    requires LatestForId(table, fileId).Some? && LatestForId(table, fileId).value.parentFolderId == folderId
    ensures multiset(ContentOf(table, scanned, folderId))[LatestForId(table, fileId).value] == RowsUnder(scanned, fileId, folderId)
  {
    if scanned != [] {
      var n := |scanned| - 1;
      var current := LatestForId(table, fileId).value;
      var row := scanned[n];
      var prev := ContentOf(table, scanned[..n], folderId);
      ContentMultiplicity(table, scanned[..n], folderId, fileId);
      assert row == table[n];
      if NamesParent(row, folderId) {
        var data := LatestForId(table, row.fileId).value;
        if data.parentFolderId == folderId {
          assert ContentOf(table, scanned, folderId) == prev + [data];
          assert data == current <==> row.fileId == fileId;
        }
      }
    }
  }

  /** Every entity whose current row lies in the folder is listed. */
  lemma FolderContentComplete(table: seq<Row>, folderId: FileId, fileId: FileId)
    requires LatestForId(table, fileId).Some? && LatestForId(table, fileId).value.parentFolderId == Some(folderId)
    ensures LatestForId(table, fileId).value in ContentOf(table, table, Some(folderId))
    ensures multiset(ContentOf(table, table, Some(folderId)))[LatestForId(table, fileId).value] ==
      RowsUnder(table, fileId, Some(folderId))
  {
    var current := LatestForId(table, fileId).value;
    ContentMultiplicity(table, table, Some(folderId), fileId);
    var k :| 0 <= k < |table| && table[k] == current;
    RowsUnderPositive(table, k, Some(folderId));
  }

  /** `getFolderContent`: scans the rows naming the folder as parent and
      keeps each one's current row if it is still in the folder. */
  method GetFolderContent(table: seq<Row>, folderId: Option<FileId>) returns (res: seq<Row>)
    ensures res == ContentOf(table, table, folderId)
  {
    res := [];
    for i := 0 to |table|
      invariant res == ContentOf(table, table[..i], folderId)
    {
      assert table[..i + 1][..i] == table[..i];
      var row := table[i];
      if NamesParent(row, folderId) {
        var data := LatestForId(table, row.fileId);
        if data.value.parentFolderId != folderId {
          continue;
        }
        res := res + [data.value];
      }
    }
    assert table[..|table|] == table;
  }

  // ---------------------------------------------------------------------
  // performLs

  /** The names of the entries of type `entityType`, in content order. */
  function NamesOfType(content: seq<Row>, entityType: string): seq<string> {
    if content == [] then []
    else
      var n := |content| - 1;
      NamesOfType(content[..n], entityType) + (if content[n].entityType == entityType then [content[n].fileName] else [])
  }

  lemma NamesOfTypeStep(content: seq<Row>, i: nat, entityType: string)
    requires i < |content|
    ensures NamesOfType(content[..i + 1], entityType) ==
      NamesOfType(content[..i], entityType) + (if content[i].entityType == entityType then [content[i].fileName] else [])
  {
    assert content[..i + 1][..i] == content[..i];
  }

  /** The number of entries that are neither a file nor a folder. */
  function UnlistedCount(content: seq<Row>): nat {
    if content == [] then 0
    else
      var n := |content| - 1;
      UnlistedCount(content[..n]) + (if content[n].entityType in {"file", "folder"} then 0 else 1)
  }

  lemma {:induction false} TypeCounts(content: seq<Row>)
    ensures |NamesOfType(content, "folder")| + |NamesOfType(content, "file")| + UnlistedCount(content) == |content|
  {
    if content != [] {
      TypeCounts(content[..|content| - 1]);
    }
  }

  /** Folder names with the directory marker appended. */
  function Slashed(names: seq<string>): seq<string> {
    if names == [] then []
    else
      var n := |names| - 1;
      Slashed(names[..n]) + [names[n] + "/"]
  }

  /** A line with its last character removed. */
  function DropLast(line: string): string {
    if line == [] then [] else line[..|line| - 1]
  }

  function Unslashed(lines: seq<string>): seq<string> {
    seq(|lines|, i requires 0 <= i < |lines| => DropLast(lines[i]))
  }

  lemma SlashedStep(names: seq<string>, i: nat)
    requires i < |names|
    ensures Slashed(names[..i + 1]) == Slashed(names[..i]) + [names[i] + "/"]
  {
    assert names[..i + 1][..i] == names[..i];
  }

  lemma {:induction false} SlashedShape(names: seq<string>)
    ensures |Slashed(names)| == |names|
    ensures forall i :: 0 <= i < |names| ==> Slashed(names)[i] == names[i] + "/"
  {
    if names != [] {
      SlashedShape(names[..|names| - 1]);
    }
  }

  /** Rendering puts the marked folder names first, then the file names
      unchanged. */
  lemma RenderShape(folders: seq<string>, files: seq<string>)
    ensures var lines := Slashed(folders) + files;
      && |lines| == |folders| + |files|
      && (forall i :: 0 <= i < |folders| ==> |lines[i]| > 0 && lines[i][|lines[i]| - 1] == '/')
      && Unslashed(lines[..|folders|]) == folders
      && lines[|folders|..] == files
  {
    SlashedShape(folders);
  }

  /** Rendering two sorted rearrangements of the folder and file names
      gives the folder lines first, each marked, then the file lines. */
  lemma RenderedGroups(lines: seq<string>, sortedFolders: seq<string>, sortedFiles: seq<string>,
                       folders: seq<string>, files: seq<string>)
    requires lines == Slashed(sortedFolders) + sortedFiles
    requires Sorted(sortedFolders) && multiset(sortedFolders) == multiset(folders)
    requires Sorted(sortedFiles) && multiset(sortedFiles) == multiset(files)
    ensures |lines| == |folders| + |files|
    ensures forall i :: 0 <= i < |folders| ==> |lines[i]| > 0 && lines[i][|lines[i]| - 1] == '/'
    ensures Unslashed(lines[..|folders|]) == sortedFolders
    ensures lines[|folders|..] == sortedFiles
  {
    assert |sortedFolders| == |folders| by {
      assert |multiset(sortedFolders)| == |multiset(folders)|;
    }
    assert |sortedFiles| == |files| by {
      assert |multiset(sortedFiles)| == |multiset(files)|;
    }
    RenderShape(sortedFolders, sortedFiles);
  }

  /** The lines `ls` prints for the given folder content: the folder names,
      sorted and each with the directory marker, then the file names,
      sorted. */
  function Listing(content: seq<Row>): seq<string> {
    Slashed(SortNames(NamesOfType(content, "folder"))) + SortNames(NamesOfType(content, "file"))
  }

  /** Every folder line comes before every file line; each group is in
      ascending order of name and holds exactly the names of the entries of
      its type; entries of any other type produce no line. */
  lemma ListingShape(content: seq<Row>)
    ensures var lines := Listing(content);
      var folders := NamesOfType(content, "folder");
      var files := NamesOfType(content, "file");
      var nf := |folders|;
      && |lines| == nf + |files|
      && |lines| + UnlistedCount(content) == |content|
      && (forall i :: 0 <= i < nf ==> |lines[i]| > 0 && lines[i][|lines[i]| - 1] == '/')
      && Sorted(Unslashed(lines[..nf]))
      && multiset(Unslashed(lines[..nf])) == multiset(folders)
      && Sorted(lines[nf..])
      && multiset(lines[nf..]) == multiset(files)
  {
    var folders := NamesOfType(content, "folder");
    var files := NamesOfType(content, "file");
    SortNamesCorrect(folders);
    SortNamesCorrect(files);
    TypeCounts(content);
    RenderedGroups(Listing(content), SortNames(folders), SortNames(files), folders, files);
  }

  /** `performLs`: the lines it prints, in order. */
  method PerformLs(table: seq<Row>, baseId: Option<FileId>) returns (lines: seq<string>)
    ensures lines == Listing(ContentOf(table, table, baseId))
  {
    var files: seq<string> := [];
    var folders: seq<string> := [];
    var content := GetFolderContent(table, baseId);
    for i := 0 to |content|
      invariant files == NamesOfType(content[..i], "file")
      invariant folders == NamesOfType(content[..i], "folder")
    {
      NamesOfTypeStep(content, i, "file");
      NamesOfTypeStep(content, i, "folder");
      var c := content[i];
      if c.entityType == "file" {
        files := files + [c.fileName];
      } else if c.entityType == "folder" {
        folders := folders + [c.fileName];
      }
    }
    assert content[..|content|] == content;
    files := SortNames(files);
    folders := SortNames(folders);
    lines := [];
    for i := 0 to |folders|
      invariant lines == Slashed(folders[..i])
    {
      SlashedStep(folders, i);
      lines := lines + [folders[i] + "/"];
    }
    assert folders[..|folders|] == folders;
    ghost var folderLines := lines;
    for i := 0 to |files|
      invariant lines == folderLines + files[..i]
    {
      lines := lines + [files[i]];
    }
    assert files[..|files|] == files;
  }
}
