# arcloud: the read side of the ArDrive CLI `sync` table

`arcloud.py` is a small tool that works on the SQLite database the ArDrive CLI
keeps next to a synchronised drive. Its `sync` table is an append-only log.
Each row records one historical state of a file or folder: `id`, `fileId`,
`unixTime`, `entityType`, `fileName`, `filePath` and `parentFolderId`. The
row with the largest `unixTime` for a `fileId` is the entity's current state.
Every other row for that `fileId` is stale.

This project models the four read operations built on that log:

- `getLatestForId`. The current-state projection.
- `getIdForPath`. Resolves a local path to a `fileId`, and rejects entities
  that have since moved away from that path.
- `getFolderContent`. The current rows of a folder's live children.
- `performLs`. Files and folders, each group sorted, with folders first and
  marked with `/`.

The table is an immutable `seq<Row>`. SQLite fixes no order for the rows of
a query without `ORDER BY`. By convention of this model, such a query
returns its rows in sequence order. A `WHERE` clause is the test inside the
loop that walks the table.

Files:

- `wrappers.dfy`. `Option`, for NULL columns and lookups that find nothing.
- `names.dfy`. Python's string order (`<=` on `str`, by code point, where a
  prefix comes first) and `list.sort` on strings. `list.sort` is written as an
  insertion sort, with its result proved sorted and a permutation of the
  input.
- `arcloud.dfy`. The module `ArCloud`, which holds the four operations.

Modelling choices:

- `getLatestForId` and `getIdForPath`, together with the scenario lemma
  about them, run over the whole table. `getFolderContent` and `performLs`
  are methods with the source's loops. The loops are proved equal to the
  specification functions `ContentOf` and `Listing`, and lemmas state what
  those functions guarantee.
- Ties on `unixTime`. SQLite does not fix which of several rows with the same
  maximal `unixTime` comes first. `LatestForId` picks the first such row in
  table order, and the lemma `LatestIsFirstMaximal` states this choice. The
  clauses of `LatestForId`'s own contract hold for any choice among rows of
  maximal time.
- `getLatestForId` selects only some columns. The model returns the whole row.
  The extra columns are never read.
- `parentFolderId = ?` uses SQL equality, so a NULL on either side matches
  nothing (`NamesParent`). When the resolved base id is `None` and goes
  straight to `performLs` (arcloud.py:170-172), the folder listing is empty.
  That case is a proved clause of `ContentSound`.
- No de-duplication. `getFolderContent` has no `DISTINCT`. A child is listed
  once for each of its rows that names the folder as parent, stale rows
  included. `ContentMultiplicity` states this count exactly.
- `performLs` prints. The model returns the printed lines, in order.
- No missing current row. Both `getIdForPath` and `getFolderContent` read a
  field of the current row without checking that it exists. In the model
  `fileId` is never NULL, so every scanned `fileId` has at least one row of
  its own, namely the scanned row. Its current row therefore exists. The
  model proves this at each such read. The source makes no such check: a
  NULL `fileId` leads to a `TypeError` there (see "## Left out").

## Model

| member | source | states |
|---|---|---|
| `ArCloud.LatestForId` | arcloud.py:69-86 | None exactly when no row has the fileId. Otherwise the result is a row of the table with that fileId. No row of that fileId has a later unixTime. |
| `ArCloud.LatestIsFirstMaximal` | arcloud.py:80-81 | The tie-break: among the entity's rows of maximal unixTime, the returned row is the first in table order. |
| `ArCloud.AppendLaterBecomesCurrent` | arcloud.py:76-82 | Appending a row that is later than every row of its entity makes that row the entity's current state (latest wins). |
| `ArCloud.AppendKeepsOthers` | arcloud.py:76-82 | Appending a row for one entity leaves every other entity's current state unchanged. |
| `ArCloud.GetIdForPath` | arcloud.py:89-107 | A returned id's current row records the path, so an entity that moved away is never returned. None is returned only when no entity's current row has the path. The returned id belongs to the first scanned row whose entity is still at the path. |
| `ArCloud.MovedEntityResolvesToNewPath` | arcloud.py:101-105 | Example: an entity moved from /x to /y. Its current row records /y, and no entity has a current row at /x, although a stale row still records /x. |
| `ArCloud.ResolveMovedEntity` | arcloud.py:89-107 | On that example, `GetIdForPath` returns None for /x and the entity for /y. |
| `ArCloud.ContentSound` | arcloud.py:125-130 | Every listed row is the current row of its own fileId, and its current parent is the folder. A moved-away child is never listed. With no folder id, the listing is empty. |
| `ArCloud.ContentMultiplicity` | arcloud.py:119-130 | Take an entity whose current row is in the folder. It appears in the content collected from a table prefix once for each row of that prefix that names the folder as parent. |
| `ArCloud.FolderContentComplete` | arcloud.py:119-130 | Every entity whose current row is in the folder is listed. It is listed exactly as many times as it has rows, current or stale, that name the folder as parent. |
| `ArCloud.GetFolderContent` | arcloud.py:110-132 | The loop collects exactly `ContentOf` over the whole table, without de-duplication. |
| `Names.SortNamesCorrect` | arcloud.py:151-152 | Sorting a list of names gives an ascending list holding the same names, with the same multiplicities. |
| `ArCloud.TypeCounts` | arcloud.py:145-149 | Each content entry goes to exactly one of three groups: file names, folder names, or dropped (any other entityType). |
| `ArCloud.RenderShape` | arcloud.py:154-157 | The output is the folder names, each with a trailing "/", followed by the file names unchanged. |
| `ArCloud.ListingShape` | arcloud.py:141-157 | One line for each file or folder entry, none for other types. Folder lines end in "/" and all come before the file lines. With the marker removed, folder names are ascending and equal the folder entries' names as a multiset. The file lines are ascending and equal the file entries' names as a multiset. |
| `ArCloud.PerformLs` | arcloud.py:135-157 | The partition loop, the two sorts and the two output loops produce exactly `Listing` of the folder content. |

## Left out

- `parseArgs` and the `__main__` block (arcloud.py:22-36, 160-174). This is command-line wiring: `argparse`, `os.path.abspath`, `sys.exit` and the commit on non-`ls` actions.
- `getDbFile` (arcloud.py:39-55). It searches the real filesystem with `os.path.exists` and `os.path.dirname`, which are outside the model.
- NULL columns. The model's `Row` makes every column except `parentFolderId` non-NULL. The source allows NULL in each of them, with these effects:
  - A scanned row with a NULL `fileId` makes `getLatestForId` return `None`, because SQL `fileId = NULL` matches nothing. The next line then raises `TypeError`. This happens at arcloud.py:102-104 for a row that records the path, and at arcloud.py:126-127 for a row under the folder.
  - A NULL `unixTime` sorts last under `ORDER BY unixTime DESC`.
  - A listed file entry with a NULL `fileName` prints `None` when it is the only file (arcloud.py:157). Otherwise `files.sort()` raises `TypeError` (arcloud.py:151).
  - A listed folder entry with a NULL `fileName` makes `folders.sort()` raise `TypeError` (arcloud.py:152) when there are two or more folder entries. When it is the only folder entry, `nm + "/"` raises `TypeError` (arcloud.py:155). No folder line is printed in either case.
  - A NULL `filePath` or `entityType` behaves like a string that matches nothing, so the model loses nothing there.

  The model covers none of these NULL cases.
- The SQLite connection, cursors, `contextlib.closing` and `rowToDict` (arcloud.py:58-66). The table is a value, and a row is a datatype value rather than a dict.
- The output of `performLs` goes to standard output through `print`. The model returns the lines instead.
- The source contains no "cloud" or "local" flag mutation, no subtree walk and no ancestor walk. The main block only dispatches `ls`. So there is nothing of that kind to model.
- `ArCloud.GetIdForPath`: SQLite gives no order for the scan at arcloud.py:96-100. The model scans in table order, so "the first accepted row" in its contract is relative to that order. When several entities are currently at the path, the source may return any of them.
- `ArCloud.LatestForId`: when several rows tie on the maximal `unixTime`, SQLite may return any of them. The model fixes the first one in table order (`LatestIsFirstMaximal`).
