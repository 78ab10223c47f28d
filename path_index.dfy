/** The path index: the manifest's `Files` table loaded as a map from
    logical path to content hash, in table order, the last row with a given
    path winning. */
module PathIndex {
  import opened Wrappers

  /** One scanned `(fileID, relativePath)` row of the manifest; either column
      may come back NULL. */
  datatype FileRow = FileRow(fileID: Option<string>, relativePath: Option<string>)

  /** The loader dereferences both columns of every row, so a NULL in either
      would stop the program; callers supply rows without NULLs. */
  predicate Dereferenceable(rows: seq<FileRow>) {
    forall i :: 0 <= i < |rows| ==> rows[i].fileID.Some? && rows[i].relativePath.Some?
  }

  /** The map after storing every row in order. */
  function IndexOf(rows: seq<FileRow>): map<string, string>
    requires Dereferenceable(rows)
  {
    if rows == [] then map[]
    else
      var last := rows[|rows| - 1];
      IndexOf(rows[..|rows| - 1])[last.relativePath.value := last.fileID.value]
  }

  /** A Go map read: a missing key yields the zero value "". */
  function Lookup(index: map<string, string>, key: string): string {
    if key in index then index[key] else ""
  }

  /** The first loop of `LoadMediaMap`: `hashMap[*path] = *hash` per row. */
  method BuildPathIndex(rows: seq<FileRow>) returns (hashMap: map<string, string>)
    requires Dereferenceable(rows)
    ensures hashMap == IndexOf(rows)
  {
    hashMap := map[];
    var i := 0;
    while i < |rows|
      invariant 0 <= i <= |rows|
      invariant hashMap == IndexOf(rows[..i])
    {
      assert rows[..i + 1][..i] == rows[..i];
      hashMap := hashMap[rows[i].relativePath.value := rows[i].fileID.value];
      i := i + 1;
    }
    assert rows[..i] == rows;
  }

  /** The index holds exactly the paths that occur in the manifest. */
  lemma {:induction false} IndexKeys(rows: seq<FileRow>, key: string)
    requires Dereferenceable(rows)
    ensures key in IndexOf(rows) <==> exists i :: 0 <= i < |rows| && rows[i].relativePath == Some(key)
  {
    if rows != [] {
      var prefix := rows[..|rows| - 1];
      IndexKeys(prefix, key);
      if key in IndexOf(prefix) {
        var i :| 0 <= i < |prefix| && prefix[i].relativePath == Some(key);
        assert rows[i].relativePath == Some(key);
      }
      if exists i :: 0 <= i < |rows| && rows[i].relativePath == Some(key) {
        var i :| 0 <= i < |rows| && rows[i].relativePath == Some(key);
        if i < |rows| - 1 {
          assert prefix[i].relativePath == Some(key);
        }
      }
    }
  }

  /** Last write wins: the hash stored for a path is the one of the last
      manifest row carrying that path. */
  lemma {:induction false} IndexLastWriteWins(rows: seq<FileRow>, j: nat)
    requires Dereferenceable(rows)
    requires j < |rows|
    requires forall l :: j < l < |rows| ==> rows[l].relativePath != rows[j].relativePath
    ensures rows[j].relativePath.value in IndexOf(rows)
    ensures IndexOf(rows)[rows[j].relativePath.value] == rows[j].fileID.value
  {
    if j < |rows| - 1 {
      var prefix := rows[..|rows| - 1];
      assert prefix[j] == rows[j];
      forall l | j < l < |prefix|
        ensures prefix[l].relativePath != prefix[j].relativePath
      {
        assert prefix[l] == rows[l];
      }
      IndexLastWriteWins(prefix, j);
    }
  }

  /** A path no manifest row carries reads as the empty hash. */
  lemma LookupMissing(rows: seq<FileRow>, key: string)
    requires Dereferenceable(rows)
    requires forall i :: 0 <= i < |rows| ==> rows[i].relativePath != Some(key)
    ensures Lookup(IndexOf(rows), key) == ""
  {
    IndexKeys(rows, key);
  }

  /** Every stored hash is the file ID of some manifest row. */
  lemma {:induction false} IndexValuesFromRows(rows: seq<FileRow>, key: string)
    requires Dereferenceable(rows)
    requires key in IndexOf(rows)
    ensures exists i :: 0 <= i < |rows| && rows[i].fileID == Some(IndexOf(rows)[key])
  {
    var n := |rows| - 1;
    var prefix := rows[..n];
    if rows[n].relativePath.value != key {
      IndexValuesFromRows(prefix, key);
      var i :| 0 <= i < |prefix| && prefix[i].fileID == Some(IndexOf(prefix)[key]);
      assert rows[i] == prefix[i];
    }
  }
}
