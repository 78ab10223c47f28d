/** The media catalog: the chat store's media table resolved through the
    path index into `id -> Media{Hash, Path, Ext, Title}`. An empty `Hash`
    means the media could not be found in the backup. */
module Catalog {
  import opened Wrappers
  import P = Paths
  import PI = PathIndex

  datatype Media = Media(Hash: string, Path: string, Ext: string, Title: string)

  /** The zero `Media{}`: what reading an absent id from the map yields. */
  const NoMedia := Media("", "", "", "")

  /** One scanned `(Z_PK, ZMEDIALOCALPATH, ZTITLE)` row. */
  datatype MediaRow = MediaRow(pk: int, localPath: Option<string>, title: Option<string>)

  /** The catalog entry a row with a local path produces. */
  function Describe(row: MediaRow, index: map<string, string>): Media
    requires row.localPath.Some?
  {
    var p := row.localPath.value;
    Media(PI.Lookup(index, P.MediaKey(p)), p, P.Ext(p), row.title.GetOr(""))
  }

  /** The catalog `m` becomes after the rows are stored in order; a row with
      a NULL path is skipped. */
  function CatalogOf(m: map<int, Media>, rows: seq<MediaRow>, index: map<string, string>): map<int, Media> {
    if rows == [] then m
    else
      var last := rows[|rows| - 1];
      var before := CatalogOf(m, rows[..|rows| - 1], index);
      if last.localPath.None? then before else before[last.pk := Describe(last, index)]
  }

  /** A Go map read: an absent id yields `Media{}`, which is unresolved. */
  function Get(catalog: map<int, Media>, id: int): Media {
    if id in catalog then catalog[id] else NoMedia
  }

  /** The ids in the catalog are the old ones plus those of rows with a path. */
  lemma {:induction false} CatalogKeys(m: map<int, Media>, rows: seq<MediaRow>, index: map<string, string>, id: int)
    ensures id in CatalogOf(m, rows, index) <==>
      id in m || exists i :: 0 <= i < |rows| && rows[i].pk == id && rows[i].localPath.Some?
  {
    if rows != [] {
      var prefix := rows[..|rows| - 1];
      CatalogKeys(m, prefix, index, id);
      if exists i :: 0 <= i < |prefix| && prefix[i].pk == id && prefix[i].localPath.Some? {
        var i :| 0 <= i < |prefix| && prefix[i].pk == id && prefix[i].localPath.Some?;
        assert rows[i] == prefix[i];
      }
      if exists i :: 0 <= i < |rows| && rows[i].pk == id && rows[i].localPath.Some? {
        var i :| 0 <= i < |rows| && rows[i].pk == id && rows[i].localPath.Some?;
        if i < |rows| - 1 {
          assert prefix[i] == rows[i];
        }
      }
    }
  }

  /** A row with a NULL path creates nothing: an id all of whose rows have a
      NULL path keeps whatever the catalog held before (absent stays absent). */
  lemma {:induction false} CatalogSkipsNullPaths(m: map<int, Media>, rows: seq<MediaRow>, index: map<string, string>, id: int)
    requires forall i :: 0 <= i < |rows| && rows[i].pk == id ==> rows[i].localPath.None?
    ensures id in CatalogOf(m, rows, index) <==> id in m
    ensures id in m ==> CatalogOf(m, rows, index)[id] == m[id]
  {
    if rows != [] {
      var prefix := rows[..|rows| - 1];
      forall i | 0 <= i < |prefix| && prefix[i].pk == id
        ensures prefix[i].localPath.None?
      {
        assert prefix[i] == rows[i];
      }
      CatalogSkipsNullPaths(m, prefix, index, id);
    }
  }

  /** Storing one more row: a row with a path sets its own id and leaves
      every other id as it was; a row with a NULL path changes nothing. */
  lemma CatalogStep(m: map<int, Media>, rows: seq<MediaRow>, index: map<string, string>, id: int)
    requires rows != []
    ensures var last, before := rows[|rows| - 1], CatalogOf(m, rows[..|rows| - 1], index);
      && (last.localPath.Some? && last.pk == id ==>
            id in CatalogOf(m, rows, index) && CatalogOf(m, rows, index)[id] == Describe(last, index))
      && (id in before && (last.pk == id ==> last.localPath.None?) ==>
            id in CatalogOf(m, rows, index) && CatalogOf(m, rows, index)[id] == before[id])
  {
  }

  /** The entry for an id is what the last row with that id and a path
      describes: later rows with the same id and a NULL path change nothing. */
  lemma {:induction false} CatalogLastRow(m: map<int, Media>, rows: seq<MediaRow>, index: map<string, string>, j: nat)
    requires j < |rows| && rows[j].localPath.Some?
    requires forall l :: j < l < |rows| && rows[l].pk == rows[j].pk ==> rows[l].localPath.None?
    ensures rows[j].pk in CatalogOf(m, rows, index)
    ensures CatalogOf(m, rows, index)[rows[j].pk] == Describe(rows[j], index)
  {
    var prefix := rows[..|rows| - 1];
    CatalogStep(m, rows, index, rows[j].pk);
    if j < |rows| - 1 {
      assert prefix[j] == rows[j];
      forall l | j < l < |prefix| && prefix[l].pk == prefix[j].pk
        ensures prefix[l].localPath.None?
      {
        assert prefix[l] == rows[l];
      }
      CatalogLastRow(m, prefix, index, j);
    }
  }

  /** The entry for an id is built from the last row with that id and a
      path: `Path` is the row's path, `Ext` its extension, `Title` its title
      or "", and `Hash` the manifest hash under the normalised key, or ""
      when the manifest has no such path. */
  lemma CatalogEntry(m: map<int, Media>, rows: seq<MediaRow>, index: map<string, string>, j: nat)
    requires j < |rows| && rows[j].localPath.Some?
    requires forall l :: j < l < |rows| && rows[l].pk == rows[j].pk ==> rows[l].localPath.None?
    ensures rows[j].pk in CatalogOf(m, rows, index)
    ensures var e, p := CatalogOf(m, rows, index)[rows[j].pk], rows[j].localPath.value;
      && e.Path == p
      && e.Ext == P.Ext(p)
      && e.Title == rows[j].title.GetOr("")
      && e.Hash == PI.Lookup(index, P.MediaKey(p))
  {
    CatalogLastRow(m, rows, index, j);
  }
}
