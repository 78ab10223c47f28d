/** The exporter application object: it holds the source and destination
    directories and the media catalog `LoadMediaMap` fills, and resolves a
    session's messages against that catalog, copying media into the
    destination tree. The database handles are replaced by the rows their
    queries return. */
module Exporter {
  import opened Wrappers
  import D = Decimal
  import P = Paths
  import PI = PathIndex
  import C = Catalog
  import S = Sessions
  import FS = FileStore
  import M = Messages

  /** One scanned `(ZJID, ZPATH)` row of the profile-picture table. */
  datatype PictureRow = PictureRow(jid: Option<string>, path: Option<string>)

  class App {
    const SrcDir: string
    const DstDir: string
    var MediaMap: map<int, C.Media>

    /** The fields `NewApp` sets before opening the databases. */
    constructor (src: string, dst: string)
      ensures SrcDir == src && DstDir == dst && MediaMap == map[]
    {
      SrcDir := src;
      DstDir := dst;
      MediaMap := map[];
    }

    /** Builds the path index from the manifest rows, stores one catalog
        entry per media row with a path, then walks the profile pictures,
        which only touch a local value: the catalog afterwards is exactly
        the media rows stored over the old one. */
    method LoadMediaMap(files: seq<PI.FileRow>, media: seq<C.MediaRow>, pictures: seq<PictureRow>)
      requires PI.Dereferenceable(files)
      modifies this
      ensures MediaMap == C.CatalogOf(old(MediaMap), media, PI.IndexOf(files))
    {
      var hashMap := PI.BuildPathIndex(files);

      var i := 0;
      while i < |media|
        invariant 0 <= i <= |media|
        invariant MediaMap == C.CatalogOf(old(MediaMap), media[..i], hashMap)
      {
        assert media[..i + 1][..i] == media[..i];
        var row := media[i];
        if row.localPath.Some? {
          var path := row.localPath.value;
          var entry := C.NoMedia;
          if row.title.Some? {
            entry := entry.(Title := row.title.value);
          }
          entry := entry.(Path := path, Ext := P.Ext(path));
          if P.HasPrefix(path, "/") {
            entry := entry.(Hash := PI.Lookup(hashMap, "Message" + path));
          } else {
            entry := entry.(Hash := PI.Lookup(hashMap, "Message/" + path));
          }
          MediaMap := MediaMap[row.pk := entry];
        }
        i := i + 1;
      }
      assert media[..i] == media;

      var picture := C.NoMedia;
      var k := 0;
      while k < |pictures|
        invariant 0 <= k <= |pictures|
        invariant MediaMap == C.CatalogOf(old(MediaMap), media, hashMap)
      {
        var row := pictures[k];
        if row.path.Some? {
          picture := picture.(Path := row.path.value, Hash := PI.Lookup(hashMap, row.path.value));
        }
        k := k + 1;
      }
    }

    /** Resolves the session's message rows, in query order, one message per
        row, copying each resolved media file into `media/<sessionID>/` when
        it is not there yet. */
    method SessionMessages(session: S.Session, rows: seq<M.MessageRow>, disk: FS.Disk,
                           parse: string -> Option<int>, format: int -> string)
      returns (messages: seq<M.Message>)
      requires M.Shardable(MediaMap)
      modifies disk
      ensures messages == M.ResolveAll(MediaMap, session.ID, rows, parse, format)
      ensures disk.Existing == old(disk.Existing) + FS.Dsts(M.CopyPlan(MediaMap, SrcDir, DstDir, session.ID, rows))
      ensures disk.Copies == old(disk.Copies) + FS.NewCopies(old(disk.Existing), M.CopyPlan(MediaMap, SrcDir, DstDir, session.ID, rows))
    {
      ghost var e0, c0 := disk.Existing, disk.Copies;
      var mediaBase := P.MediaBase(session.ID);
      messages := [];
      var i := 0;
      while i < |rows|
        invariant 0 <= i <= |rows|
        invariant messages == M.ResolveAll(MediaMap, session.ID, rows[..i], parse, format)
        invariant disk.Existing == e0 + FS.Dsts(M.CopyPlan(MediaMap, SrcDir, DstDir, session.ID, rows[..i]))
        invariant disk.Copies == c0 + FS.NewCopies(e0, M.CopyPlan(MediaMap, SrcDir, DstDir, session.ID, rows[..i]))
      {
        messages := ResolveNext(session, mediaBase, rows, i, messages, disk, parse, format, e0, c0);
        i := i + 1;
      }
      assert rows[..i] == rows;
    }

    /** One turn of the message loop: resolves row `i` and keeps the loop's
        invariant, from the first `i` rows to the first `i + 1`. */
    method ResolveNext(session: S.Session, mediaBase: string, rows: seq<M.MessageRow>, i: nat,
                       messages: seq<M.Message>, disk: FS.Disk,
                       parse: string -> Option<int>, format: int -> string,
                       ghost e0: set<string>, ghost c0: seq<FS.CopyOp>)
      returns (next: seq<M.Message>)
      requires M.Shardable(MediaMap) && mediaBase == P.MediaBase(session.ID) && i < |rows|
      requires messages == M.ResolveAll(MediaMap, session.ID, rows[..i], parse, format)
      requires disk.Existing == e0 + FS.Dsts(M.CopyPlan(MediaMap, SrcDir, DstDir, session.ID, rows[..i]))
      requires disk.Copies == c0 + FS.NewCopies(e0, M.CopyPlan(MediaMap, SrcDir, DstDir, session.ID, rows[..i]))
      modifies disk
      ensures next == M.ResolveAll(MediaMap, session.ID, rows[..i + 1], parse, format)
      ensures disk.Existing == e0 + FS.Dsts(M.CopyPlan(MediaMap, SrcDir, DstDir, session.ID, rows[..i + 1]))
      ensures disk.Copies == c0 + FS.NewCopies(e0, M.CopyPlan(MediaMap, SrcDir, DstDir, session.ID, rows[..i + 1]))
    {
      ghost var e1, c1 := disk.Existing, disk.Copies;
      var msg := ResolveRow(session, mediaBase, rows[i], disk, parse, format);
      next := messages + [msg];
      SessionStep(MediaMap, SrcDir, DstDir, session.ID, rows, i, parse, format, e0, c0,
                  messages, e1, c1, msg, disk.Existing, disk.Copies);
    }

    /** The body of the message loop for one row. */
    method ResolveRow(session: S.Session, mediaBase: string, row: M.MessageRow, disk: FS.Disk,
                      parse: string -> Option<int>, format: int -> string)
      returns (msg: M.Message)
      requires M.Shardable(MediaMap) && mediaBase == P.MediaBase(session.ID)
      modifies disk
      ensures msg == M.ResolveMessage(MediaMap, session.ID, row, parse, format)
      ensures disk.Existing == old(disk.Existing) + FS.Dsts(M.CopiesAsked(MediaMap, SrcDir, DstDir, session.ID, row))
      ensures disk.Copies == old(disk.Copies) + FS.NewCopies(old(disk.Existing), M.CopiesAsked(MediaMap, SrcDir, DstDir, session.ID, row))
    {
      msg := M.Message(row.fromJID, "", "", "", "", "", false);
      if row.text.Some? {
        msg := msg.(Text := row.text.value);
      }
      if row.pushName.Some? {
        msg := msg.(Name := row.pushName.value);
      }
      if row.mediaItem.Some? {
        var id := row.mediaItem.value;
        var media := C.Get(MediaMap, id);
        if media.Hash != "" {
          var mediaSrc := P.ShardedSource(SrcDir, media.Hash);
          var mediaDst := P.MediaDst(DstDir, session.ID, id, media.Ext);
          assert M.CopiesAsked(MediaMap, SrcDir, DstDir, session.ID, row) == [FS.CopyOp(mediaSrc, mediaDst)];
          Materialize(mediaSrc, mediaDst, disk);
          msg := msg.(Media := P.Join(mediaBase, P.MediaName(id, media.Ext)), MediaExt := media.Ext, Text := media.Title);
        }
      }
      if row.messageDate.Some? {
        var t := parse(row.messageDate.value);
        if t.Some? {
          msg := msg.(Date := format(M.AppleTime(t.value)));
        }
      }
      msg := msg.(IsGroup := row.groupMember.Some?);
    }
  }

  /** Copy-if-absent: `src` is copied to `dst` only when `dst` does not
      exist yet. */
  method Materialize(src: string, dst: string, disk: FS.Disk)
    modifies disk
    ensures disk.Existing == old(disk.Existing) + FS.Dsts([FS.CopyOp(src, dst)])
    ensures disk.Copies == old(disk.Copies) + FS.NewCopies(old(disk.Existing), [FS.CopyOp(src, dst)])
  {
    FS.NewCopiesAppend(disk.Existing, [], [FS.CopyOp(src, dst)]);
    if !disk.Exists(dst) {
      disk.Copy(src, dst);
    }
  }

  /** One turn of the message loop keeps its invariant. */
  lemma SessionStep(catalog: map<int, C.Media>, src: string, dst: string, sessionID: int, rows: seq<M.MessageRow>, i: nat,
                    parse: string -> Option<int>, format: int -> string, e0: set<string>, c0: seq<FS.CopyOp>,
                    messages: seq<M.Message>, e1: set<string>, c1: seq<FS.CopyOp>,
                    msg: M.Message, e2: set<string>, c2: seq<FS.CopyOp>)
    requires M.Shardable(catalog) && i < |rows|
    requires messages == M.ResolveAll(catalog, sessionID, rows[..i], parse, format)
    requires e1 == e0 + FS.Dsts(M.CopyPlan(catalog, src, dst, sessionID, rows[..i]))
    requires c1 == c0 + FS.NewCopies(e0, M.CopyPlan(catalog, src, dst, sessionID, rows[..i]))
    requires msg == M.ResolveMessage(catalog, sessionID, rows[i], parse, format)
    requires e2 == e1 + FS.Dsts(M.CopiesAsked(catalog, src, dst, sessionID, rows[i]))
    requires c2 == c1 + FS.NewCopies(e1, M.CopiesAsked(catalog, src, dst, sessionID, rows[i]))
    ensures messages + [msg] == M.ResolveAll(catalog, sessionID, rows[..i + 1], parse, format)
    ensures e2 == e0 + FS.Dsts(M.CopyPlan(catalog, src, dst, sessionID, rows[..i + 1]))
    ensures c2 == c0 + FS.NewCopies(e0, M.CopyPlan(catalog, src, dst, sessionID, rows[..i + 1]))
  {
    M.CopyPlanSnoc(catalog, src, dst, sessionID, rows, i);
    M.ResolveAllSnoc(catalog, sessionID, rows, parse, format, i);
    FS.StateAppend(e0, c0, M.CopyPlan(catalog, src, dst, sessionID, rows[..i]), M.CopiesAsked(catalog, src, dst, sessionID, rows[i]),
                   e1, c1, e2, c2);
  }

  /** Resolving a session twice over the same disk gives the same messages,
      and the second pass copies nothing. */
  method ResolveTwice(app: App, session: S.Session, rows: seq<M.MessageRow>, disk: FS.Disk,
                      parse: string -> Option<int>, format: int -> string)
    returns (first: seq<M.Message>, second: seq<M.Message>)
    requires M.Shardable(app.MediaMap)
    modifies disk
    ensures first == second
    ensures disk.Copies == old(disk.Copies) + FS.NewCopies(old(disk.Existing), M.CopyPlan(app.MediaMap, app.SrcDir, app.DstDir, session.ID, rows))
  {
    first := app.SessionMessages(session, rows, disk, parse, format);
    ghost var afterFirst := disk.Copies;
    FS.NewCopiesNoneWhenPresent(disk.Existing, M.CopyPlan(app.MediaMap, app.SrcDir, app.DstDir, session.ID, rows));
    second := app.SessionMessages(session, rows, disk, parse, format);
    assert disk.Copies == afterFirst;
  }

  /** How many sessions the driver loop of `main` builds: with a positive
      chat limit it stops only once the counter exceeds the limit. */
  function ChatsBuilt(count: nat, limitChat: int): (built: nat)
    ensures built <= count
    ensures limitChat <= 0 || count <= limitChat ==> built == count
    ensures limitChat > 0 && count > limitChat ==> built == limitChat + 1
  {
    if limitChat > 0 && limitChat + 1 < count then limitChat + 1 else count
  }

  /** The driver loop of `main` as written: build each session in order,
      count it, and stop when `limitChat > 0 && counter > limitChat`. */
  method BuildSessions(sessions: seq<S.Session>, limitChat: int) returns (built: seq<S.Session>)
    ensures built == sessions[..ChatsBuilt(|sessions|, limitChat)]
  {
    built := [];
    var counter := 0;
    var i := 0;
    while i < |sessions|
      invariant 0 <= i <= |sessions|
      invariant counter == i && built == sessions[..i]
      invariant limitChat > 0 ==> counter <= limitChat
    {
      built := built + [sessions[i]];
      counter := counter + 1;
      i := i + 1;
      if limitChat > 0 && counter > limitChat {
        break;
      }
    }
  }

  /** With a positive limit smaller than the number of sessions, one
      session more than the limit is built. */
  lemma ChatLimitOverrun()
    ensures ChatsBuilt(3, 1) == 2
  {
  }

  /** The sessions a chat limit is evidently meant to allow. */
  function ChatsIntended(count: nat, limitChat: int): nat {
    if limitChat > 0 && limitChat < count then limitChat else count
  }

  /** The driver loop with the counter compared against the limit by `>=`:
      never more than `limitChat` sessions when the limit is positive. */
  method BuildSessionsLimited(sessions: seq<S.Session>, limitChat: int) returns (built: seq<S.Session>)
    ensures built == sessions[..ChatsIntended(|sessions|, limitChat)]
    ensures limitChat > 0 ==> |built| <= limitChat
    ensures limitChat <= 0 ==> built == sessions
  {
    built := [];
    var counter := 0;
    var i := 0;
    while i < |sessions|
      invariant 0 <= i <= |sessions|
      invariant counter == i && built == sessions[..i]
      invariant limitChat > 0 ==> counter < limitChat
    {
      built := built + [sessions[i]];
      counter := counter + 1;
      i := i + 1;
      if limitChat > 0 && counter >= limitChat {
        break;
      }
    }
    if i == |sessions| {
      assert sessions[..i] == sessions;
    }
  }

  /** End to end: a message that names a media id is resolved through the
      last media row with that id and a path, and through the last
      manifest row whose path is that media path's normalised key. Its
      extension and caption come from the media row, its `Media` path is
      `media/<sessionID>/<id><ext>`, and the catalog hash, which chooses
      the backup file copied, is the manifest row's. */
  lemma EndToEnd(files: seq<PI.FileRow>, media: seq<C.MediaRow>, j: nat, f: nat, row: M.MessageRow, sessionID: int,
                 parse: string -> Option<int>, format: int -> string)
    requires PI.Dereferenceable(files)
    requires j < |media| && media[j].localPath.Some? && row.mediaItem == Some(media[j].pk)
    requires forall l :: j < l < |media| && media[l].pk == media[j].pk ==> media[l].localPath.None?
    requires f < |files| && files[f].relativePath == Some(P.MediaKey(media[j].localPath.value)) && files[f].fileID != Some("")
    requires forall l :: f < l < |files| ==> files[l].relativePath != files[f].relativePath
    ensures var catalog := C.CatalogOf(map[], media, PI.IndexOf(files));
      var msg := M.ResolveMessage(catalog, sessionID, row, parse, format);
      var p := media[j].localPath.value;
      && M.Resolved(catalog, row)
      && catalog[media[j].pk].Hash == files[f].fileID.value
      && msg.MediaExt == P.Ext(p)
      && msg.Media == P.MediaRel(sessionID, media[j].pk, P.Ext(p))
      && msg.Text == media[j].title.GetOr("")
  {
    var index := PI.IndexOf(files);
    PI.IndexLastWriteWins(files, f);
    C.CatalogEntry(map[], media, index, j);
  }

  /** File IDs of at least two characters make a shardable catalog: the
      `Hash[:2]` of message resolution is then always defined. */
  lemma {:induction false} LoadedCatalogShardable(m: map<int, C.Media>, files: seq<PI.FileRow>, media: seq<C.MediaRow>)
    requires PI.Dereferenceable(files) && M.Shardable(m)
    requires forall i :: 0 <= i < |files| ==> files[i].fileID.value == "" || |files[i].fileID.value| >= 2
    ensures M.Shardable(C.CatalogOf(m, media, PI.IndexOf(files)))
  {
    var index := PI.IndexOf(files);
    if media != [] {
      LoadedCatalogShardable(m, files, media[..|media| - 1]);
      var row := media[|media| - 1];
      if row.localPath.Some? {
        var key := P.MediaKey(row.localPath.value);
        if key in index {
          PI.IndexValuesFromRows(files, key);
        }
      }
    }
  }

  lemma ExamplePieces()
    ensures P.Ext("Media/photo.jpg") == ".jpg"
    ensures D.Itoa(7) == "7" && D.Itoa(5) == "5"
  {
    var p := "Media/photo.jpg";
    assert p[11] == '.' && p[12] == 'j' && p[13] == 'p' && p[14] == 'g';
    assert P.ExtFrom(p, 12) == p[11..] == ".jpg";
    assert P.ExtFrom(p, 15) == P.ExtFrom(p, 14) == P.ExtFrom(p, 13) == P.ExtFrom(p, 12);
  }

  lemma ExampleIndex()
    ensures PI.IndexOf([PI.FileRow(Some("ab12"), Some("Message/Media/photo.jpg"))]) == map["Message/Media/photo.jpg" := "ab12"]
  {
    var files := [PI.FileRow(Some("ab12"), Some("Message/Media/photo.jpg"))];
    assert files[..0] == [];
  }

  lemma ExampleCatalog()
    ensures C.CatalogOf(map[], [C.MediaRow(5, Some("Media/photo.jpg"), None)],
                        PI.IndexOf([PI.FileRow(Some("ab12"), Some("Message/Media/photo.jpg"))]))
         == map[5 := C.Media("ab12", "Media/photo.jpg", ".jpg", "")]
  {
    var files := [PI.FileRow(Some("ab12"), Some("Message/Media/photo.jpg"))];
    var media := [C.MediaRow(5, Some("Media/photo.jpg"), None)];
    var p := "Media/photo.jpg";
    var index := PI.IndexOf(files);
    ExampleIndex();
    assert P.MediaKey(p) == "Message/Media/photo.jpg";
    ExamplePieces();
    assert C.Describe(media[0], index) == C.Media("ab12", p, ".jpg", "");
    assert media[..0] == [];
    assert C.CatalogOf(map[], media[..0], index) == map[];
  }

  lemma ExamplePaths()
    ensures P.MediaRel(7, 5, ".jpg") == "media/7/5.jpg"
    ensures P.MediaDst("dst", 7, 5, ".jpg") == "dst/media/7/5.jpg"
    ensures P.ShardedSource("src", "ab12") == "src/ab/ab12"
  {
    ExamplePieces();
    assert "ab12"[..2] == "ab";
  }

  /** The worked example: one manifest file `ab12` at
      `Message/Media/photo.jpg`, media row 5 at the bare path
      `Media/photo.jpg`, and a message of session 7 naming media 5. The
      message resolves with extension `.jpg` and path `media/7/5.jpg`, its
      caption is the (absent) title, and its copy goes from `src/ab/ab12`
      to `dst/media/7/5.jpg`. */
  lemma EndToEndExample(parse: string -> Option<int>, format: int -> string)
    ensures var catalog := map[5 := C.Media("ab12", "Media/photo.jpg", ".jpg", "")];
      var row := M.MessageRow(None, None, Some("caption"), Some(5), None, None);
      var msg := M.ResolveMessage(catalog, 7, row, parse, format);
      && catalog == C.CatalogOf(map[], [C.MediaRow(5, Some("Media/photo.jpg"), None)],
                                PI.IndexOf([PI.FileRow(Some("ab12"), Some("Message/Media/photo.jpg"))]))
      && M.Shardable(catalog)
      && M.Resolved(catalog, row)
      && msg.MediaExt == ".jpg"
      && msg.Media == "media/7/5.jpg"
      && msg.Text == ""
      && M.CopyOf(catalog, "src", "dst", 7, row) == FS.CopyOp("src/ab/ab12", "dst/media/7/5.jpg")
  {
    ExampleCatalog();
    ExamplePaths();
  }
}
