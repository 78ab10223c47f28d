/** Message resolution for one session: each scanned message row becomes a
    `Message` with nulls normalised, media looked up in the catalog and the
    timestamp moved from the 2001 epoch. The copies of media files that go
    with it are described as a plan of copy operations. */
module Messages {
  import opened Wrappers
  import P = Paths
  import C = Catalog
  import FS = FileStore

  /** One scanned `(ZFROMJID, ZPUSHNAME, ZTEXT, ZMEDIAITEM, ZMESSAGEDATE,
      ZGROUPMEMBER)` row; every column may be NULL. */
  datatype MessageRow = MessageRow(
    fromJID: Option<string>,
    pushName: Option<string>,
    text: Option<string>,
    mediaItem: Option<int>,
    messageDate: Option<string>,
    groupMember: Option<string>)

  /** A resolved message; `JID` absent means the message is outgoing. */
  datatype Message = Message(
    JID: Option<string>,
    Name: string,
    Text: string,
    Media: string,
    MediaExt: string,
    Date: string,
    IsGroup: bool)

  /** Seconds from 1970-01-01 to 2001-01-01, the chat store's epoch. */
  const AppleEpochOffset := 978307200

  function AppleTime(unix: int): int {
    unix + AppleEpochOffset
  }

  /** The timestamp text: the stored date parsed to Unix seconds (`parse`
      stands for `time.Parse(time.RFC3339, ·)` followed by `Unix()`), moved
      by the epoch offset and rendered by `format` (`time.Unix(·, 0).Format`),
      or "" when the date is NULL or does not parse. */
  function DateText(date: Option<string>, parse: string -> Option<int>, format: int -> string): string {
    if date.None? then ""
    else
      var t := parse(date.value);
      if t.None? then "" else format(AppleTime(t.value))
  }

  /** The message refers to media the catalog found in the backup. */
  predicate Resolved(catalog: map<int, C.Media>, row: MessageRow) {
    row.mediaItem.Some? && C.Get(catalog, row.mediaItem.value).Hash != ""
  }

  /** `media.Hash[:2]` needs two characters: every non-empty hash has them. */
  predicate Shardable(catalog: map<int, C.Media>) {
    forall id :: id in catalog ==> catalog[id].Hash == "" || |catalog[id].Hash| >= 2
  }

  function ResolveMessage(catalog: map<int, C.Media>, sessionID: int, row: MessageRow,
                          parse: string -> Option<int>, format: int -> string): Message
  {
    var base := Message(row.fromJID, row.pushName.GetOr(""), row.text.GetOr(""), "", "",
                        DateText(row.messageDate, parse, format), row.groupMember.Some?);
    if row.mediaItem.Some? then
      var id := row.mediaItem.value;
      var media := C.Get(catalog, id);
      if media.Hash != "" then
        base.(Media := P.MediaRel(sessionID, id, media.Ext), MediaExt := media.Ext, Text := media.Title)
      else base
    else base
  }

  /** Field normalisation: NULL text and push name read as "", the sender
      is kept as it is (absent means outgoing), `IsGroup` holds exactly when
      the group-member column is non-NULL, and `Date` is the parsed instant
      moved by the epoch offset, or "" when the date is NULL or unparseable. */
  lemma ResolveMessageFields(catalog: map<int, C.Media>, sessionID: int, row: MessageRow,
                             parse: string -> Option<int>, format: int -> string)
    ensures var r := ResolveMessage(catalog, sessionID, row, parse, format);
      && r.JID == row.fromJID
      && r.Name == row.pushName.GetOr("")
      && (r.IsGroup <==> row.groupMember.Some?)
      && (row.messageDate.Some? && parse(row.messageDate.value).Some? ==>
            r.Date == format(parse(row.messageDate.value).value + AppleEpochOffset))
      && (row.messageDate.None? || parse(row.messageDate.value).None? ==> r.Date == "")
  {
  }

  /** Resolved media: the message points at `media/<sessionID>/<id><ext>`,
      carries the extension, and its text is replaced by the media title,
      even an empty one. */
  lemma ResolvedMessageMedia(catalog: map<int, C.Media>, sessionID: int, row: MessageRow,
                             parse: string -> Option<int>, format: int -> string)
    requires Resolved(catalog, row)
    ensures var r, id := ResolveMessage(catalog, sessionID, row, parse, format), row.mediaItem.value;
      && r.Media == P.MediaRel(sessionID, id, catalog[id].Ext)
      && r.MediaExt == catalog[id].Ext
      && r.Text == catalog[id].Title
  {
  }

  /** Unresolved media (no media id, an id the catalog lacks, or an empty
      hash): no media path, no extension, and the chat text is kept. */
  lemma UnresolvedMessageMedia(catalog: map<int, C.Media>, sessionID: int, row: MessageRow,
                               parse: string -> Option<int>, format: int -> string)
    requires !Resolved(catalog, row)
    ensures var r := ResolveMessage(catalog, sessionID, row, parse, format);
      r.Media == "" && r.MediaExt == "" && r.Text == row.text.GetOr("")
  {
  }

  /** The messages a session's rows resolve to, one per row, in row order. */
  function ResolveAll(catalog: map<int, C.Media>, sessionID: int, rows: seq<MessageRow>,
                      parse: string -> Option<int>, format: int -> string): (r: seq<Message>)
    ensures |r| == |rows|
  {
    if rows == [] then []
    else ResolveAll(catalog, sessionID, rows[..|rows| - 1], parse, format)
           + [ResolveMessage(catalog, sessionID, rows[|rows| - 1], parse, format)]
  }

  /** Every scanned row yields exactly one message, in query order. */
  lemma {:induction false} ResolveAllAt(catalog: map<int, C.Media>, sessionID: int, rows: seq<MessageRow>,
                                        parse: string -> Option<int>, format: int -> string, i: nat)
    requires i < |rows|
    ensures ResolveAll(catalog, sessionID, rows, parse, format)[i] == ResolveMessage(catalog, sessionID, rows[i], parse, format)
  {
    if i < |rows| - 1 {
      ResolveAllAt(catalog, sessionID, rows[..|rows| - 1], parse, format, i);
    }
  }

  lemma ResolveAllSnoc(catalog: map<int, C.Media>, sessionID: int, rows: seq<MessageRow>,
                       parse: string -> Option<int>, format: int -> string, i: nat)
    requires i < |rows|
    ensures ResolveAll(catalog, sessionID, rows[..i + 1], parse, format) ==
      ResolveAll(catalog, sessionID, rows[..i], parse, format) + [ResolveMessage(catalog, sessionID, rows[i], parse, format)]
  {
    assert rows[..i + 1][..i] == rows[..i];
  }

  /** The copy a resolved message asks for: from the hash-sharded backup
      file to `<dst>/media/<sessionID>/<mediaID><ext>`. */
  function CopyOf(catalog: map<int, C.Media>, src: string, dst: string, sessionID: int, row: MessageRow): FS.CopyOp
    requires Shardable(catalog) && Resolved(catalog, row)
  {
    var id := row.mediaItem.value;
    var media := catalog[id];
    FS.CopyOp(P.ShardedSource(src, media.Hash), P.MediaDst(dst, sessionID, id, media.Ext))
  }

  /** The copy one row asks for: one for a resolved row, none otherwise. */
  function CopiesAsked(catalog: map<int, C.Media>, src: string, dst: string, sessionID: int, row: MessageRow): seq<FS.CopyOp>
    requires Shardable(catalog)
  {
    if Resolved(catalog, row) then [CopyOf(catalog, src, dst, sessionID, row)] else []
  }

  /** The copies the rows ask for, in row order; unresolved rows ask none. */
  function CopyPlan(catalog: map<int, C.Media>, src: string, dst: string, sessionID: int, rows: seq<MessageRow>): seq<FS.CopyOp>
    requires Shardable(catalog)
  {
    if rows == [] then []
    else
      var last := rows[|rows| - 1];
      CopyPlan(catalog, src, dst, sessionID, rows[..|rows| - 1]) + CopiesAsked(catalog, src, dst, sessionID, last)
  }

  lemma CopyPlanSnoc(catalog: map<int, C.Media>, src: string, dst: string, sessionID: int, rows: seq<MessageRow>, i: nat)
    requires Shardable(catalog) && i < |rows|
    ensures CopyPlan(catalog, src, dst, sessionID, rows[..i + 1]) ==
      CopyPlan(catalog, src, dst, sessionID, rows[..i]) + CopiesAsked(catalog, src, dst, sessionID, rows[i])
  {
    assert rows[..i + 1][..i] == rows[..i];
  }

  /** The copy of a resolved message lands where the message's `Media`
      path, taken relative to the destination directory, points. */
  lemma CopyMatchesMediaPath(catalog: map<int, C.Media>, src: string, dst: string, sessionID: int, row: MessageRow,
                             parse: string -> Option<int>, format: int -> string)
    requires Shardable(catalog) && Resolved(catalog, row)
    ensures CopyOf(catalog, src, dst, sessionID, row).dst == P.Join(dst, ResolveMessage(catalog, sessionID, row, parse, format).Media)
    ensures CopyOf(catalog, src, dst, sessionID, row).src == P.ShardedSource(src, catalog[row.mediaItem.value].Hash)
  {
  }

  /** Every resolved message's copy is in the plan. */
  lemma {:induction false} CopyPlanComplete(catalog: map<int, C.Media>, src: string, dst: string, sessionID: int, rows: seq<MessageRow>)
    requires Shardable(catalog)
    ensures forall i :: 0 <= i < |rows| && Resolved(catalog, rows[i]) ==>
      CopyOf(catalog, src, dst, sessionID, rows[i]) in CopyPlan(catalog, src, dst, sessionID, rows)
  {
    if rows != [] {
      var n := |rows| - 1;
      var prefix := rows[..n];
      var before := CopyPlan(catalog, src, dst, sessionID, prefix);
      var plan := CopyPlan(catalog, src, dst, sessionID, rows);
      CopyPlanComplete(catalog, src, dst, sessionID, prefix);
      forall i | 0 <= i < |rows| && Resolved(catalog, rows[i])
        ensures CopyOf(catalog, src, dst, sessionID, rows[i]) in plan
      {
        if i < n {
          assert prefix[i] == rows[i];
          assert CopyOf(catalog, src, dst, sessionID, rows[i]) in before;
        }
      }
    }
  }

  /** `idx` lists the positions of the resolved rows of `rows`, each once,
      in increasing order. */
  predicate ResolvedPositions(catalog: map<int, C.Media>, rows: seq<MessageRow>, idx: seq<nat>) {
    && (forall k :: 0 <= k < |idx| ==> idx[k] < |rows| && Resolved(catalog, rows[idx[k]]))
    && (forall k, l :: 0 <= k < l < |idx| ==> idx[k] < idx[l])
    && (forall i :: 0 <= i < |rows| && Resolved(catalog, rows[i]) ==> i in idx)
  }

  /** The k-th copy of `plan` is the one row `idx[k]` asks for. */
  predicate PlanFollows(catalog: map<int, C.Media>, src: string, dst: string, sessionID: int,
                        rows: seq<MessageRow>, plan: seq<FS.CopyOp>, idx: seq<nat>)
    requires Shardable(catalog)
  {
    && |idx| == |plan|
    && (forall k :: 0 <= k < |idx| && idx[k] < |rows| && Resolved(catalog, rows[idx[k]]) ==>
          plan[k] == CopyOf(catalog, src, dst, sessionID, rows[idx[k]]))
  }

  /** One more row keeps `ResolvedPositions`: its position, if resolved,
      goes at the end. */
  lemma PositionsSnoc(catalog: map<int, C.Media>, rows: seq<MessageRow>, idx: seq<nat>)
    requires rows != [] && ResolvedPositions(catalog, rows[..|rows| - 1], idx)
    ensures var n := |rows| - 1;
      ResolvedPositions(catalog, rows, if Resolved(catalog, rows[n]) then idx + [n] else idx)
  {
    var n := |rows| - 1;
    var prefix := rows[..n];
    var idx' := if Resolved(catalog, rows[n]) then idx + [n] else idx;
    forall k | 0 <= k < |idx'|
      ensures idx'[k] < |rows| && Resolved(catalog, rows[idx'[k]])
    {
      if k < |idx| {
        assert prefix[idx[k]] == rows[idx[k]];
      }
    }
    forall i | 0 <= i < |rows| && Resolved(catalog, rows[i])
      ensures i in idx'
    {
      if i < n {
        assert prefix[i] == rows[i];
      }
    }
  }

  /** One more row keeps `PlanFollows`: its copy, if any, goes at the end. */
  lemma FollowsSnoc(catalog: map<int, C.Media>, src: string, dst: string, sessionID: int,
                    rows: seq<MessageRow>, plan: seq<FS.CopyOp>, idx: seq<nat>)
    requires Shardable(catalog) && rows != []
    requires forall k :: 0 <= k < |idx| ==> idx[k] < |rows| - 1
    requires PlanFollows(catalog, src, dst, sessionID, rows[..|rows| - 1], plan, idx)
    ensures var n := |rows| - 1;
      PlanFollows(catalog, src, dst, sessionID, rows, plan + CopiesAsked(catalog, src, dst, sessionID, rows[n]),
                  if Resolved(catalog, rows[n]) then idx + [n] else idx)
  {
    var n := |rows| - 1;
    var prefix, plan' := rows[..n], plan + CopiesAsked(catalog, src, dst, sessionID, rows[n]);
    var idx' := if Resolved(catalog, rows[n]) then idx + [n] else idx;
    forall k | 0 <= k < |idx'| && idx'[k] < |rows| && Resolved(catalog, rows[idx'[k]])
      ensures plan'[k] == CopyOf(catalog, src, dst, sessionID, rows[idx'[k]])
    {
      if k < |idx| {
        assert prefix[idx[k]] == rows[idx[k]];
        assert plan'[k] == plan[k];
      }
    }
  }

  /** The plan holds exactly one copy per resolved message, in row order:
      its k-th copy is the one row `idx[k]` asks for, the positions `idx`
      increase strictly, and every resolved row is among them. */
  lemma {:induction false} CopyPlanSound(catalog: map<int, C.Media>, src: string, dst: string, sessionID: int,
                                         rows: seq<MessageRow>) returns (idx: seq<nat>)
    requires Shardable(catalog)
    ensures |idx| == |CopyPlan(catalog, src, dst, sessionID, rows)|
    ensures forall k :: 0 <= k < |idx| ==>
      && idx[k] < |rows| && Resolved(catalog, rows[idx[k]])
      && CopyPlan(catalog, src, dst, sessionID, rows)[k] == CopyOf(catalog, src, dst, sessionID, rows[idx[k]])
    ensures forall k, l :: 0 <= k < l < |idx| ==> idx[k] < idx[l]
    ensures forall i :: 0 <= i < |rows| && Resolved(catalog, rows[i]) ==> i in idx
  {
    idx := CopyPlanSelects(catalog, src, dst, sessionID, rows);
  }

  lemma {:induction false} CopyPlanSelects(catalog: map<int, C.Media>, src: string, dst: string, sessionID: int,
                                           rows: seq<MessageRow>) returns (idx: seq<nat>)
    requires Shardable(catalog)
    ensures ResolvedPositions(catalog, rows, idx)
    ensures PlanFollows(catalog, src, dst, sessionID, rows, CopyPlan(catalog, src, dst, sessionID, rows), idx)
  {
    if rows == [] {
      idx := [];
    } else {
      var n := |rows| - 1;
      var prefix := rows[..n];
      var before := CopyPlan(catalog, src, dst, sessionID, prefix);
      var prev := CopyPlanSelects(catalog, src, dst, sessionID, prefix);
      PositionsSnoc(catalog, rows, prev);
      FollowsSnoc(catalog, src, dst, sessionID, rows, before, prev);
      idx := if Resolved(catalog, rows[n]) then prev + [n] else prev;
    }
  }
}
