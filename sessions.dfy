/** Session enumeration: the chat sessions in the order the chat store's
    query returns them (most recent first), without the status
    pseudo-sessions. */
module Sessions {
  import opened Wrappers

  datatype Session = Session(ID: int, CID: string, Name: string)

  /** One `(Z_PK, ZCONTACTJID, ZPARTNERNAME)` row as the store holds it. */
  datatype SessionRow = SessionRow(pk: Option<int>, contactJID: Option<string>, partnerName: Option<string>)

  /** Scanning a NULL into an `int` or `string` field fails; the error names
      the first NULL column (0, 1 or 2). */
  datatype ScanError = NullColumn(column: nat)

  /** Column `c` of the row (0 `Z_PK`, 1 `ZCONTACTJID`, 2 `ZPARTNERNAME`) is NULL. */
  predicate ColumnNull(row: SessionRow, c: nat) {
    (c == 0 && row.pk.None?) || (c == 1 && row.contactJID.None?) || (c == 2 && row.partnerName.None?)
  }

  function Scan(row: SessionRow): (r: Result<Session, ScanError>)
    ensures r.Success? <==> row.pk.Some? && row.contactJID.Some? && row.partnerName.Some?
    ensures r.Success? ==> r.value.ID == row.pk.value && r.value.CID == row.contactJID.value && r.value.Name == row.partnerName.value
    ensures r.Failure? ==> ColumnNull(row, r.error.column) && forall c: nat :: c < r.error.column ==> !ColumnNull(row, c)
  {
    if row.pk.None? then Failure(NullColumn(0))
    else if row.contactJID.None? then Failure(NullColumn(1))
    else if row.partnerName.None? then Failure(NullColumn(2))
    else Success(Session(row.pk.value, row.contactJID.value, row.partnerName.value))
  }

  predicate AllScan(rows: seq<SessionRow>) {
    forall i :: 0 <= i < |rows| ==> Scan(rows[i]).Success?
  }

  const StatusSuffix := "@status"

  predicate HasSuffix(s: string, suffix: string) {
    |suffix| <= |s| && s[|s| - |suffix|..] == suffix
  }

  /** A status/broadcast pseudo-session. */
  predicate IsStatus(s: Session) {
    HasSuffix(s.CID, StatusSuffix)
  }

  /** The scanned sessions, in order, minus the status ones. */
  function Kept(rows: seq<SessionRow>): seq<Session>
    requires AllScan(rows)
  {
    if rows == [] then []
    else
      var s := Scan(rows[|rows| - 1]).value;
      Kept(rows[..|rows| - 1]) + (if IsStatus(s) then [] else [s])
  }

  /** `GetSessions`: collect the rows, skipping status sessions, and give
      up with the error of the first row that does not scan. */
  method GetSessions(rows: seq<SessionRow>) returns (r: Result<seq<Session>, ScanError>)
    ensures r.Success? <==> AllScan(rows)
    ensures r.Success? ==> r.value == Kept(rows)
    ensures r.Failure? ==> exists i :: 0 <= i < |rows| && Scan(rows[i]) == Failure(r.error) && AllScan(rows[..i])
  {
    var css: seq<Session> := [];
    var i := 0;
    while i < |rows|
      invariant 0 <= i <= |rows|
      invariant AllScan(rows[..i])
      invariant css == Kept(rows[..i])
    {
      var scanned := Scan(rows[i]);
      if scanned.Failure? {
        return Failure(scanned.error);
      }
      assert rows[..i + 1][..i] == rows[..i];
      var cs := scanned.value;
      if !IsStatus(cs) {
        css := css + [cs];
      }
      i := i + 1;
    }
    assert rows[..i] == rows;
    return Success(css);
  }

  /** No status session is ever returned. */
  lemma {:induction false} KeptHasNoStatus(rows: seq<SessionRow>)
    requires AllScan(rows)
    ensures forall k :: 0 <= k < |Kept(rows)| ==> !IsStatus(Kept(rows)[k])
  {
    if rows != [] {
      KeptHasNoStatus(rows[..|rows| - 1]);
    }
  }

  /** The result is exactly the non-status input rows in input order: it is
      picked out of the input at strictly increasing positions `idx`, and
      every non-status row is among them. */
  lemma {:induction false} KeptIsOrderedSelection(rows: seq<SessionRow>) returns (idx: seq<nat>)
    requires AllScan(rows)
    ensures |idx| == |Kept(rows)|
    ensures forall k :: 0 <= k < |idx| ==> idx[k] < |rows| && Kept(rows)[k] == Scan(rows[idx[k]]).value
    ensures forall k, l :: 0 <= k < l < |idx| ==> idx[k] < idx[l]
    ensures forall i :: 0 <= i < |rows| && !IsStatus(Scan(rows[i]).value) ==> i in idx
  {
    if rows == [] {
      idx := [];
    } else {
      var n := |rows| - 1;
      var prefix := rows[..n];
      idx := KeptIsOrderedSelection(prefix);
      forall k | 0 <= k < |idx|
        ensures Scan(prefix[idx[k]]) == Scan(rows[idx[k]])
      {
        assert prefix[idx[k]] == rows[idx[k]];
      }
      forall i | 0 <= i < n && !IsStatus(Scan(rows[i]).value)
        ensures i in idx
      {
        assert prefix[i] == rows[i];
      }
      if !IsStatus(Scan(rows[n]).value) {
        idx := idx + [n];
      }
    }
  }
}
