/** The destination filesystem, as far as media copying sees it: the set of
    paths that exist, and a log of the copies made. */
module FileStore {

  datatype CopyOp = CopyOp(src: string, dst: string)

  /** The destinations a sequence of copies names. */
  function Dsts(ops: seq<CopyOp>): set<string> {
    set i | 0 <= i < |ops| :: ops[i].dst
  }

  /** The copies copy-if-absent performs for `ops`, in order, when
      `existing` is what exists at first: an op is carried out exactly when
      its destination neither existed nor was created by an earlier op. */
  function NewCopies(existing: set<string>, ops: seq<CopyOp>): seq<CopyOp> {
    if ops == [] then []
    else
      var before := ops[..|ops| - 1];
      var op := ops[|ops| - 1];
      NewCopies(existing, before) + (if op.dst in existing + Dsts(before) then [] else [op])
  }

  lemma DstsSnoc(ops: seq<CopyOp>, op: CopyOp)
    ensures Dsts(ops + [op]) == Dsts(ops) + {op.dst}
  {
    var s := ops + [op];
    assert s[|ops|] == op;
    forall d | d in Dsts(ops)
      ensures d in Dsts(s)
    {
      var i :| 0 <= i < |ops| && ops[i].dst == d;
      assert s[i] == ops[i];
    }
  }

  /** Running copy-if-absent over `ops` and then over at most one more op
      is running it over both. */
  lemma NewCopiesAppend(existing: set<string>, ops: seq<CopyOp>, more: seq<CopyOp>)
    requires |more| <= 1
    ensures NewCopies(existing, ops + more) == NewCopies(existing, ops) + NewCopies(existing + Dsts(ops), more)
    ensures Dsts(ops + more) == Dsts(ops) + Dsts(more)
  {
    if more == [] {
      assert ops + more == ops;
    } else {
      var op := more[0];
      assert more == [op];
      assert (ops + more)[..|ops|] == ops;
      DstsSnoc(ops, op);
      assert Dsts(more) == {op.dst};
      assert more[..0] == [];
    }
  }

  /** The filesystem state after a plan, then after at most one more op, is
      the state after both. */
  lemma StateAppend(e0: set<string>, c0: seq<CopyOp>, ops: seq<CopyOp>, more: seq<CopyOp>,
                    e1: set<string>, c1: seq<CopyOp>, e2: set<string>, c2: seq<CopyOp>)
    requires |more| <= 1
    requires e1 == e0 + Dsts(ops) && c1 == c0 + NewCopies(e0, ops)
    requires e2 == e1 + Dsts(more) && c2 == c1 + NewCopies(e1, more)
    ensures e2 == e0 + Dsts(ops + more)
    ensures c2 == c0 + NewCopies(e0, ops + more)
  {
    NewCopiesAppend(e0, ops, more);
  }

  /** What copy-if-absent does is exactly: copy every destination missing
      at first, each once, and never touch one that was there. */
  lemma {:induction false} NewCopiesExact(existing: set<string>, ops: seq<CopyOp>)
    ensures Dsts(NewCopies(existing, ops)) == Dsts(ops) - existing
    ensures forall k :: 0 <= k < |NewCopies(existing, ops)| ==> NewCopies(existing, ops)[k] in ops
    ensures forall k, l :: 0 <= k < l < |NewCopies(existing, ops)| ==>
      NewCopies(existing, ops)[k].dst != NewCopies(existing, ops)[l].dst
  {
    if ops != [] {
      var before := ops[..|ops| - 1];
      var op := ops[|ops| - 1];
      assert ops == before + [op];
      NewCopiesExact(existing, before);
      DstsSnoc(before, op);
      var prev := NewCopies(existing, before);
      forall k | 0 <= k < |prev|
        ensures prev[k] in ops
      {
        assert prev[k] in before;
      }
      if op.dst !in existing + Dsts(before) {
        assert NewCopies(existing, ops) == prev + [op];
        DstsSnoc(prev, op);
        forall k | 0 <= k < |prev|
          ensures prev[k].dst != op.dst
        {
          assert prev[k].dst in Dsts(prev);
        }
      } else {
        assert NewCopies(existing, ops) == prev;
      }
    }
  }

  /** Idempotence: when every destination already exists, nothing is
      copied; in particular a second identical pass copies nothing. */
  lemma {:induction false} NewCopiesNoneWhenPresent(existing: set<string>, ops: seq<CopyOp>)
    requires Dsts(ops) <= existing
    ensures NewCopies(existing, ops) == []
  {
    if ops != [] {
      var before := ops[..|ops| - 1];
      assert ops == before + [ops[|ops| - 1]];
      DstsSnoc(before, ops[|ops| - 1]);
      NewCopiesNoneWhenPresent(existing, before);
    }
  }

  class Disk {
    var Existing: set<string>
    var Copies: seq<CopyOp>

    constructor (existing: set<string>)
      ensures Existing == existing && Copies == []
    {
      Existing := existing;
      Copies := [];
    }

    /** `os.Stat` succeeding (the path is not absent). */
    function Exists(path: string): bool
      reads this
    {
      path in Existing
    }

    /** `copyFile(src, dst)`: afterwards `dst` exists; the copy is logged. */
    method Copy(src: string, dst: string)
      modifies this
      ensures Existing == old(Existing) + {dst}
      ensures Copies == old(Copies) + [CopyOp(src, dst)]
    {
      Existing := Existing + {dst};
      Copies := Copies + [CopyOp(src, dst)];
    }
  }
}
