/**
 * commandDelete as it is written (vgrep.go:570-577): the i-th index of the
 * ascending selection is removed at position idx + i of the list that has
 * already lost i records, and the relabel loop starts after the original
 * idx. This is right for one index; for more it removes the wrong records
 * or slices past the end of the list. Store.MatchList.CommandDelete is the
 * corrected operation the rest of the model uses.
 */
module DeleteFinding {
  import opened Wrappers
  import opened Strconv
  import opened Store

  /** The relabel loop as written: every record after position idx is labelled one lower. */
  function Shifted(ms: seq<Match>, idx: int): (r: seq<Match>)
    ensures |r| == |ms|
    ensures forall i :: 0 <= i < |ms| ==>
              r[i] == if i > idx then ms[i].(index := Itoa(i - 1)) else ms[i]
  {
    seq(|ms|, i requires 0 <= i < |ms| => if i > idx then ms[i].(index := Itoa(i - 1)) else ms[i])
  }

  /**
   * The loop of commandDelete as written, from the offset-th index on;
   * None where Go's slice expression would panic.
   */
  function AsWritten(ms: seq<Match>, indices: seq<int>, offset: nat): (r: Option<seq<Match>>)
    ensures r.Some? ==> |r.value| + |indices| == |ms|
    ensures r.None? ==> indices != []
    decreases |indices|
  {
    if indices == [] then Some(ms)
    else
      var shifted := Shifted(ms, indices[0]);
      var index := indices[0] + offset;
      if index < 0 || index >= |ms| then None
      else AsWritten(shifted[..index] + shifted[index + 1..], indices[1..], offset + 1)
  }

  /** Removing position i after the relabel loop leaves the other records labelled by position. */
  lemma ShiftedRemove(ms: seq<Match>, i: int)
    requires Labelled(ms) && 0 <= i < |ms|
    ensures Shifted(ms, i)[..i] + Shifted(ms, i)[i + 1..] == Relabel(ms[..i] + ms[i + 1..])
  {
    var shifted := Shifted(ms, i);
    var after := shifted[..i] + shifted[i + 1..];
    var kept := ms[..i] + ms[i + 1..];
    forall k | 0 <= k < |after| ensures after[k] == Relabel(kept)[k] {
      if k < i {
        assert after[k] == shifted[k] == ms[k];
        assert kept[k] == ms[k] && ms[k].index == Itoa(k);
      } else {
        assert after[k] == shifted[k + 1] == ms[k + 1].(index := Itoa(k));
        assert kept[k] == ms[k + 1];
      }
    }
  }

  /** The documented effect of deleting one position of a labelled list. */
  lemma DeleteOne(ms: seq<Match>, i: int)
    requires Labelled(ms) && 0 <= i < |ms|
    ensures DeleteAll(ms, [i]) == Relabel(ms[..i] + ms[i + 1..])
  {
    DeleteNothing(ms);
    assert [i][..0] == [] && [i][..1] == [i];
    DeleteStep(ms, [i], 0);
  }

  /** For a single index the code as written does what its comment promises. */
  lemma AsWrittenSingle(ms: seq<Match>, i: int)
    requires Labelled(ms) && 0 <= i < |ms|
    ensures AsWritten(ms, [i], 0) == Some(DeleteAll(ms, [i]))
  {
    var shifted := Shifted(ms, i);
    var after := shifted[..i] + shifted[i + 1..];
    assert [i][1..] == [];
    assert AsWritten(ms, [i], 0) == AsWritten(after, [], 1) == Some(after);
    ShiftedRemove(ms, i);
    DeleteOne(ms, i);
  }

  /** Labelled records in the given files, each with the same line and content. */
  function Sample(files: seq<string>): (ms: seq<Match>)
    ensures |ms| == |files| && Labelled(ms)
  {
    seq(|files|, i requires 0 <= i < |files| => Match(Itoa(i), files[i], "1", "x"))
  }

  /** The files of a list of records, in order. */
  function Files(ms: seq<Match>): seq<string> {
    seq(|ms|, i requires 0 <= i < |ms| => ms[i].file)
  }

  /**
   * Deleting 0 and 1 from four records: the code as written removes the
   * records in files a and d and keeps b and c.
   */
  lemma WrongRecordsDeleted()
    ensures AsWritten(Sample(["a", "b", "c", "d"]), [0, 1], 0).Some?
    ensures Files(AsWritten(Sample(["a", "b", "c", "d"]), [0, 1], 0).value) == ["b", "c"]
  {
    var ms := Sample(["a", "b", "c", "d"]);
    var s1 := Shifted(ms, 0);
    var l1 := s1[..0] + s1[1..];
    assert Files(l1) == ["b", "c", "d"];
    var s2 := Shifted(l1, 1);
    var l2 := s2[..2] + s2[3..];
    assert Files(l2) == ["b", "c"];
    assert [0, 1][1..] == [1] && [1][1..] == [];
    assert AsWritten(ms, [0, 1], 0) == AsWritten(l1, [1], 1);
    assert AsWritten(l1, [1], 1) == AsWritten(l2, [], 2);
  }

  /** The documented effect of the same deletion keeps the records in files c and d. */
  lemma RightRecordsKept()
    ensures Files(DeleteAll(Sample(["a", "b", "c", "d"]), [0, 1])) == ["c", "d"]
  {
    var ms := Sample(["a", "b", "c", "d"]);
    assert Survivors(ms, [0, 1], 2) == [];
    assert Survivors(ms, [0, 1], 3) == [ms[2]];
    assert Survivors(ms, [0, 1], 4) == [ms[2], ms[3]];
  }

  /**
   * Deleting 1 and 3 from five records passes the range check, but in the
   * second round the code as written takes `Matches[5:]` of a list of four:
   * it panics, where the documented effect keeps the records in files a, c
   * and e.
   */
  lemma SliceOutOfRange()
    ensures CheckIndices([1, 3], 5) == Ok([1, 3])
    ensures AsWritten(Sample(["a", "b", "c", "d", "e"]), [1, 3], 0).None?
    ensures Files(DeleteAll(Sample(["a", "b", "c", "d", "e"]), [1, 3])) == ["a", "c", "e"]
  {
    var ms := Sample(["a", "b", "c", "d", "e"]);
    var s1 := Shifted(ms, 1);
    var l1 := s1[..1] + s1[2..];
    assert |l1| == 4;
    assert [1, 3][1..] == [3];
    assert AsWritten(ms, [1, 3], 0) == AsWritten(l1, [3], 1);
    assert Survivors(ms, [1, 3], 1) == [ms[0]];
    assert Survivors(ms, [1, 3], 3) == [ms[0], ms[2]];
    assert Survivors(ms, [1, 3], 5) == [ms[0], ms[2], ms[4]];
  }
}
