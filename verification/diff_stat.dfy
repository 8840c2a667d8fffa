/** The overall diffstat of a delta's files: the per-file (added, changed, deleted) line counts
    summed component by component. */
module DiffStats {

  datatype Stat = Stat(added: int, changed: int, deleted: int)

  /** A file diff, reduced to the stat go-diff computes for it. */
  datatype FileDiff = FileDiff(stat: Stat)

  datatype DeltaFiles = DeltaFiles(fileDiffs: seq<FileDiff>)

  const Zero := Stat(0, 0, 0)

  function Plus(a: Stat, b: Stat): Stat {
    Stat(a.added + b.added, a.changed + b.changed, a.deleted + b.deleted)
  }

  /** The sum of one component over the files. */
  function SumAdded(fs: seq<FileDiff>): int {
    if |fs| == 0 then 0 else fs[0].stat.added + SumAdded(fs[1..])
  }

  function SumChanged(fs: seq<FileDiff>): int {
    if |fs| == 0 then 0 else fs[0].stat.changed + SumChanged(fs[1..])
  }

  function SumDeleted(fs: seq<FileDiff>): int {
    if |fs| == 0 then 0 else fs[0].stat.deleted + SumDeleted(fs[1..])
  }

  /** The componentwise sum, as a reference for DiffStat. */
  function Total(fs: seq<FileDiff>): Stat {
    Stat(SumAdded(fs), SumChanged(fs), SumDeleted(fs))
  }

  /** Summing splits over concatenation. */
  lemma {:induction false} TotalAppend(a: seq<FileDiff>, b: seq<FileDiff>)
    ensures Total(a + b) == Plus(Total(a), Total(b))
    decreases |a|
  {
    if |a| > 0 {
      assert (a + b)[1..] == a[1..] + b;
      TotalAppend(a[1..], b);
    } else {
      assert a + b == b;
    }
  }

  /** DeltaFiles.DiffStat: adds up the files' stats in order, starting from zero. */
  method DiffStat(d: DeltaFiles) returns (ds: Stat)
    ensures ds == Total(d.fileDiffs)
    ensures d.fileDiffs == [] ==> ds == Zero
  {
    ds := Zero;
    var i := 0;
    while i < |d.fileDiffs|
      invariant 0 <= i <= |d.fileDiffs|
      invariant ds == Total(d.fileDiffs[..i])
    {
      var st := d.fileDiffs[i].stat;
      TotalAppend(d.fileDiffs[..i], [d.fileDiffs[i]]);
      assert Total([d.fileDiffs[i]]) == st by {
        assert [d.fileDiffs[i]][1..] == [];
      }
      assert d.fileDiffs[..i + 1] == d.fileDiffs[..i] + [d.fileDiffs[i]];
      ds := Stat(ds.added + st.added, ds.changed + st.changed, ds.deleted + st.deleted);
      i := i + 1;
    }
    assert d.fileDiffs[..i] == d.fileDiffs;
  }
}
