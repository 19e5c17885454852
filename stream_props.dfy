/** The ids the id iterator yields: strictly ascending, each above the start,
    exactly the stored ids above it, and, from the initial position 0 on a
    store that keeps its invariant, every stored graph once. */
module StreamProperties {
  import opened Graphs
  import opened Schema
  import DeleteProperties

  /** The least id above `from` splits the ids above `from` into itself and
      the ids above it. */
  lemma IdsAboveSplit(rows: seq<GraphInstanceRow>, from: int, m: int)
    requires LeastIdAbove(rows, from) == Some(m)
    ensures m > from
    ensures IdsAbove(rows, from) == {m} + IdsAbove(rows, m)
    ensures m !in IdsAbove(rows, m)
  {
    var above, rest := IdsAbove(rows, from), IdsAbove(rows, m);
    assert m in above;
    forall x | x in rest
      ensures x in above && x > m
    {
      var r :| r in rows && r.id > m && r.id == x;
      assert r.id > from;
    }
    forall x | x in above && x != m
      ensures x in rest
    {
      var r :| r in rows && r.id > from && r.id == x;
      assert r.id > m;
    }
  }

  /** The stream from `from` yields exactly the stored ids above `from`. */
  lemma {:induction false} IdStreamElements(rows: seq<GraphInstanceRow>, from: int)
    ensures forall x :: x in IdStream(rows, from) <==> x in IdsAbove(rows, from)
    decreases |IdsAbove(rows, from)|
  {
    match LeastIdAbove(rows, from)
    case None =>
    case Some(m) =>
      IdsAboveSplit(rows, from, m);
      assert |IdsAbove(rows, m)| < |IdsAbove(rows, from)|;
      IdStreamElements(rows, m);
  }

  /** The stream is strictly ascending, so no id comes out twice, and every
      id in it is above the start. */
  lemma {:induction false} IdStreamAscending(rows: seq<GraphInstanceRow>, from: int)
    ensures forall i :: 0 <= i < |IdStream(rows, from)| ==> IdStream(rows, from)[i] > from
    ensures forall i, j :: 0 <= i < j < |IdStream(rows, from)| ==> IdStream(rows, from)[i] < IdStream(rows, from)[j]
    decreases |IdsAbove(rows, from)|
  {
    match LeastIdAbove(rows, from)
    case None =>
    case Some(m) =>
      IdsAboveSplit(rows, from, m);
      assert |IdsAbove(rows, m)| < |IdsAbove(rows, from)|;
      IdStreamAscending(rows, m);
      var s, tail := IdStream(rows, from), IdStream(rows, m);
      assert s == [m] + tail;
      assert forall i :: 0 < i < |s| ==> s[i] == tail[i - 1];
  }

  /** One id per stored id above the start. */
  lemma {:induction false} IdStreamLength(rows: seq<GraphInstanceRow>, from: int)
    ensures |IdStream(rows, from)| == |IdsAbove(rows, from)|
    decreases |IdsAbove(rows, from)|
  {
    match LeastIdAbove(rows, from)
    case None =>
    case Some(m) =>
      IdsAboveSplit(rows, from, m);
      assert |IdsAbove(rows, m)| < |IdsAbove(rows, from)|;
      IdStreamLength(rows, m);
  }

  /** A fresh iterator (position 0) over a store that keeps its invariant
      yields every stored graph id, as many ids as the database size. */
  lemma StreamFromStartYieldsAll(db: Db, next: int)
    requires StoreInvariant(db, next)
    ensures forall x :: x in IdStream(db.graphInstances, 0) <==> x in GraphIds(db.graphInstances)
    ensures |IdStream(db.graphInstances, 0)| == DatabaseSize(db)
  {
    var rows := db.graphInstances;
    assert IdsAbove(rows, 0) == GraphIds(rows);
    IdStreamElements(rows, 0);
    IdStreamLength(rows, 0);
    DeleteProperties.DistinctIdsCount(rows);
  }
}
