/** Properties of the list ADT that relate several operations. */
module ListProperties {
  import opened ListModel

  /** Advancing from an active item at position `c`, `k` times, reaches
      position `c + k`, or no active item once the tail has been passed. */
  lemma {:induction false} WalkFrom<D>(s: State<D>, k: nat)
    requires WellFormed(s) && s.cursor.Some? && s.cursor.value + k <= |s.items|
    ensures SuccTimes(s, k).cursor ==
              if s.cursor.value + k < |s.items| then Some(s.cursor.value + k) else None
    decreases k
  {
    if k > 0 {
      if HasSuccessor(s) {
        WalkFrom(Succ(s), k - 1);
      } else {
        assert k == 1;
      }
    }
  }

  /** Once no item is active, advancing changes nothing. */
  lemma {:induction false} OffTailStays<D>(s: State<D>, k: nat)
    requires WellFormed(s) && s.cursor.None?
    ensures SuccTimes(s, k) == s
    decreases k
  {
    if k > 0 {
      assert Succ(s) == s;
      OffTailStays(Succ(s), k - 1);
    }
  }

  /** Advancing `a + b` times is advancing `a` times, then `b` times. */
  lemma {:induction false} SuccTimesAdd<D>(s: State<D>, a: nat, b: nat)
    requires WellFormed(s)
    ensures SuccTimes(s, a + b) == SuccTimes(SuccTimes(s, a), b)
    decreases a
  {
    if a > 0 {
      SuccTimesAdd(Succ(s), a - 1, b);
    }
  }

  /** From List_First, the k-th advance makes item k active for every
      k below the chain's length n, and the n-th advance leaves no active item. */
  lemma {:induction false} WalkFromFirst<D>(s: State<D>, k: nat)
    requires WellFormed(s) && k <= |s.items|
    ensures SuccTimes(First(s), k).cursor == if k < |s.items| then Some(k) else None
  {
    if |s.items| == 0 {
      OffTailStays(First(s), k);
    } else {
      WalkFrom(First(s), k);
    }
  }

  /** Advancing past the tail is idempotent: from List_First, any number of
      advances beyond the chain's length still leaves no active item. */
  lemma {:induction false} WalkPastTail<D>(s: State<D>, extra: nat)
    requires WellFormed(s)
    ensures SuccTimes(First(s), |s.items| + extra).cursor.None?
  {
    WalkFromFirst(s, |s.items|);
    SuccTimesAdd(First(s), |s.items|, extra);
    OffTailStays(SuccTimes(First(s), |s.items|), extra);
  }

  /** `k` head deletions remove exactly the first `k` items. */
  lemma {:induction false} DeleteFirstTimesDrops<D>(s: State<D>, k: nat)
    requires WellFormed(s) && k <= |s.items|
    ensures DeleteFirstTimes(s, k).items == s.items[k..]
    decreases k
  {
    if k > 0 {
      DeleteFirstTimesDrops(DeleteFirst(s), k - 1);
      assert DeleteFirst(s).items[k - 1..] == s.items[k..];
    }
  }

  /** Draining: as many head deletions as there are items leave the empty
      list, and a further deletion is a no-op. */
  lemma DrainFromHead<D>(s: State<D>)
    requires WellFormed(s)
    ensures DeleteFirstTimes(s, |s.items|) == Empty()
    ensures DeleteFirst(DeleteFirstTimes(s, |s.items|)) == Empty()
  {
    DeleteFirstTimesDrops(s, |s.items|);
  }

  /** List_Delete_First undoes List_Insert_First, cursor included. */
  lemma InsertFirstThenDeleteFirst<D>(s: State<D>, d: D)
    requires WellFormed(s)
    ensures DeleteFirst(InsertFirst(s, d)) == s
  {
  }

  /** List_Post_Delete undoes List_Post_Insert. */
  lemma {:induction false} PostInsertThenPostDelete<D>(s: State<D>, d: D)
    requires WellFormed(s)
    ensures PostDelete(PostInsert(s, d)) == s
  {
    if s.cursor.Some? {
      var c := s.cursor.value;
      var r := PostInsert(s, d);
      assert r.items[..c + 1] + r.items[c + 2..] == s.items[..c + 1] + s.items[c + 1..];
      assert s.items[..c + 1] + s.items[c + 1..] == s.items;
    }
  }

  /** After List_Post_Insert, the active item is unchanged and its
      successor holds the inserted record. */
  lemma PostInsertThenSucc<D>(s: State<D>, d: D)
    requires WellFormed(s) && s.cursor.Some?
    ensures ActiveData(PostInsert(s, d)) == ActiveData(s)
    ensures ActiveData(Succ(PostInsert(s, d))) == Some(d)
  {
  }

  /** A second List_Actualize overrides the first: only the last record
      written to the active item survives. */
  lemma ActualizeThenActualize<D>(s: State<D>, d1: D, d2: D)
    requires WellFormed(s)
    ensures Actualize(Actualize(s, d1), d2) == Actualize(s, d2)
  {
  }

  /** `k` rounds of the console driver's exit drain, each List_Succ then
      List_Delete_First. */
  function CursorDrainTimes<D>(s: State<D>, k: nat): (r: State<D>)
    requires WellFormed(s)
    ensures WellFormed(r)
    decreases k
  {
    if k == 0 then s else CursorDrainTimes(DeleteFirst(Succ(s)), k - 1)
  }

  /** With the head active, each drain round frees the head and leaves the
      new head active, until the last round leaves no active item. */
  lemma {:induction false} CursorDrainRounds<D>(s: State<D>, k: nat)
    requires WellFormed(s) && s.cursor == (if |s.items| == 0 then None else Some(0))
    requires k <= |s.items|
    ensures CursorDrainTimes(s, k).items == s.items[k..]
    ensures CursorDrainTimes(s, k).cursor == if k < |s.items| then Some(0) else None
    decreases k
  {
    if k > 0 {
      var t := DeleteFirst(Succ(s));
      assert t.items == s.items[1..];
      CursorDrainRounds(t, k - 1);
      assert t.items[k - 1..] == s.items[k..];
    }
  }

  /** The exit drain (List_First, then rounds while List_Is_Active): its
      loop test holds for exactly as many rounds as there are items, and
      then the list is empty. */
  lemma ExitDrainEmpties<D>(s: State<D>)
    requires WellFormed(s)
    ensures forall k :: 0 <= k < |s.items| ==> CursorDrainTimes(First(s), k).cursor.Some?
    ensures CursorDrainTimes(First(s), |s.items|) == Empty()
  {
    forall k | 0 <= k < |s.items| ensures CursorDrainTimes(First(s), k).cursor.Some? {
      CursorDrainRounds(First(s), k);
    }
    CursorDrainRounds(First(s), |s.items|);
  }
}
