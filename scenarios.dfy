/** Client methods that replay the call sequences of the unit tests in
    tests/tests.c; the verifier proves each of their assertions, the
    checks of the test, from the list's method contracts alone. Each one
    starts, as the tests do, from a freshly allocated list and List_Init. */
module ListScenarios {
  import opened ListModel
  import opened LinkedList

  /** test_list_succ: three head inserts, List_First, then advancing; the
      third advance walks off the tail and the fourth stays there. */
  method SuccWalk()
  {
    var l := new List<int>();
    l.Init();
    l.InsertFirst(23, true);
    l.InsertFirst(36, true);
    l.InsertFirst(19, true);
    assert l.Model.items == [19, 36, 23];
    l.First();
    assert l.active == l.first;
    var b := l.IsActive();
    assert b;
    l.Succ();
    var ok, w := l.Copy(Some(0));
    assert ok && w == Some(36);
    l.Succ();
    ok, w := l.Copy(Some(0));
    assert ok && w == Some(23);
    l.Succ();
    b := l.IsActive();
    assert !b && l.active.None?;
    l.Succ();
    b := l.IsActive();
    assert !b;
  }

  /** test_delete_first: after two head inserts, deleting the head exposes
      the older record, and deleting again empties the list. */
  method DeleteHeads()
  {
    var l := new List<int>();
    l.Init();
    l.InsertFirst(23, true);
    l.InsertFirst(35, true);
    l.DeleteFirst();
    var ok, w := l.CopyFirst(Some(0));
    assert ok && w == Some(23);
    l.DeleteFirst();
    assert l.first.None?;
    ok, w := l.CopyFirst(Some(7));
    assert !ok && w == Some(7);
  }

  /** test_post_insert: without an active item List_Post_Insert does
      nothing; after List_First it puts the record second. */
  method InsertAfterHead()
  {
    var l := new List<int>();
    l.Init();
    l.InsertFirst(23, true);
    l.PostInsert(24, true);
    assert l.Model.items == [23];
    l.First();
    l.PostInsert(24, true);
    assert l.Model.items == [23, 24];
    var ok, w := l.Copy(Some(0));
    assert ok && w == Some(23);
  }

  /** test_post_delete: with the head active, List_Post_Delete leaves a
      one-item chain whose head links to NULL. */
  method DeleteAfterHead()
  {
    var l := new List<int>();
    l.Init();
    l.InsertFirst(23, true);
    l.InsertFirst(47, true);
    l.First();
    l.PostDelete();
    assert l.Model.items == [47];
    assert l.memory[l.first.value].next.None? by {
      NodeAt(l.memory, l.nodes, l.Model.items, 0);
    }
  }

  /** test_list_copy_no_active and test_list_actualize_no_active: without
      an active item the buffer is not written and the record is kept. */
  method NoActive()
  {
    var l := new List<int>();
    l.Init();
    l.InsertFirst(23, true);
    var ok, w := l.Copy(Some(5));
    assert !ok && w == Some(5);
    l.Actualize(24);
    assert l.Model.items == [23];
    l.First();
    l.Actualize(24);
    ok, w := l.Copy(Some(5));
    assert ok && w == Some(24);
  }

  /** The console driver's exit drain: List_First, then List_Succ and
      List_Delete_First while List_Is_Active. It frees every node of the
      chain and leaves the list empty. */
  method ExitDrain<D>(l: List<D>)
    requires l.Valid()
    modifies l
    ensures l.Valid() && l.Model == Empty()
    ensures l.memory.Keys == old(l.memory.Keys) - set i | 0 <= i < |old(l.nodes)| :: old(l.nodes)[i]
  {
    l.First();
    ghost var chain := l.nodes;
    ghost var k := 0;
    var b := l.IsActive();
    while b
      invariant l.Valid()
      invariant 0 <= k <= |chain| && l.nodes == chain[k..]
      invariant l.memory.Keys == old(l.memory.Keys) - set i | 0 <= i < k :: chain[i]
      invariant l.Model.cursor == if |l.Model.items| == 0 then None else Some(0)
      invariant b <==> l.Model.cursor.Some?
      decreases |l.Model.items|
    {
      l.Succ();
      l.DeleteFirst();
      assert chain[k..][1..] == chain[k + 1..];
      k := k + 1;
      b := l.IsActive();
    }
    assert k == |chain|;
  }
}
