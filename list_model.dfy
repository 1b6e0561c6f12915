/** The list as its users see it, and one transition function per mutating
    operation of the list ADT (src/list.c). The imperative list in
    linked_list.dfy is specified by these functions. */
module ListModel {

  datatype Option<T> = None | Some(value: T)

  /** The records along the chain from `first`, in order, and the position
      of the active item in that chain (None when `active` is NULL). */
  datatype State<D> = State(items: seq<D>, cursor: Option<nat>)

  /** The cursor, when set, designates an item of the chain. */
  predicate WellFormed<D>(s: State<D>)
  {
    s.cursor.Some? ==> s.cursor.value < |s.items|
  }

  /** The state List_Init leaves behind: no items, no active item. */
  function Empty<D>(): State<D>
  {
    State([], None)
  }

  /** The record of the first item, if the chain is not empty. */
  function Head<D>(s: State<D>): (r: Option<D>)
    ensures r.Some? <==> |s.items| > 0
  {
    if |s.items| == 0 then None else Some(s.items[0])
  }

  /** The record of the active item, if there is one. */
  function ActiveData<D>(s: State<D>): (r: Option<D>)
    requires WellFormed(s)
    ensures r.Some? <==> s.cursor.Some?
  {
    match s.cursor
    case None => None
    case Some(c) => Some(s.items[c])
  }

  /** The active item exists and is not the tail of the chain. */
  predicate HasSuccessor<D>(s: State<D>)
  {
    s.cursor.Some? && s.cursor.value + 1 < |s.items|
  }

  /** List_Insert_First: a new head holding `d`, the old chain behind it;
      the active item is the same item, now one position further on. */
  function InsertFirst<D>(s: State<D>, d: D): (r: State<D>)
    requires WellFormed(s)
    ensures WellFormed(r)
    ensures |r.items| == |s.items| + 1 && Head(r) == Some(d) && r.items[1..] == s.items
    ensures r.cursor.Some? <==> s.cursor.Some?
    ensures s.cursor.Some? ==> r.cursor.value == s.cursor.value + 1
    ensures ActiveData(r) == ActiveData(s)
  {
    State([d] + s.items, if s.cursor.None? then None else Some(s.cursor.value + 1))
  }

  /** List_First: the head becomes active; on an empty chain nothing is. */
  function First<D>(s: State<D>): (r: State<D>)
    requires WellFormed(s)
    ensures WellFormed(r) && r.items == s.items
    ensures r.cursor.Some? ==> r.cursor.value == 0
    ensures ActiveData(r) == Head(s)
  {
    State(s.items, if |s.items| == 0 then None else Some(0))
  }

  /** List_Delete_First: drops the head; an active head leaves no active
      item, any other active item stays active. */
  function DeleteFirst<D>(s: State<D>): (r: State<D>)
    requires WellFormed(s)
    ensures WellFormed(r)
    ensures |s.items| == 0 ==> r == s
    ensures |s.items| > 0 ==> r.items == s.items[1..]
    ensures s.cursor == Some(0) ==> r.cursor.None?
    ensures s.cursor.Some? && s.cursor.value > 0 ==>
              r.cursor == Some(s.cursor.value - 1) && ActiveData(r) == ActiveData(s)
    ensures s.cursor.None? ==> r.cursor.None?
  {
    if |s.items| == 0 then s
    else
      var cursor := match s.cursor
        case None => None
        case Some(c) => if c == 0 then None else Some(c - 1);
      State(s.items[1..], cursor)
  }

  /** List_Post_Delete: drops the successor of the active item; without an
      active item or a successor nothing happens. */
  function PostDelete<D>(s: State<D>): (r: State<D>)
    requires WellFormed(s)
    ensures WellFormed(r) && r.cursor == s.cursor && ActiveData(r) == ActiveData(s)
    ensures !HasSuccessor(s) ==> r == s
    ensures HasSuccessor(s) ==>
              var c := s.cursor.value;
              |r.items| == |s.items| - 1 &&
              r.items[..c + 1] == s.items[..c + 1] &&
              r.items[c + 1..] == s.items[c + 2..]
  {
    if HasSuccessor(s) then
      var c := s.cursor.value;
      State(s.items[..c + 1] + s.items[c + 2..], s.cursor)
    else
      s
  }

  /** List_Post_Insert: a new item holding `d` right after the active item,
      before its former successor; without an active item nothing happens. */
  function PostInsert<D>(s: State<D>, d: D): (r: State<D>)
    requires WellFormed(s)
    ensures WellFormed(r) && r.cursor == s.cursor && ActiveData(r) == ActiveData(s)
    ensures s.cursor.None? ==> r == s
    ensures s.cursor.Some? ==>
              var c := s.cursor.value;
              |r.items| == |s.items| + 1 &&
              r.items[..c + 1] == s.items[..c + 1] &&
              r.items[c + 1] == d &&
              r.items[c + 2..] == s.items[c + 1..]
  {
    match s.cursor
    case None => s
    case Some(c) => State(s.items[..c + 1] + [d] + s.items[c + 1..], s.cursor)
  }

  /** List_Actualize: the active item's record becomes `d`; every other
      item and the cursor stay; without an active item nothing happens. */
  function Actualize<D>(s: State<D>, d: D): (r: State<D>)
    requires WellFormed(s)
    ensures WellFormed(r) && r.cursor == s.cursor && |r.items| == |s.items|
    ensures s.cursor.None? ==> r == s
    ensures s.cursor.Some? ==> ActiveData(r) == Some(d)
    ensures forall i :: 0 <= i < |s.items| && Some(i) != s.cursor ==> r.items[i] == s.items[i]
  {
    match s.cursor
    case None => s
    case Some(c) => State(s.items[c := d], s.cursor)
  }

  /** List_Succ: the successor of the active item becomes active, which
      leaves no active item past the tail; without one nothing happens. */
  function Succ<D>(s: State<D>): (r: State<D>)
    requires WellFormed(s)
    ensures WellFormed(r) && r.items == s.items
    ensures HasSuccessor(s) ==> r.cursor == Some(s.cursor.value + 1)
    ensures !HasSuccessor(s) ==> r.cursor.None?
  {
    if HasSuccessor(s) then State(s.items, Some(s.cursor.value + 1))
    else State(s.items, None)
  }

  /** `k` calls of List_Succ in a row. */
  function SuccTimes<D>(s: State<D>, k: nat): (r: State<D>)
    requires WellFormed(s)
    ensures WellFormed(r) && r.items == s.items
    decreases k
  {
    if k == 0 then s else SuccTimes(Succ(s), k - 1)
  }

  /** `k` calls of List_Delete_First in a row. */
  function DeleteFirstTimes<D>(s: State<D>, k: nat): (r: State<D>)
    requires WellFormed(s)
    ensures WellFormed(r)
    decreases k
  {
    if k == 0 then s else DeleteFirstTimes(DeleteFirst(s), k - 1)
  }
}
