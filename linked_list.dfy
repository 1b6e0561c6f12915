/** The list ADT of src/list.h and src/list.c: a chain of nodes reached from
    `first`, and an independent cursor `active` into that chain. Node memory
    is an arena owned by the list: a map from addresses to node records, in
    which `malloc` takes an unused address and `free` removes one. */
module LinkedList {
  import opened ListModel

  /** The address of a node; a NULL pointer is None. */
  type Addr = nat

  /** List_Node_t: one item, holding a record and the link to the next item. */
  datatype Node<D> = Node(data: D, next: Option<Addr>)

  /** The pointer to node `k` of the chain `ns`: NULL past its end. */
  function Ptr(ns: seq<Addr>, k: nat): (p: Option<Addr>)
    ensures p.Some? <==> k < |ns|
  {
    if k < |ns| then Some(ns[k]) else None
  }

  /** The chain `ns` is laid out in `mem` holding the records `items`. */
  ghost predicate Chain<D>(mem: map<Addr, Node<D>>, ns: seq<Addr>, items: seq<D>)
  {
    |items| == |ns| &&
    forall i :: 0 <= i < |ns| ==> InPlace(mem, ns, items, i)
  }

  /** Node i of the chain `ns` is allocated, holds record i and links to
      node i + 1, the last node to NULL. */
  ghost predicate InPlace<D>(mem: map<Addr, Node<D>>, ns: seq<Addr>, items: seq<D>, i: nat)
    requires i < |ns| && i < |items|
  {
    ns[i] in mem && mem[ns[i]] == Node(items[i], Ptr(ns, i + 1))
  }

  /** What a chain says about one of its nodes. */
  lemma NodeAt<D>(mem: map<Addr, Node<D>>, ns: seq<Addr>, items: seq<D>, i: nat)
    requires Chain(mem, ns, items) && i < |ns|
    ensures ns[i] in mem && mem[ns[i]].data == items[i] && mem[ns[i]].next == Ptr(ns, i + 1)
  {
    assert InPlace(mem, ns, items, i);
  }

  /** Nodes `i < j` of a chain differ: were they equal, their successors
      would be too, and so on up to the tail, whose `next` is NULL. */
  lemma {:induction false} Differ<D>(mem: map<Addr, Node<D>>, ns: seq<Addr>, items: seq<D>, i: nat, j: nat)
    requires Chain(mem, ns, items) && i < j < |ns|
    ensures ns[i] != ns[j]
    decreases |ns| - j
  {
    NodeAt(mem, ns, items, i);
    NodeAt(mem, ns, items, j);
    if j + 1 < |ns| {
      Differ(mem, ns, items, i + 1, j + 1);
    }
  }

  /** A chain is acyclic: no node occurs in it twice. */
  lemma NoNodeTwice<D>(mem: map<Addr, Node<D>>, ns: seq<Addr>, items: seq<D>)
    requires Chain(mem, ns, items)
    ensures forall i, j :: 0 <= i < j < |ns| ==> ns[i] != ns[j]
  {
    forall i, j | 0 <= i < j < |ns| ensures ns[i] != ns[j] {
      Differ(mem, ns, items, i, j);
    }
  }

  /** The node at position `c` occurs nowhere else in the chain. */
  lemma Unique<D>(mem: map<Addr, Node<D>>, ns: seq<Addr>, items: seq<D>, c: nat)
    requires Chain(mem, ns, items) && c < |ns|
    ensures forall i :: 0 <= i < |ns| && i != c ==> ns[i] != ns[c]
  {
    forall i | 0 <= i < |ns| && i != c ensures ns[i] != ns[c] {
      if i < c {
        Differ(mem, ns, items, i, c);
      } else {
        Differ(mem, ns, items, c, i);
      }
    }
  }

  /** The pointer reached from `p` by following `k` links in `mem`
      (stopping at NULL or at an address not in `mem`). */
  ghost function Follow<D>(mem: map<Addr, Node<D>>, p: Option<Addr>, k: nat): (q: Option<Addr>)
    ensures k == 0 ==> q == p
    decreases k
  {
    if k == 0 || p.None? || p.value !in mem then p
    else Follow(mem, mem[p.value].next, k - 1)
  }

  /** Following `k` links from node `j` of a chain reaches node `j + k`,
      or NULL exactly when that runs past the tail. */
  lemma {:induction false} FollowFrom<D>(mem: map<Addr, Node<D>>, ns: seq<Addr>, items: seq<D>, j: nat, k: nat)
    requires Chain(mem, ns, items) && j + k <= |ns|
    ensures Follow(mem, Ptr(ns, j), k) == Ptr(ns, j + k)
    decreases k
  {
    if k > 0 {
      NodeAt(mem, ns, items, j);
      FollowFrom(mem, ns, items, j + 1, k - 1);
    }
  }

  /** A chain is finite: walking from its head meets node k at step k for
      every k below its length, and NULL after exactly that many steps. */
  lemma ChainEndsInNull<D>(mem: map<Addr, Node<D>>, ns: seq<Addr>, items: seq<D>)
    requires Chain(mem, ns, items)
    ensures Follow(mem, Ptr(ns, 0), |ns|) == None
    ensures forall k :: 0 <= k < |ns| ==> Follow(mem, Ptr(ns, 0), k) == Some(ns[k])
  {
    FollowFrom(mem, ns, items, 0, |ns|);
    forall k | 0 <= k < |ns| ensures Follow(mem, Ptr(ns, 0), k) == Some(ns[k]) {
      FollowFrom(mem, ns, items, 0, k);
    }
  }

  /** Some address beyond every address in `used`, for `malloc` to return. */
  lemma {:induction false} Unused(used: set<Addr>) returns (a: Addr)
    ensures forall x :: x in used ==> x < a
    decreases |used|
  {
    if used != {} {
      var x :| x in used;
      var b := Unused(used - {x});
      a := if b <= x then x + 1 else b;
      forall y | y in used ensures y < a {
        if y != x {
          assert y in used - {x};
        }
      }
    } else {
      a := 0;
    }
  }

  /** Prepending a node at an unused address `a` that links to the old head
      gives a chain one longer. */
  lemma Prepend<D>(mem: map<Addr, Node<D>>, ns: seq<Addr>, items: seq<D>, a: Addr, d: D)
    requires Chain(mem, ns, items) && a !in mem
    ensures Chain(mem[a := Node(d, Ptr(ns, 0))], [a] + ns, [d] + items)
  {
    var mem', ns', items' := mem[a := Node(d, Ptr(ns, 0))], [a] + ns, [d] + items;
    forall i | 0 <= i < |ns'| ensures InPlace(mem', ns', items', i) {
      if i > 0 {
        NodeAt(mem, ns, items, i - 1);
        assert ns'[i] == ns[i - 1] && items'[i] == items[i - 1] && Ptr(ns', i + 1) == Ptr(ns, i);
      }
    }
  }

  /** Freeing the head node leaves the rest of the chain. */
  lemma DropHead<D>(mem: map<Addr, Node<D>>, ns: seq<Addr>, items: seq<D>)
    requires Chain(mem, ns, items) && |ns| > 0
    ensures Chain(mem - {ns[0]}, ns[1..], items[1..])
  {
    var mem', ns', items' := mem - {ns[0]}, ns[1..], items[1..];
    forall i | 0 <= i < |ns'| ensures InPlace(mem', ns', items', i) {
      NodeAt(mem, ns, items, i + 1);
      Differ(mem, ns, items, 0, i + 1);
      assert ns'[i] == ns[i + 1] && items'[i] == items[i + 1] && Ptr(ns', i + 1) == Ptr(ns, i + 2);
    }
  }

  /** Splicing a node at an unused address `a` in after node `c` gives the
      chain with `a` at position c + 1. */
  lemma SpliceIn<D>(mem: map<Addr, Node<D>>, ns: seq<Addr>, items: seq<D>, c: nat, a: Addr, d: D)
    requires Chain(mem, ns, items) && c < |ns| && a !in mem
    ensures Chain(mem[a := Node(d, Ptr(ns, c + 1))][ns[c] := Node(items[c], Some(a))],
                  ns[..c + 1] + [a] + ns[c + 1..], items[..c + 1] + [d] + items[c + 1..])
  {
    var mem' := mem[a := Node(d, Ptr(ns, c + 1))][ns[c] := Node(items[c], Some(a))];
    var ns', items' := ns[..c + 1] + [a] + ns[c + 1..], items[..c + 1] + [d] + items[c + 1..];
    NodeAt(mem, ns, items, c);
    forall i | 0 <= i < |ns'| ensures InPlace(mem', ns', items', i) {
      if i < c {
        NodeAt(mem, ns, items, i);
        Differ(mem, ns, items, i, c);
        assert ns'[i] == ns[i] && items'[i] == items[i] && Ptr(ns', i + 1) == Ptr(ns, i + 1);
      } else if i == c {
        assert ns'[i] == ns[c] && items'[i] == items[c] && Ptr(ns', i + 1) == Some(a);
      } else if i == c + 1 {
        assert ns'[i] == a && items'[i] == d && Ptr(ns', i + 1) == Ptr(ns, c + 1);
      } else {
        NodeAt(mem, ns, items, i - 1);
        Differ(mem, ns, items, c, i - 1);
        assert ns'[i] == ns[i - 1] && items'[i] == items[i - 1] && Ptr(ns', i + 1) == Ptr(ns, i);
      }
    }
  }

  /** Freeing node c + 1 and linking node c to its successor gives the chain
      without position c + 1. */
  lemma SpliceOut<D>(mem: map<Addr, Node<D>>, ns: seq<Addr>, items: seq<D>, c: nat)
    requires Chain(mem, ns, items) && c + 1 < |ns|
    ensures Chain((mem - {ns[c + 1]})[ns[c] := Node(items[c], Ptr(ns, c + 2))],
                  ns[..c + 1] + ns[c + 2..], items[..c + 1] + items[c + 2..])
  {
    var mem' := (mem - {ns[c + 1]})[ns[c] := Node(items[c], Ptr(ns, c + 2))];
    var ns', items' := ns[..c + 1] + ns[c + 2..], items[..c + 1] + items[c + 2..];
    forall i | 0 <= i < |ns'| ensures InPlace(mem', ns', items', i) {
      if i < c {
        NodeAt(mem, ns, items, i);
        Differ(mem, ns, items, i, c);
        Differ(mem, ns, items, i, c + 1);
        assert ns'[i] == ns[i] && items'[i] == items[i] && Ptr(ns', i + 1) == Ptr(ns, i + 1);
      } else if i == c {
        assert ns'[i] == ns[c] && items'[i] == items[c] && Ptr(ns', i + 1) == Ptr(ns, c + 2);
      } else {
        NodeAt(mem, ns, items, i + 1);
        Differ(mem, ns, items, c, i + 1);
        Differ(mem, ns, items, c + 1, i + 1);
        assert ns'[i] == ns[i + 1] && items'[i] == items[i + 1] && Ptr(ns', i + 1) == Ptr(ns, i + 2);
      }
    }
  }

  /** Overwriting the record of node `c` gives the chain with record c replaced. */
  lemma Overwrite<D>(mem: map<Addr, Node<D>>, ns: seq<Addr>, items: seq<D>, c: nat, d: D)
    requires Chain(mem, ns, items) && c < |ns|
    ensures Chain(mem[ns[c] := Node(d, Ptr(ns, c + 1))], ns, items[c := d])
  {
    var mem', items' := mem[ns[c] := Node(d, Ptr(ns, c + 1))], items[c := d];
    forall i | 0 <= i < |ns| ensures InPlace(mem', ns, items', i) {
      if i != c {
        NodeAt(mem, ns, items, i);
        Unique(mem, ns, items, c);
      }
    }
  }

  /** The list invariant on values: `ns` is laid out in `mem` holding the
      model's records, `first` points at its first node, and `active`, when
      not NULL, points at the node at the model's cursor. */
  ghost predicate Linked<D>(mem: map<Addr, Node<D>>, first: Option<Addr>, active: Option<Addr>,
                            ns: seq<Addr>, m: State<D>)
  {
    Chain(mem, ns, m.items) &&
    first == Ptr(ns, 0) &&
    WellFormed(m) &&
    active == (if m.cursor.None? then None else Some(ns[m.cursor.value]))
  }

  /** List_Insert_First keeps the invariant. */
  lemma InsertFirstKeeps<D>(mem: map<Addr, Node<D>>, first: Option<Addr>, active: Option<Addr>,
                            ns: seq<Addr>, m: State<D>, a: Addr, d: D)
    requires Linked(mem, first, active, ns, m) && a !in mem
    ensures Linked(mem[a := Node(d, first)], Some(a), active, [a] + ns, ListModel.InsertFirst(m, d))
  {
    Prepend(mem, ns, m.items, a, d);
    if m.cursor.Some? {
      assert ([a] + ns)[m.cursor.value + 1] == ns[m.cursor.value];
    }
  }

  /** List_Delete_First keeps the invariant. */
  lemma DeleteFirstKeeps<D>(mem: map<Addr, Node<D>>, first: Option<Addr>, active: Option<Addr>,
                            ns: seq<Addr>, m: State<D>)
    requires Linked(mem, first, active, ns, m) && first.Some?
    ensures Linked(mem - {first.value}, Ptr(ns, 1), if active == first then None else active,
                   ns[1..], ListModel.DeleteFirst(m))
  {
    DropHead(mem, ns, m.items);
    if m.cursor.Some? && m.cursor.value > 0 {
      Differ(mem, ns, m.items, 0, m.cursor.value);
    }
  }

  /** List_Post_Delete keeps the invariant. */
  lemma PostDeleteKeeps<D>(mem: map<Addr, Node<D>>, first: Option<Addr>, active: Option<Addr>,
                           ns: seq<Addr>, m: State<D>)
    requires Linked(mem, first, active, ns, m) && HasSuccessor(m)
    ensures var c := m.cursor.value;
            Linked((mem - {ns[c + 1]})[ns[c] := Node(m.items[c], Ptr(ns, c + 2))],
                   first, active, ns[..c + 1] + ns[c + 2..], ListModel.PostDelete(m))
  {
    SpliceOut(mem, ns, m.items, m.cursor.value);
  }

  /** List_Post_Insert keeps the invariant. */
  lemma PostInsertKeeps<D>(mem: map<Addr, Node<D>>, first: Option<Addr>, active: Option<Addr>,
                           ns: seq<Addr>, m: State<D>, a: Addr, d: D)
    requires Linked(mem, first, active, ns, m) && m.cursor.Some? && a !in mem
    ensures var c := m.cursor.value;
            Linked(mem[a := Node(d, Ptr(ns, c + 1))][ns[c] := Node(m.items[c], Some(a))],
                   first, active, ns[..c + 1] + [a] + ns[c + 1..], ListModel.PostInsert(m, d))
  {
    SpliceIn(mem, ns, m.items, m.cursor.value, a, d);
  }

  /** List_Actualize keeps the invariant. */
  lemma ActualizeKeeps<D>(mem: map<Addr, Node<D>>, first: Option<Addr>, active: Option<Addr>,
                          ns: seq<Addr>, m: State<D>, d: D)
    requires Linked(mem, first, active, ns, m) && m.cursor.Some?
    ensures var c := m.cursor.value;
            Linked(mem[ns[c] := Node(d, Ptr(ns, c + 1))], first, active, ns, ListModel.Actualize(m, d))
  {
    Overwrite(mem, ns, m.items, m.cursor.value, d);
  }

  /** List_t: the head of the chain and the active item, each possibly NULL. */
  class List<D> {
    var first: Option<Addr>
    var active: Option<Addr>
    /** The nodes allocated for this list, by address. */
    var memory: map<Addr, Node<D>>

    /** The addresses of the chain from `first`, in order. */
    ghost var nodes: seq<Addr>
    /** The records of those nodes and the cursor's position among them. */
    ghost var Model: State<D>

    /** An uninitialised list, as a client's `malloc(sizeof(List_t))`
        leaves it: List_Init must be called before any other operation. */
    constructor ()
    {
    }

    /** The chain invariant, on the fields of this list. */
    ghost predicate Valid()
      reads this
    {
      Linked(memory, first, active, nodes, Model)
    }

    /** List_Init: whatever the prior state, no items and no active item.
        Nodes of an earlier chain stay allocated, as in the source. */
    method Init()
      modifies this
      ensures Valid()
      ensures first == None && active == None && memory == old(memory)
      ensures Model == Empty()
    {
      first, active := None, None;
      nodes, Model := [], Empty();
    }

    /** List_Insert_First; `allocOk` is false when the allocation fails.
        The new node links to the old head; the active node stays active. */
    method InsertFirst(d: D, allocOk: bool)
      requires Valid()
      modifies this
      ensures Valid()
      ensures Model == if allocOk then ListModel.InsertFirst(old(Model), d) else old(Model)
      ensures active == old(active)
      ensures !allocOk ==> first == old(first) && memory == old(memory)
      ensures allocOk ==>
                first.Some? && first.value !in old(memory) &&
                memory == old(memory)[first.value := Node(d, old(first))]
    {
      if !allocOk {
        return;
      }
      ghost var bound := Unused(memory.Keys);
      assert bound !in memory;
      var a: Addr :| a !in memory;
      InsertFirstKeeps(memory, first, active, nodes, Model, a, d);
      memory := memory[a := Node(d, first)];
      first := Some(a);
      nodes, Model := [a] + nodes, ListModel.InsertFirst(Model, d);
    }

    /** List_First: the head becomes active (NULL on an empty chain). */
    method First()
      requires Valid()
      modifies this
      ensures Valid()
      ensures first == old(first) && active == first && memory == old(memory)
      ensures nodes == old(nodes)
      ensures Model == ListModel.First(old(Model))
    {
      active := first;
      Model := ListModel.First(Model);
    }

    /** List_Copy_First. `dest` is the output buffer: None for a NULL
        pointer, otherwise its current content. Returns whether a record was
        read and what the buffer holds afterwards; the list is not touched. */
    method CopyFirst(dest: Option<D>) returns (ok: bool, written: Option<D>)
      requires Valid()
      ensures ok <==> dest.Some? && |Model.items| > 0
      ensures ok ==> written == Head(Model)
      ensures !ok ==> written == dest
    {
      if dest.None? {
        return false, dest;
      }
      if first.None? {
        return false, dest;
      }
      NodeAt(memory, nodes, Model.items, 0);
      return true, Some(memory[first.value].data);
    }

    /** List_Delete_First: the head node is freed and its successor becomes
        the head; an active head leaves no active item; on an empty chain
        nothing happens. */
    method DeleteFirst()
      requires Valid()
      modifies this
      ensures Valid()
      ensures Model == ListModel.DeleteFirst(old(Model))
      ensures old(first).None? ==> first.None? && active == old(active) && memory == old(memory)
      ensures old(first).Some? ==>
                old(first.value in memory) &&
                first == old(memory[first.value].next) &&
                memory == old(memory) - {old(first.value)} &&
                nodes == old(nodes[1..])
      ensures old(first).Some? && old(active) == old(first) ==> active.None?
      ensures old(active) != old(first) ==> active == old(active)
    {
      if first.None? {
        return;
      }
      NodeAt(memory, nodes, Model.items, 0);
      DeleteFirstKeeps(memory, first, active, nodes, Model);
      if first == active {
        active := None;
      }
      var second := memory[first.value].next;
      memory := memory - {first.value};
      first := second;
      nodes, Model := nodes[1..], ListModel.DeleteFirst(Model);
    }

    /** List_Post_Delete: the successor of the active node is freed and the
        active node is linked to the node after it; the active node's record
        is untouched. Without an active node or a successor nothing happens. */
    method PostDelete()
      requires Valid()
      modifies this
      ensures Valid()
      ensures Model == ListModel.PostDelete(old(Model))
      ensures first == old(first) && active == old(active)
      ensures !HasSuccessor(old(Model)) ==> memory == old(memory)
      ensures HasSuccessor(old(Model)) ==>
                var act := active.value;
                old(act in memory && memory[act].next.Some?) &&
                var victim := old(memory[act].next.value);
                old(victim in memory) && victim != act &&
                memory == (old(memory) - {victim})[act := old(memory[act]).(next := old(memory[victim].next))]
    {
      if active.None? {
        return;
      }
      var act := active.value;
      ghost var c := Model.cursor.value;
      NodeAt(memory, nodes, Model.items, c);
      if memory[act].next.None? {
        return;
      }
      var victim := memory[act].next.value;
      NodeAt(memory, nodes, Model.items, c + 1);
      Differ(memory, nodes, Model.items, c, c + 1);
      PostDeleteKeeps(memory, first, active, nodes, Model);
      memory := (memory - {victim})[act := memory[act].(next := memory[victim].next)];
      nodes, Model := nodes[..c + 1] + nodes[c + 2..], ListModel.PostDelete(Model);
    }

    /** List_Post_Insert; `allocOk` is false when the allocation fails.
        The new node goes between the active node and its successor. Without
        an active node nothing is allocated and nothing happens. */
    method PostInsert(d: D, allocOk: bool)
      requires Valid()
      modifies this
      ensures Valid()
      ensures Model == if allocOk then ListModel.PostInsert(old(Model), d) else old(Model)
      ensures first == old(first) && active == old(active)
      ensures active.None? || !allocOk ==> memory == old(memory)
      ensures active.Some? && allocOk ==>
                var act := active.value;
                old(act in memory) && act in memory && memory[act].next.Some? &&
                var a := memory[act].next.value;
                a !in old(memory) &&
                memory == old(memory)[a := Node(d, old(memory[act].next))][act := old(memory[act]).(next := Some(a))]
    {
      if active.None? {
        return;
      }
      if !allocOk {
        return;
      }
      var act := active.value;
      ghost var c := Model.cursor.value;
      NodeAt(memory, nodes, Model.items, c);
      ghost var bound := Unused(memory.Keys);
      assert bound !in memory;
      var a: Addr :| a !in memory;
      PostInsertKeeps(memory, first, active, nodes, Model, a, d);
      memory := memory[a := Node(d, memory[act].next)][act := memory[act].(next := Some(a))];
      nodes, Model := nodes[..c + 1] + [a] + nodes[c + 1..], ListModel.PostInsert(Model, d);
    }

    /** List_Copy. `dest` is the output buffer as in CopyFirst. Returns
        whether the active record was read; the list is not touched. */
    method Copy(dest: Option<D>) returns (ok: bool, written: Option<D>)
      requires Valid()
      ensures ok <==> dest.Some? && Model.cursor.Some?
      ensures ok ==> written == ActiveData(Model)
      ensures !ok ==> written == dest
    {
      if dest.None? {
        return false, dest;
      }
      if active.None? {
        return false, dest;
      }
      NodeAt(memory, nodes, Model.items, Model.cursor.value);
      return true, Some(memory[active.value].data);
    }

    /** List_Actualize: the active node's record is overwritten in place;
        without an active node nothing happens. */
    method Actualize(d: D)
      requires Valid()
      modifies this
      ensures Valid()
      ensures Model == ListModel.Actualize(old(Model), d)
      ensures first == old(first) && active == old(active)
      ensures active.None? ==> memory == old(memory)
      ensures active.Some? ==>
                old(active.value in memory) &&
                memory == old(memory)[active.value := old(memory[active.value]).(data := d)]
    {
      if active.None? {
        return;
      }
      var act := active.value;
      NodeAt(memory, nodes, Model.items, Model.cursor.value);
      ActualizeKeeps(memory, first, active, nodes, Model, d);
      memory := memory[act := memory[act].(data := d)];
      Model := ListModel.Actualize(Model, d);
    }

    /** List_Succ: the cursor moves to the active node's successor, which is
        NULL past the tail; without an active node nothing happens. */
    method Succ()
      requires Valid()
      modifies this
      ensures Valid()
      ensures Model == ListModel.Succ(old(Model))
      ensures first == old(first) && memory == old(memory) && nodes == old(nodes)
      ensures old(active).None? ==> active.None?
      ensures old(active).Some? ==>
                old(active.value in memory) && active == old(memory[active.value].next)
    {
      if active.None? {
        return;
      }
      NodeAt(memory, nodes, Model.items, Model.cursor.value);
      active := memory[active.value].next;
      Model := ListModel.Succ(Model);
    }

    /** List_Is_Active: whether there is an active item. */
    method IsActive() returns (b: bool)
      requires Valid()
      ensures b <==> Model.cursor.Some?
      ensures b <==> ActiveData(Model).Some?
    {
      b := active.Some?;
    }
  }
}
