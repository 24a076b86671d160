/**
  The lookup of one name as a search that strips labels off the name, in any
  memory, damaged tries included (pwndbg/aglib/macho.py:43-107).
 */
module MachoTrieLookup {
  import opened Options
  import opened MachoTrie

  /**
    Search the node at ptr + offset for what is left of the name: the node itself if
    nothing is left and it has data, else the first edge, among those whose label
    begins what is left, below which the search does not come back empty-handed.
    Edges with other labels are passed over and what they lead to is not read.
   */
  function SearchNode(mem: Memory, ptr: int, offset: nat, name: Name, left: Name, depth: nat): Lookup
    decreases depth, 256
  {
    if depth == 0 then Error
    else
      match Uleb(mem, ptr + offset)
      case None => Error
      case Some((len, size)) =>
        if left == [] && len > 0 then Found(Entry(name, ptr + offset + size, len))
        else if ptr + offset + size + len !in mem then Error
        else SearchEdges(mem, ptr, mem[ptr + offset + size + len], ptr + offset + size + len + 1, name, left, depth)
  }

  function SearchEdges(mem: Memory, ptr: int, n: nat, cursor: int, name: Name, left: Name, depth: nat): Lookup
    requires depth > 0 && n < 256
    decreases depth, n
  {
    if n == 0 then Absent
    else
      var part := CString(mem, cursor);
      match Uleb(mem, cursor + |part| + 1)
      case None => Error
      case Some((child, size)) =>
        var below := if part <= left then SearchNode(mem, ptr, child, name, left[|part|..], depth - 1) else Absent;
        if below != Absent then below else SearchEdges(mem, ptr, n - 1, cursor + |part| + 1 + size, name, left, depth)
  }

  /** What next() makes of a generator. */
  function First(w: Walk): Lookup {
    if w.items != [] then Found(w.items[0]) else if w.end == Finished then Absent else Error
  }

  lemma FirstThen(w1: Walk, w2: Walk)
    ensures First(Then(w1, w2)) == if First(w1) != Absent then First(w1) else First(w2)
  {
  }

  lemma {:induction false} NodeSearched(mem: Memory, ptr: int, offset: nat, acc: Name, left: Name, depth: nat)
    ensures First(WalkNode(mem, ptr, offset, acc, Only(acc + left), depth)) == SearchNode(mem, ptr, offset, acc + left, left, depth)
    decreases depth, 256
  {
    hide Uleb;
    hide WalkEdges;
    hide SearchEdges;
    var name := acc + left;
    assert acc == name <==> left == [];
    if depth > 0 && Uleb(mem, ptr + offset).Some? {
      var (len, size) := Uleb(mem, ptr + offset).value;
      var cursor := ptr + offset + size + len;
      if cursor in mem {
        EdgesSearched(mem, ptr, mem[cursor], cursor + 1, acc, left, depth);
        var own := if len != 0 && acc == name then [Entry(acc, ptr + offset + size, len)] else [];
        FirstThen(Walk(own, Finished), WalkEdges(mem, ptr, mem[cursor], cursor + 1, acc, Only(name), depth));
      }
    }
  }

  lemma {:induction false} EdgesSearched(mem: Memory, ptr: int, n: nat, cursor: int, acc: Name, left: Name, depth: nat)
    requires depth > 0 && n < 256
    ensures First(WalkEdges(mem, ptr, n, cursor, acc, Only(acc + left), depth)) == SearchEdges(mem, ptr, n, cursor, acc + left, left, depth)
    decreases depth, n
  {
    hide Uleb;
    hide CString;
    hide WalkNode;
    hide SearchNode;
    hide Then;
    if n > 0 {
      var name := acc + left;
      var part := CString(mem, cursor);
      var edge := Uleb(mem, cursor + |part| + 1);
      if edge.Some? {
        var (child, size) := edge.value;
        assert Drop(name, |acc|) == left;
        var sub := if part <= left then WalkNode(mem, ptr, child, acc + part, Only(name), depth - 1) else Walk([], Finished);
        if part <= left {
          assert acc + part + left[|part|..] == name;
          NodeSearched(mem, ptr, child, acc + part, left[|part|..], depth - 1);
        }
        var next := cursor + |part| + 1 + size;
        EdgesSearched(mem, ptr, n - 1, next, acc, left, depth);
        FirstThen(sub, WalkEdges(mem, ptr, n - 1, next, acc, Only(name), depth));
      }
    }
  }

  /** The first entry the pruned walk yields, or how it ends without one, is what the search says. */
  lemma LookupIsSearch(mem: Memory, ptr: int, name: Name, depth: nat)
    ensures Get(mem, ptr, name, depth) == SearchNode(mem, ptr, 0, name, name, depth)
  {
    assert [] + name == name;
    NodeSearched(mem, ptr, 0, [], name, depth);
  }
}
