/**
  The trie walk against the tree it encodes, and the pruned lookup against the
  full enumeration (pwndbg/aglib/macho.py:43-112).
 */
module MachoTrieProofs {
  import opened Options
  import opened MachoTrie

  // ----- Lookup refines enumeration, for any memory -----

  /** The entries stored under `name`, in order. */
  function Matching(items: seq<Entry>, name: Name): (r: seq<Entry>)
    ensures forall e | e in r :: e in items && e.name == name
  {
    if items == [] then []
    else (if items[0].name == name then [items[0]] else []) + Matching(items[1..], name)
  }

  lemma {:induction false} MatchingAppend(s: seq<Entry>, t: seq<Entry>, name: Name)
    ensures Matching(s + t, name) == Matching(s, name) + Matching(t, name)
    decreases |s|
  {
    if s == [] {
      assert s + t == t;
    } else {
      assert (s + t)[1..] == s[1..] + t;
      MatchingAppend(s[1..], t, name);
    }
  }

  lemma {:induction false} MatchingNone(items: seq<Entry>, name: Name)
    requires forall e | e in items :: e.name != name
    ensures Matching(items, name) == []
    decreases |items|
  {
    if items != [] {
      MatchingNone(items[1..], name);
    }
  }

  ghost predicate AllStart(items: seq<Entry>, acc: Name) {
    forall e | e in items :: acc <= e.name
  }

  /** A subtree only yields names that continue the accumulated one. */
  lemma {:induction false} NodeNamesStart(mem: Memory, ptr: int, offset: nat, acc: Name, sel: Select, depth: nat)
    ensures AllStart(WalkNode(mem, ptr, offset, acc, sel, depth).items, acc)
    decreases depth, 256
  {
    if depth > 0 && Uleb(mem, ptr + offset).Some? {
      var (len, size) := Uleb(mem, ptr + offset).value;
      var cursor := ptr + offset + size + len;
      if cursor in mem {
        EdgeNamesStart(mem, ptr, mem[cursor], cursor + 1, acc, sel, depth);
      }
    }
  }

  lemma {:induction false} EdgeNamesStart(mem: Memory, ptr: int, n: nat, cursor: int, acc: Name, sel: Select, depth: nat)
    requires depth > 0 && n < 256
    ensures AllStart(WalkEdges(mem, ptr, n, cursor, acc, sel, depth).items, acc)
    decreases depth, n
  {
    hide *;
    WalkEdgesItems(mem, ptr, n, cursor, acc, sel, depth);
    if n > 0 {
      var name := CString(mem, cursor);
      var edge := Uleb(mem, cursor + |name| + 1);
      if edge.Some? {
        NodeNamesStart(mem, ptr, edge.value.0, acc + name, sel, depth - 1);
        EdgeNamesStart(mem, ptr, n - 1, cursor + |name| + 1 + edge.value.1, acc, sel, depth);
        AllStartUp(WalkEdges(mem, ptr, n - 1, cursor + |name| + 1 + edge.value.1, acc, sel, depth).items, acc);
        AllStartLonger(WalkNode(mem, ptr, edge.value.0, acc + name, sel, depth - 1).items, acc, name);
      }
    }
    AllStartUp(WalkEdges(mem, ptr, n, cursor, acc, sel, depth).items, acc);
  }

  lemma AllStartLonger(items: seq<Entry>, acc: Name, name: Name)
    requires AllStart(items, acc + name)
    ensures forall e | e in items :: acc <= e.name
  {
  }

  lemma AllStartUp(items: seq<Entry>, acc: Name)
    ensures AllStart(items, acc) <==> forall e | e in items :: acc <= e.name
  {
  }

  /** Where the items of an edge walk come from. */
  lemma WalkEdgesItems(mem: Memory, ptr: int, n: nat, cursor: int, acc: Name, sel: Select, depth: nat)
    requires depth > 0 && n < 256
    ensures n == 0 ==> WalkEdges(mem, ptr, n, cursor, acc, sel, depth).items == []
    ensures n > 0 ==>
              var items := WalkEdges(mem, ptr, n, cursor, acc, sel, depth).items;
              var name := CString(mem, cursor);
              var edge := Uleb(mem, cursor + |name| + 1);
              if edge.None? then items == []
              else
                forall e | e in items ::
                  || e in WalkNode(mem, ptr, edge.value.0, acc + name, sel, depth - 1).items
                  || e in WalkEdges(mem, ptr, n - 1, cursor + |name| + 1 + edge.value.1, acc, sel, depth).items
  {
    hide Uleb;
    hide CString;
    hide WalkNode;
  }

  /** `pruned` keeps exactly the matching entries, as far as `full` got. */
  ghost predicate Refines(full: Walk, pruned: Walk, name: Name) {
    && Matching(full.items, name) <= pruned.items
    && (forall e | e in pruned.items :: e.name == name)
    && (full.end == Finished ==> pruned == Walk(Matching(full.items, name), Finished))
  }

  lemma ThenRefines(f1: Walk, p1: Walk, f2: Walk, p2: Walk, name: Name)
    requires Refines(f1, p1, name) && Refines(f2, p2, name)
    ensures Refines(Then(f1, f2), Then(p1, p2), name)
  {
    MatchingAppend(f1.items, f2.items, name);
  }

  lemma PrefixSplit(acc: Name, part: Name, name: Name)
    ensures acc + part <= name ==> part <= Drop(name, |acc|)
  {
    if acc + part <= name {
      assert part == name[..|acc + part|][|acc|..];
    }
  }

  /** An edge that leads away from `name` has no matching entry below it. */
  lemma SkippedEdge(mem: Memory, ptr: int, child: nat, acc: Name, part: Name, name: Name, depth: nat)
    requires acc <= name && !(part <= Drop(name, |acc|))
    ensures Refines(WalkNode(mem, ptr, child, acc + part, ALL, depth), Walk([], Finished), name)
  {
    var full := WalkNode(mem, ptr, child, acc + part, ALL, depth);
    NodeNamesStart(mem, ptr, child, acc + part, ALL, depth);
    forall e | e in full.items ensures e.name != name {
      assert acc + part <= e.name;
      PrefixSplit(acc, part, name);
    }
    MatchingNone(full.items, name);
  }

  lemma {:induction false} NodeRefines(mem: Memory, ptr: int, offset: nat, acc: Name, name: Name, depth: nat)
    requires acc <= name
    ensures Refines(WalkNode(mem, ptr, offset, acc, ALL, depth), WalkNode(mem, ptr, offset, acc, Only(name), depth), name)
    decreases depth, 256
  {
    hide Uleb;
    hide Refines;
    hide WalkEdges;
    NothingRefines(name);
    if depth > 0 && Uleb(mem, ptr + offset).Some? {
      var (len, size) := Uleb(mem, ptr + offset).value;
      var cursor := ptr + offset + size + len;
      var own := if len != 0 then [Entry(acc, ptr + offset + size, len)] else [];
      var mine := if len != 0 && acc == name then own else [];
      OwnRefines(own, acc, name, Unreadable);
      OwnRefines(own, acc, name, Finished);
      if cursor in mem {
        EdgesRefine(mem, ptr, mem[cursor], cursor + 1, acc, name, depth);
        ThenRefines(Walk(own, Finished), Walk(mine, Finished),
                    WalkEdges(mem, ptr, mem[cursor], cursor + 1, acc, ALL, depth),
                    WalkEdges(mem, ptr, mem[cursor], cursor + 1, acc, Only(name), depth), name);
      }
    }
  }

  lemma OwnRefines(own: seq<Entry>, acc: Name, name: Name, end: End)
    requires |own| <= 1 && forall e | e in own :: e.name == acc
    ensures Refines(Walk(own, end), Walk(if acc == name then own else [], end), name)
  {
    if own != [] {
      assert own[1..] == [] && Matching(own[1..], name) == [];
      assert own == [own[0]];
    }
  }

  lemma {:induction false} EdgesRefine(mem: Memory, ptr: int, n: nat, cursor: int, acc: Name, name: Name, depth: nat)
    requires acc <= name && depth > 0 && n < 256
    ensures Refines(WalkEdges(mem, ptr, n, cursor, acc, ALL, depth), WalkEdges(mem, ptr, n, cursor, acc, Only(name), depth), name)
    decreases depth, n
  {
    hide Uleb;
    hide CString;
    hide WalkNode;
    hide Refines;
    hide Then;
    NothingRefines(name);
    if n > 0 {
      var part := CString(mem, cursor);
      var edge := Uleb(mem, cursor + |part| + 1);
      if edge.Some? {
        var child := edge.value.0;
        var next := cursor + |part| + 1 + edge.value.1;
        var full := WalkNode(mem, ptr, child, acc + part, ALL, depth - 1);
        var pruned := if part <= Drop(name, |acc|) then WalkNode(mem, ptr, child, acc + part, Only(name), depth - 1) else Walk([], Finished);
        if part <= Drop(name, |acc|) {
          assert name == acc + Drop(name, |acc|);
          NodeRefines(mem, ptr, child, acc + part, name, depth - 1);
        } else {
          SkippedEdge(mem, ptr, child, acc, part, name, depth - 1);
        }
        EdgesRefine(mem, ptr, n - 1, next, acc, name, depth);
        ThenRefines(full, pruned, WalkEdges(mem, ptr, n - 1, next, acc, ALL, depth),
                    WalkEdges(mem, ptr, n - 1, next, acc, Only(name), depth), name);
      }
    }
  }

  lemma NothingRefines(name: Name)
    ensures Refines(Walk([], Finished), Walk([], Finished), name)
    ensures Refines(Walk([], Unreadable), Walk([], Unreadable), name)
    ensures Refines(Walk([], TooDeep), Walk([], TooDeep), name)
  {
  }

  ghost predicate FirstNamed(items: seq<Entry>, name: Name, e: Entry) {
    exists i :: 0 <= i < |items| && items[i] == e && e.name == name && forall j | 0 <= j < i :: items[j].name != name
  }

  lemma {:induction false} MatchingFirst(items: seq<Entry>, name: Name)
    ensures Matching(items, name) == [] ==> forall i | 0 <= i < |items| :: items[i].name != name
    ensures Matching(items, name) != [] ==> FirstNamed(items, name, Matching(items, name)[0])
    decreases |items|
  {
    if items != [] {
      MatchingFirst(items[1..], name);
      if items[0].name == name {
        assert FirstNamed(items, name, items[0]);
      } else if Matching(items, name) != [] {
        var e := Matching(items[1..], name)[0];
        var i :| 0 <= i < |items| - 1 && items[1..][i] == e && forall j | 0 <= j < i :: items[1..][j].name != name;
        assert items[i + 1] == e;
        forall j | 0 <= j < i + 1 ensures items[j].name != name {
          assert j > 0 ==> items[j] == items[1..][j - 1];
        }
      }
    }
  }

  /**
    Whatever memory holds: if the enumeration yields `name` before it stops, the
    lookup finds that first entry; if it ends normally without, the lookup is None.
   */
  lemma LookupIsFirstEntry(mem: Memory, ptr: int, name: Name, depth: nat)
    ensures var all := Entries(mem, ptr, depth);
            var got := Get(mem, ptr, name, depth);
            && ((exists i :: 0 <= i < |all.items| && all.items[i].name == name)
                ==> got.Found? && FirstNamed(all.items, name, got.entry))
            && (all.end == Finished && (forall i | 0 <= i < |all.items| :: all.items[i].name != name) ==> got == Absent)
            && (all.end == Finished ==> got != Error)
            && (got.Found? ==> got.entry.name == name)
  {
    NodeRefines(mem, ptr, 0, [], name, depth);
    var all := Entries(mem, ptr, depth);
    MatchingFirst(all.items, name);
  }

  // ----- The tree a memory image encodes -----

  /** A node as laid out: its data, the encoding of the data's length, and its edges. */
  datatype Node = Node(lenCode: seq<Byte>, data: seq<Byte>, edges: seq<Edge>)

  /** An edge: label, the encoding of the child's offset, the offset, the child. */
  datatype Edge = Edge(part: Name, offCode: seq<Byte>, off: nat, child: Node)

  function EdgeBytes(e: Edge): seq<Byte> {
    e.part + [0] + e.offCode
  }

  function EdgesBytes(edges: seq<Edge>): seq<Byte> {
    if edges == [] then [] else EdgeBytes(edges[0]) + EdgesBytes(edges[1..])
  }

  /** Memory at ptr + offset holds the node, and each child is encoded at its offset. */
  ghost predicate Encodes(mem: Memory, ptr: int, offset: nat, node: Node)
    decreases node, 1
  {
    && |node.edges| < 256
    && IsUleb(node.lenCode, |node.data|)
    && Holds(mem, ptr + offset, node.lenCode + node.data + [|node.edges|] + EdgesBytes(node.edges))
    && EncodesEdges(mem, ptr, node.edges)
  }

  ghost predicate EncodesEdges(mem: Memory, ptr: int, edges: seq<Edge>)
    decreases edges, 0
  {
    edges == []
    || (IsLabel(edges[0].part) && IsUleb(edges[0].offCode, edges[0].off)
        && Encodes(mem, ptr, edges[0].off, edges[0].child) && EncodesEdges(mem, ptr, edges[1..]))
  }

  function Max(m: nat, n: nat): nat {
    if m < n then n else m
  }

  function Height(node: Node): nat
    decreases node, 1
  {
    1 + EdgesHeight(node.edges)
  }

  function EdgesHeight(edges: seq<Edge>): nat
    decreases edges, 0
  {
    if edges == [] then 0 else Max(Height(edges[0].child), EdgesHeight(edges[1..]))
  }

  /** Nodes with data in preorder: the path's labels, where the data is, and its length. */
  function Preorder(ptr: int, offset: nat, node: Node, acc: Name): seq<Entry>
    decreases node, 1
  {
    (if node.data == [] then [] else [Entry(acc, ptr + offset + |node.lenCode|, |node.data|)])
    + PreorderEdges(ptr, node.edges, acc)
  }

  function PreorderEdges(ptr: int, edges: seq<Edge>, acc: Name): seq<Entry>
    decreases edges, 0
  {
    if edges == [] then []
    else Preorder(ptr, edges[0].off, edges[0].child, acc + edges[0].part) + PreorderEdges(ptr, edges[1..], acc)
  }

  lemma {:induction false} WalkIsPreorder(mem: Memory, ptr: int, offset: nat, node: Node, acc: Name, depth: nat)
    requires Encodes(mem, ptr, offset, node) && depth >= Height(node)
    ensures WalkNode(mem, ptr, offset, acc, ALL, depth) == Walk(Preorder(ptr, offset, node, acc), Finished)
    decreases node, 1
  {
    NodePlaced(mem, ptr, offset, node);
    EdgesArePreorder(mem, ptr, ptr + offset + |node.lenCode| + |node.data| + 1, node.edges, acc, depth);
    hide Uleb;
    hide Encodes;
    hide EncodesEdges;
    hide Holds;
    hide WalkEdges;
    hide PreorderEdges;
  }

  /** Where the parts of a node are. */
  lemma NodePlaced(mem: Memory, ptr: int, offset: nat, node: Node)
    requires Encodes(mem, ptr, offset, node)
    ensures Uleb(mem, ptr + offset) == Some((|node.data|, |node.lenCode|))
    ensures var cursor := ptr + offset + |node.lenCode| + |node.data|;
            && cursor in mem && mem[cursor] == |node.edges|
            && Holds(mem, cursor + 1, EdgesBytes(node.edges)) && EncodesEdges(mem, ptr, node.edges)
  {
    var base := ptr + offset;
    var count := [|node.edges|];
    HoldsSplit(mem, base, node.lenCode + node.data + count, EdgesBytes(node.edges));
    HoldsSplit(mem, base, node.lenCode + node.data, count);
    HoldsSplit(mem, base, node.lenCode, node.data);
    assert HoldsAt(mem, base + |node.lenCode| + |node.data|, count, 0);
    hide Holds;
    UlebDecodes(mem, base, node.lenCode, |node.data|);
  }

  /** One edge: what its child and the later edges list. */
  lemma EdgeRead(mem: Memory, ptr: int, cursor: int, edges: seq<Edge>, acc: Name, depth: nat)
    requires depth > 0 && 0 < |edges| < 256
    requires CString(mem, cursor) == edges[0].part
    requires Uleb(mem, cursor + |edges[0].part| + 1) == Some((edges[0].off, |edges[0].offCode|))
    requires WalkNode(mem, ptr, edges[0].off, acc + edges[0].part, ALL, depth - 1)
          == Walk(Preorder(ptr, edges[0].off, edges[0].child, acc + edges[0].part), Finished)
    requires WalkEdges(mem, ptr, |edges| - 1, cursor + |edges[0].part| + 1 + |edges[0].offCode|, acc, ALL, depth)
          == Walk(PreorderEdges(ptr, edges[1..], acc), Finished)
    ensures WalkEdges(mem, ptr, |edges|, cursor, acc, ALL, depth) == Walk(PreorderEdges(ptr, edges, acc), Finished)
  {
    hide CString;
    hide Uleb;
    hide WalkNode;
    hide Preorder;
  }

  lemma {:induction false} EdgesArePreorder(mem: Memory, ptr: int, cursor: int, edges: seq<Edge>, acc: Name, depth: nat)
    requires EncodesEdges(mem, ptr, edges) && Holds(mem, cursor, EdgesBytes(edges))
    requires depth > EdgesHeight(edges) && |edges| < 256
    ensures WalkEdges(mem, ptr, |edges|, cursor, acc, ALL, depth) == Walk(PreorderEdges(ptr, edges, acc), Finished)
    decreases edges, 0
  {
    if edges != [] {
      var e := edges[0];
      EdgePlaced(mem, ptr, cursor, edges);
      hide *;
      WalkIsPreorder(mem, ptr, e.off, e.child, acc + e.part, depth - 1);
      EdgesArePreorder(mem, ptr, cursor + |e.part| + 1 + |e.offCode|, edges[1..], acc, depth);
      EdgeRead(mem, ptr, cursor, edges, acc, depth);
    } else {
      hide CString;
      hide Uleb;
    }
  }

  /** Where the first edge and its child and the later edges are. */
  lemma EdgePlaced(mem: Memory, ptr: int, cursor: int, edges: seq<Edge>)
    requires edges != [] && EncodesEdges(mem, ptr, edges) && Holds(mem, cursor, EdgesBytes(edges))
    ensures var e := edges[0];
            && CString(mem, cursor) == e.part
            && Uleb(mem, cursor + |e.part| + 1) == Some((e.off, |e.offCode|))
            && Encodes(mem, ptr, e.off, e.child)
            && EncodesEdges(mem, ptr, edges[1..]) && Holds(mem, cursor + |e.part| + 1 + |e.offCode|, EdgesBytes(edges[1..]))
            && EdgesHeight(edges) >= Height(e.child) && EdgesHeight(edges) >= EdgesHeight(edges[1..])
  {
    var e := edges[0];
    HoldsSplit(mem, cursor, EdgeBytes(e), EdgesBytes(edges[1..]));
    HoldsSplit(mem, cursor, e.part + [0], e.offCode);
    hide Holds;
    hide Uleb;
    hide IsUleb;
    hide CString;
    LabelRead(mem, cursor, e.part);
    UlebDecodes(mem, cursor + |e.part| + 1, e.offCode, e.off);
  }

  /** A well-formed trie lists exactly its tree, and a lookup finds the first node of that name or nothing. */
  lemma TrieDecodes(mem: Memory, ptr: int, root: Node, name: Name, depth: nat)
    requires Encodes(mem, ptr, 0, root) && depth >= Height(root)
    ensures Entries(mem, ptr, depth) == Walk(Preorder(ptr, 0, root, []), Finished)
    ensures var nodes := Preorder(ptr, 0, root, []);
            match Get(mem, ptr, name, depth)
            case Found(e) => FirstNamed(nodes, name, e)
            case Absent => forall i | 0 <= i < |nodes| :: nodes[i].name != name
            case Error => false
  {
    WalkIsPreorder(mem, ptr, 0, root, [], depth);
    LookupIsFirstEntry(mem, ptr, name, depth);
  }
}
