/**
 * The text outline `exportAsText` builds in mindmap.js: a header, then a
 * pre-order walk from the first level-0 node, one line per node, indented
 * two spaces per step down and marked with "- " below the top. The walk
 * finds children by their `parent` field, in store order.
 */
module Outline {
  import opened Nodes
  import Layout

  const Header: string := "思维导图大纲\n\n"

  /** `'  '.repeat(depth)`. */
  function Indent(depth: nat): (s: string)
    ensures |s| == 2 * depth && forall k :: 0 <= k < |s| ==> s[k] == ' '
  {
    if depth == 0 then "" else "  " + Indent(depth - 1)
  }

  /** The line for a node's text at a depth of the walk. */
  function Line(text: string, depth: nat): string {
    Indent(depth) + (if depth == 0 then "" else "- ") + text + "\n"
  }

  /**
   * `buildOutline(id, depth)`: nothing when no node has the id; otherwise
   * that node's line followed by the outlines of the nodes whose parent is
   * `id`. `fuel` bounds the depth of the walk.
   */
  function Build(ns: seq<Node>, id: nat, depth: nat, fuel: nat): string
    decreases fuel, 0
  {
    match IndexOf(ns, id)
    case None => ""
    case Some(i) => Line(ns[i].text, depth) + (if fuel == 0 then "" else BuildAll(ns, ChildIndices(ns, id), depth + 1, fuel - 1))
  }

  function BuildAll(ns: seq<Node>, kids: seq<nat>, depth: nat, fuel: nat): string
    requires forall k | k in kids :: k < |ns|
    decreases fuel, |kids| + 1
  {
    if kids == [] then ""
    else
      assert kids[0] in kids;
      assert forall k | k in kids[1..] :: k in kids;
      Build(ns, ns[kids[0]].id, depth, fuel) + BuildAll(ns, kids[1..], depth, fuel)
  }

  /** `exportAsText`: the header, then the walk from the first level-0 node, if there is one. */
  function ExportText(ns: seq<Node>): string {
    Header + match Layout.RootIndex(ns)
             case None => ""
             case Some(r) => Build(ns, ns[r].id, 0, |ns|)
  }

  // ---------------------------------------------------------------------
  // The outline as a list of entries
  // ---------------------------------------------------------------------

  /** One line of the outline: the depth of the walk, the node's index in the store and its text. */
  datatype Entry = Entry(depth: nat, index: nat, text: string)

  /** The lines `Build` writes, in order. */
  function Entries(ns: seq<Node>, id: nat, depth: nat, fuel: nat): (es: seq<Entry>)
    decreases fuel, 0
  {
    match IndexOf(ns, id)
    case None => []
    case Some(i) => [Entry(depth, i, ns[i].text)] + (if fuel == 0 then [] else EntriesAll(ns, ChildIndices(ns, id), depth + 1, fuel - 1))
  }

  function EntriesAll(ns: seq<Node>, kids: seq<nat>, depth: nat, fuel: nat): (es: seq<Entry>)
    requires forall k | k in kids :: k < |ns|
    decreases fuel, |kids| + 1
  {
    if kids == [] then []
    else
      assert kids[0] in kids;
      assert forall k | k in kids[1..] :: k in kids;
      Entries(ns, ns[kids[0]].id, depth, fuel) + EntriesAll(ns, kids[1..], depth, fuel)
  }

  /** The text of a list of entries, one line each. */
  function Render(es: seq<Entry>): string {
    if es == [] then "" else Line(es[0].text, es[0].depth) + Render(es[1..])
  }

  lemma {:induction false} RenderAppend(a: seq<Entry>, b: seq<Entry>)
    ensures Render(a + b) == Render(a) + Render(b)
  {
    if a == [] {
      assert a + b == b;
    } else {
      assert (a + b)[0] == a[0];
      assert (a + b)[1..] == a[1..] + b;
      RenderAppend(a[1..], b);
    }
  }

  /** The text `Build` writes is the entries' lines, in order. */
  lemma {:induction false} BuildRenders(ns: seq<Node>, id: nat, depth: nat, fuel: nat)
    ensures Build(ns, id, depth, fuel) == Render(Entries(ns, id, depth, fuel))
    decreases fuel, 1
  {
    match IndexOf(ns, id)
    case None =>
    case Some(i) =>
      if fuel == 0 {
        RenderCons(Entry(depth, i, ns[i].text), []);
      } else {
        ChildrenRender(ns, id, depth, fuel);
        RenderCons(Entry(depth, i, ns[i].text), EntriesAll(ns, ChildIndices(ns, id), depth + 1, fuel - 1));
      }
  }

  lemma {:induction false} ChildrenRender(ns: seq<Node>, id: nat, depth: nat, fuel: nat)
    requires fuel > 0
    ensures BuildAll(ns, ChildIndices(ns, id), depth + 1, fuel - 1) == Render(EntriesAll(ns, ChildIndices(ns, id), depth + 1, fuel - 1))
    decreases fuel, 0
  {
    var cs := ChildIndices(ns, id);
    assert forall k | k in cs :: k < |ns|;
    BuildAllRenders(ns, cs, depth + 1, fuel - 1);
  }

  lemma RenderCons(e: Entry, rest: seq<Entry>)
    ensures Render([e] + rest) == Line(e.text, e.depth) + Render(rest)
  {
    assert ([e] + rest)[0] == e && ([e] + rest)[1..] == rest;
  }

  lemma {:induction false} BuildAllRenders(ns: seq<Node>, kids: seq<nat>, depth: nat, fuel: nat)
    requires forall k | k in kids :: k < |ns|
    ensures BuildAll(ns, kids, depth, fuel) == Render(EntriesAll(ns, kids, depth, fuel))
    decreases fuel, |kids| + 2
  {
    if kids != [] {
      assert kids[0] in kids;
      assert forall k | k in kids[1..] :: k in kids;
      BuildRenders(ns, ns[kids[0]].id, depth, fuel);
      BuildAllRenders(ns, kids[1..], depth, fuel);
      RenderAppend(Entries(ns, ns[kids[0]].id, depth, fuel), EntriesAll(ns, kids[1..], depth, fuel));
    }
  }

  /**
   * The shape of a pre-order walk started at `depth`: it starts there,
   * never goes above it, and goes down at most one step from one line to
   * the next.
   */
  ghost predicate PreOrder(es: seq<Entry>, depth: nat) {
    && (|es| > 0 ==> es[0].depth == depth)
    && (forall j :: 0 <= j < |es| ==> es[j].depth >= depth)
    && (forall j :: 0 <= j < |es| - 1 ==> es[j + 1].depth <= es[j].depth + 1)
  }

  lemma PreOrderAppend(a: seq<Entry>, b: seq<Entry>, depth: nat)
    requires PreOrder(a, depth) && PreOrder(b, depth)
    ensures PreOrder(a + b, depth)
  {
    var c := a + b;
    forall j | 0 <= j < |c| - 1 ensures c[j + 1].depth <= c[j].depth + 1 {
      if j + 1 < |a| {
        assert c[j] == a[j] && c[j + 1] == a[j + 1];
      } else if j + 1 == |a| {
        assert c[j + 1] == b[0];
      } else {
        assert c[j] == b[j - |a|] && c[j + 1] == b[j - |a| + 1];
      }
    }
  }

  /** A line at `depth` followed by a walk one level below is a walk at `depth`. */
  lemma PreOrderCons(e: Entry, rest: seq<Entry>, depth: nat)
    requires e.depth == depth && PreOrder(rest, depth + 1)
    ensures PreOrder([e] + rest, depth)
  {
    var es := [e] + rest;
    forall j | 0 <= j < |es| ensures es[j].depth >= depth {
      if j > 0 {
        assert es[j] == rest[j - 1];
      }
    }
    forall j | 0 <= j < |es| - 1 ensures es[j + 1].depth <= es[j].depth + 1 {
      assert es[j + 1] == rest[j];
      if j > 0 {
        assert es[j] == rest[j - 1];
      }
    }
  }

  lemma {:induction false} EntriesPreOrder(ns: seq<Node>, id: nat, depth: nat, fuel: nat)
    ensures PreOrder(Entries(ns, id, depth, fuel), depth)
    ensures (Entries(ns, id, depth, fuel) != []) <==> id in Ids(ns)
    decreases fuel, 1
  {
    match IndexOf(ns, id)
    case None =>
    case Some(i) =>
      if fuel > 0 {
        ChildrenPreOrder(ns, id, depth, fuel);
        PreOrderCons(Entry(depth, i, ns[i].text), EntriesAll(ns, ChildIndices(ns, id), depth + 1, fuel - 1), depth);
      }
  }

  lemma {:induction false} ChildrenPreOrder(ns: seq<Node>, id: nat, depth: nat, fuel: nat)
    requires fuel > 0
    ensures PreOrder(EntriesAll(ns, ChildIndices(ns, id), depth + 1, fuel - 1), depth + 1)
    decreases fuel, 0
  {
    EntriesAllPreOrder(ns, ChildIndices(ns, id), depth + 1, fuel - 1);
  }

  lemma {:induction false} EntriesAllPreOrder(ns: seq<Node>, kids: seq<nat>, depth: nat, fuel: nat)
    requires forall k | k in kids :: k < |ns|
    ensures PreOrder(EntriesAll(ns, kids, depth, fuel), depth)
    decreases fuel, |kids| + 2
  {
    if kids != [] {
      assert kids[0] in kids;
      assert forall k | k in kids[1..] :: k in kids;
      EntriesPreOrder(ns, ns[kids[0]].id, depth, fuel);
      EntriesAllPreOrder(ns, kids[1..], depth, fuel);
      PreOrderAppend(Entries(ns, ns[kids[0]].id, depth, fuel), EntriesAll(ns, kids[1..], depth, fuel), depth);
    }
  }

  /**
   * Every line of `es`, written by a walk started at `depth` from a node at
   * `level`, sits as deep in the walk as its node sits below that level.
   */
  ghost predicate FollowLevels(ns: seq<Node>, es: seq<Entry>, depth: nat, level: nat) {
    forall e {:trigger e in es} | e in es :: e.index < |ns| && ns[e.index].level + depth == level + e.depth
  }

  lemma FollowLevelsAppend(ns: seq<Node>, a: seq<Entry>, b: seq<Entry>, depth: nat, level: nat)
    requires FollowLevels(ns, a, depth, level) && FollowLevels(ns, b, depth, level)
    ensures FollowLevels(ns, a + b, depth, level)
  {
    assert forall e | e in a + b :: e in a || e in b;
  }

  lemma ChildrenOneDown(ns: seq<Node>, i: nat)
    requires Layout.ChildLevels(ns) && i < |ns|
    ensures forall k | k in ChildIndices(ns, ns[i].id) :: k < |ns| && ns[k].level == ns[i].level + 1
  {
  }

  /**
   * When every child sits one level below its parent and ids are unique,
   * each line's indentation follows the node's level: the walk from a node
   * at `level` writes a node at depth `d` below its start at `level + d`.
   */
  lemma {:induction false} EntriesFollowLevels(ns: seq<Node>, id: nat, depth: nat, level: nat, fuel: nat)
    requires Layout.ChildLevels(ns) && UniqueIds(ns)
    requires IndexOf(ns, id).Some? && ns[IndexOf(ns, id).value].level == level
    ensures FollowLevels(ns, Entries(ns, id, depth, fuel), depth, level)
    decreases fuel, 1
  {
    var i := IndexOf(ns, id).value;
    var head := [Entry(depth, i, ns[i].text)];
    assert FollowLevels(ns, head, depth, level);
    if fuel > 0 {
      ChildrenFollowLevels(ns, i, depth, fuel);
      FollowLevelsAppend(ns, head, EntriesAll(ns, ChildIndices(ns, id), depth + 1, fuel - 1), depth, level);
    }
  }

  lemma {:induction false} ChildrenFollowLevels(ns: seq<Node>, i: nat, depth: nat, fuel: nat)
    requires Layout.ChildLevels(ns) && UniqueIds(ns) && i < |ns| && fuel > 0
    ensures FollowLevels(ns, EntriesAll(ns, ChildIndices(ns, ns[i].id), depth + 1, fuel - 1), depth, ns[i].level)
    decreases fuel, 0
  {
    var rest := EntriesAll(ns, ChildIndices(ns, ns[i].id), depth + 1, fuel - 1);
    ChildrenOneDown(ns, i);
    EntriesAllFollowLevels(ns, ChildIndices(ns, ns[i].id), depth + 1, ns[i].level + 1, fuel - 1);
    FollowLevelsDeeper(ns, rest, depth, ns[i].level);
  }

  lemma FollowLevelsDeeper(ns: seq<Node>, es: seq<Entry>, depth: nat, level: nat)
    requires FollowLevels(ns, es, depth + 1, level + 1)
    ensures FollowLevels(ns, es, depth, level)
  {
  }

  lemma {:induction false} EntriesAllFollowLevels(ns: seq<Node>, kids: seq<nat>, depth: nat, level: nat, fuel: nat)
    requires Layout.ChildLevels(ns) && UniqueIds(ns)
    requires forall k | k in kids :: k < |ns| && ns[k].level == level
    ensures FollowLevels(ns, EntriesAll(ns, kids, depth, fuel), depth, level)
    decreases fuel, |kids| + 2
  {
    if kids != [] {
      var k := kids[0];
      assert k in kids;
      assert forall j | j in kids[1..] :: j in kids;
      UniqueIndexOf(ns, k);
      EntriesFollowLevels(ns, ns[k].id, depth, level, fuel);
      EntriesAllFollowLevels(ns, kids[1..], depth, level, fuel);
      FollowLevelsAppend(ns, Entries(ns, ns[k].id, depth, fuel), EntriesAll(ns, kids[1..], depth, fuel), depth, level);
    }
  }

  /** The first line of a walk is the start node's line. */
  lemma RenderHead(es: seq<Entry>)
    requires es != []
    ensures Render(es)[..|Line(es[0].text, es[0].depth)|] == Line(es[0].text, es[0].depth)
  {
    var l := Line(es[0].text, es[0].depth);
    assert Render(es) == l + Render(es[1..]);
    assert (l + Render(es[1..]))[..|l|] == l;
  }

  /**
   * The walk from a node with a unique id starts with that node's text,
   * without indent or marker, and its lines form a pre-order walk.
   */
  lemma WalkShape(ns: seq<Node>, r: nat)
    requires UniqueIds(ns) && r < |ns|
    ensures var es := Entries(ns, ns[r].id, 0, |ns|);
      && es != [] && es[0] == Entry(0, r, ns[r].text)
      && PreOrder(es, 0)
      && Render(es)[..|ns[r].text| + 1] == ns[r].text + "\n"
  {
    UniqueIndexOf(ns, r);
    EntriesPreOrder(ns, ns[r].id, 0, |ns|);
    var es := Entries(ns, ns[r].id, 0, |ns|);
    assert es[0] == Entry(0, r, ns[r].text);
    RenderHead(es);
    assert Line(ns[r].text, 0) == ns[r].text + "\n";
  }

  /**
   * The exported text is the header followed by the lines of the walk
   * from the first level-0 node, or the header alone when there is none.
   */
  lemma ExportShape(ns: seq<Node>)
    ensures Layout.RootIndex(ns).None? ==> ExportText(ns) == Header
    ensures Layout.RootIndex(ns).Some? ==>
      ExportText(ns) == Header + Render(Entries(ns, ns[Layout.RootIndex(ns).value].id, 0, |ns|))
  {
    if Layout.RootIndex(ns).Some? {
      var r := Layout.RootIndex(ns).value;
      BuildRenders(ns, ns[r].id, 0, |ns|);
    }
  }

  /**
   * In a tree, the indentation of every line of the export is twice the
   * node's level.
   */
  lemma ExportIndentsByLevel(ns: seq<Node>)
    requires WellFormed(ns)
    ensures Layout.RootIndex(ns) == Some(0)
    ensures forall e | e in Entries(ns, ns[0].id, 0, |ns|) :: e.index < |ns| && e.depth == ns[e.index].level
  {
    Layout.TreeChildLevels(ns);
    UniqueIndexOf(ns, 0);
    EntriesFollowLevels(ns, ns[0].id, 0, 0, |ns|);
  }
}
