/**
 * Outline reconstruction (`DynalistService.parseNodes`): a flat list of
 * outline nodes, each naming its children by id, becomes an id-keyed table
 * of entries whose `children` are linked by id, plus the ordered list of
 * top-level entries. Entries are shared by reference in the source; keying
 * them by id here keeps that sharing (one entry, listed wherever it is linked).
 */
module Outline {
  import opened Wrappers
  import opened Sequences
  import JsString

  /** The reserved id of a document's invisible root node. */
  const RootId: string := "root"

  /**
   * A node as the outline provider sends it. A missing `content` is modelled
   * as "" and a missing `children` as []: the source treats both alike.
   */
  datatype RawNode = RawNode(
    id: string,
    content: string,
    note: Option<string>,
    checked: Option<bool>,
    children: seq<string>,
    created: Option<int>,
    modified: Option<int>)

  /** A reconstructed entry; `children` are the ids of the entries linked under it. */
  datatype Entry = Entry(
    id: string,
    content: string,
    note: string,
    checked: bool,
    children: seq<string>,
    created: Option<int>,
    modified: Option<int>)

  /** The result of reconstruction: every retained entry by id, and the top-level ids in output order. */
  datatype Outline = Outline(entries: map<string, Entry>, roots: seq<string>)

  /** A document fetched from the provider, and the same document with its top-level entries. */
  datatype RawDocument = RawDocument(id: string, title: string, nodes: seq<RawNode>)
  datatype ParsedDocument = ParsedDocument(documentId: string, documentTitle: string, tasks: Outline)

  /** Only nodes whose content is non-blank after trimming take part. */
  predicate Retained(n: RawNode)
  {
    JsString.HasText(n.content)
  }

  /** The record the first pass stores for a retained node: defaults filled in, no children yet. */
  function NewEntry(n: RawNode): Entry
  {
    Entry(n.id, n.content, n.note.GetOr(""), n.checked == Some(true), [], n.created, n.modified)
  }

  /** The first pass: a later retained node with the same id replaces an earlier one. */
  function FirstPass(nodes: seq<RawNode>): map<string, Entry>
  {
    if nodes == [] then map[]
    else
      var m := FirstPass(nodes[..|nodes| - 1]);
      var n := nodes[|nodes| - 1];
      if Retained(n) then m[n.id := NewEntry(n)] else m
  }

  /** Some retained node carries id `x`. */
  predicate CarriesRetained(nodes: seq<RawNode>, x: string)
  {
    exists i :: 0 <= i < |nodes| && nodes[i].id == x && Retained(nodes[i])
  }

  /** The first pass holds exactly the ids of retained nodes. */
  lemma {:induction false} FirstPassKeys(nodes: seq<RawNode>, x: string)
    ensures x in FirstPass(nodes) <==> CarriesRetained(nodes, x)
  {
    if nodes != [] {
      FirstPassKeys(nodes[..|nodes| - 1], x);
      CarriesRetainedStep(nodes, x);
    }
  }

  /** A retained carrier of `x` is either the last node or one before it. */
  lemma CarriesRetainedStep(nodes: seq<RawNode>, x: string)
    requires nodes != []
    ensures CarriesRetained(nodes, x) <==>
      CarriesRetained(nodes[..|nodes| - 1], x) || (nodes[|nodes| - 1].id == x && Retained(nodes[|nodes| - 1]))
  {
    var n := |nodes| - 1;
    var prefix := nodes[..n];
    if CarriesRetained(prefix, x) {
      var i :| 0 <= i < |prefix| && prefix[i].id == x && Retained(prefix[i]);
      assert nodes[i] == prefix[i];
    }
    if CarriesRetained(nodes, x) {
      var i :| 0 <= i < |nodes| && nodes[i].id == x && Retained(nodes[i]);
      if i < n {
        assert prefix[i] == nodes[i];
      }
    }
  }

  /** Node `i` carries `x`, is retained, and no later node carrying `x` is. */
  predicate LastRetained(nodes: seq<RawNode>, x: string, i: int)
  {
    0 <= i < |nodes| && nodes[i].id == x && Retained(nodes[i]) &&
    forall j :: i < j < |nodes| && nodes[j].id == x ==> !Retained(nodes[j])
  }

  /** The entry stored for an id is made from the LAST retained node carrying it, with no children yet. */
  lemma {:induction false} FirstPassLastWins(nodes: seq<RawNode>, x: string)
    requires x in FirstPass(nodes)
    ensures exists i :: LastRetained(nodes, x, i) && FirstPass(nodes)[x] == NewEntry(nodes[i])
  {
    var n := |nodes| - 1;
    var prefix := nodes[..n];
    if nodes[n].id == x && Retained(nodes[n]) {
      assert LastRetained(nodes, x, n);
    } else {
      FirstPassLastWins(prefix, x);
      var i :| LastRetained(prefix, x, i) && FirstPass(prefix)[x] == NewEntry(prefix[i]);
      LastRetainedExtends(nodes, x, i);
    }
  }

  /** A node that is the last retained carrier of `x` stays so when a node not carrying a retained `x` follows. */
  lemma LastRetainedExtends(nodes: seq<RawNode>, x: string, i: int)
    requires nodes != [] && LastRetained(nodes[..|nodes| - 1], x, i)
    requires !(nodes[|nodes| - 1].id == x && Retained(nodes[|nodes| - 1]))
    ensures LastRetained(nodes, x, i) && nodes[i] == nodes[..|nodes| - 1][i]
  {
    var prefix := nodes[..|nodes| - 1];
    assert forall j :: i < j < |prefix| ==> nodes[j] == prefix[j];
  }

  /** The ids of a child list that name retained nodes, in their listed order. */
  function KeptChildren(childIds: seq<string>, kept: set<string>): seq<string>
  {
    Filter(childIds, InTable(kept))
  }

  /** The test `nodeMap.get(childId)` makes: is the id in the table? */
  function InTable(kept: set<string>): string -> bool
  {
    c => c in kept
  }

  /** Children linked under `id` by the second pass after it has visited the first `k` nodes. */
  function LinkedChildren(nodes: seq<RawNode>, k: nat, id: string, kept: set<string>): seq<string>
    requires k <= |nodes|
  {
    if k == 0 then []
    else
      LinkedChildren(nodes, k - 1, id, kept) +
      (if nodes[k - 1].id == id then KeptChildren(nodes[k - 1].children, kept) else [])
  }

  /** Some node other than the reserved root lists `id` as a child (the unfiltered list is searched). */
  predicate HasParent(nodes: seq<RawNode>, id: string)
  {
    exists j :: 0 <= j < |nodes| && nodes[j].id != RootId && id in nodes[j].children
  }

  /** The second pass's rule for the top level: no parent other than the root, or the root itself. */
  predicate IsTopLevel(nodes: seq<RawNode>, id: string)
  {
    !HasParent(nodes, id) || id == RootId
  }

  /** The node ids in input order. */
  function Ids(nodes: seq<RawNode>): (r: seq<string>)
    ensures |r| == |nodes| && forall i :: 0 <= i < |nodes| ==> r[i] == nodes[i].id
  {
    seq(|nodes|, i requires 0 <= i < |nodes| => nodes[i].id)
  }

  /** Top-level ids pushed by the second pass after visiting the nodes of `visited`. */
  function TopLevelIds(all: seq<RawNode>, visited: seq<RawNode>, kept: set<string>): seq<string>
  {
    Filter(Ids(visited), PushedAsTopLevel(all, kept))
  }

  /** The second pass's test for pushing an id onto the top-level list. */
  function PushedAsTopLevel(all: seq<RawNode>, kept: set<string>): string -> bool
  {
    id => id in kept && IsTopLevel(all, id)
  }

  /** Visiting one more node pushes its id exactly when it is retained and top-level. */
  lemma TopLevelIdsStep(nodes: seq<RawNode>, i: nat, kept: set<string>)
    requires i < |nodes|
    ensures TopLevelIds(nodes, nodes[..i + 1], kept) ==
      TopLevelIds(nodes, nodes[..i], kept) +
      (if nodes[i].id in kept && IsTopLevel(nodes, nodes[i].id) then [nodes[i].id] else [])
  {
    var p := PushedAsTopLevel(nodes, kept);
    assert Ids(nodes[..i + 1]) == Ids(nodes[..i]) + [nodes[i].id];
    FilterAppend(Ids(nodes[..i]), [nodes[i].id], p);
    FilterSingleton(nodes[i].id, p);
  }

  /** What `parseNodes` builds, stated pass by pass. */
  function Parse(nodes: seq<RawNode>): Outline
  {
    var base := FirstPass(nodes);
    Outline(
      map x | x in base :: base[x].(children := LinkedChildren(nodes, |nodes|, x, base.Keys)),
      TopLevelIds(nodes, nodes, base.Keys))
  }

  /** The per-document wrapping done by the documents route. */
  function ParseDocuments(docs: seq<RawDocument>): seq<ParsedDocument>
  {
    seq(|docs|, i requires 0 <= i < |docs| => ParsedDocument(docs[i].id, docs[i].title, Parse(docs[i].nodes)))
  }

  /** The documents route's loop: every document parsed and wrapped, one result per document, in order. */
  method ParseAllDocuments(docs: seq<RawDocument>) returns (allTasks: seq<ParsedDocument>)
    ensures allTasks == ParseDocuments(docs)
  {
    allTasks := [];
    for i := 0 to |docs|
      invariant allTasks == ParseDocuments(docs[..i])
    {
      var tasks := ParseNodes(docs[i].nodes);
      allTasks := allTasks + [ParsedDocument(docs[i].id, docs[i].title, tasks)];
      assert allTasks == ParseDocuments(docs[..i + 1]);
    }
    assert docs[..|docs|] == docs;
  }

  /** Pushes onto `id`'s children every listed child id that is in the table, in list order. */
  method LinkChildren(nodeMap: map<string, Entry>, id: string, childIds: seq<string>) returns (m: map<string, Entry>)
    requires id in nodeMap
    ensures m == nodeMap[id := nodeMap[id].(children := nodeMap[id].children + KeptChildren(childIds, nodeMap.Keys))]
  {
    m := nodeMap;
    var j := 0;
    assert childIds[..0] == [];
    assert nodeMap[id].children + KeptChildren([], nodeMap.Keys) == nodeMap[id].children;
    assert nodeMap[id := nodeMap[id]] == nodeMap;
    while j < |childIds|
      invariant 0 <= j <= |childIds|
      invariant m == nodeMap[id := nodeMap[id].(children := nodeMap[id].children + KeptChildren(childIds[..j], nodeMap.Keys))]
    {
      var childId := childIds[j];
      FilterAppend(childIds[..j], [childId], InTable(nodeMap.Keys));
      FilterSingleton(childId, InTable(nodeMap.Keys));
      assert childIds[..j + 1] == childIds[..j] + [childId];
      ghost var before := nodeMap[id].children + KeptChildren(childIds[..j], nodeMap.Keys);
      if childId in m {
        var current := m[id];
        m := m[id := current.(children := current.children + [childId])];
        assert before + [childId] == nodeMap[id].children + KeptChildren(childIds[..j + 1], nodeMap.Keys);
      } else {
        assert before == nodeMap[id].children + KeptChildren(childIds[..j + 1], nodeMap.Keys);
      }
      j := j + 1;
    }
    assert childIds[..|childIds|] == childIds;
  }

  /** The table after the second pass has visited `k` nodes: first-pass entries with the children linked so far. */
  ghost predicate LinkedUpTo(nodes: seq<RawNode>, k: nat, base: map<string, Entry>, nodeMap: map<string, Entry>)
    requires k <= |nodes|
  {
    nodeMap.Keys == base.Keys &&
    forall x :: x in nodeMap ==> nodeMap[x] == base[x].(children := LinkedChildren(nodes, k, x, base.Keys))
  }

  /** Linking the children of node `i` (when its id is in the table) advances the table by one node. */
  lemma LinkStep(nodes: seq<RawNode>, i: nat, base: map<string, Entry>, before: map<string, Entry>, after: map<string, Entry>)
    requires i < |nodes| && LinkedUpTo(nodes, i, base, before)
    requires nodes[i].id in before ==>
      after == before[nodes[i].id := before[nodes[i].id].(children := before[nodes[i].id].children + KeptChildren(nodes[i].children, before.Keys))]
    requires nodes[i].id !in before ==> after == before
    ensures LinkedUpTo(nodes, i + 1, base, after)
  {
    forall x | x in after
      ensures after[x] == base[x].(children := LinkedChildren(nodes, i + 1, x, base.Keys))
    {
      assert before[x] == base[x].(children := LinkedChildren(nodes, i, x, base.Keys));
    }
  }

  /** The first pass: stores a fresh entry for every node with non-blank content. */
  method BuildNodeMap(nodes: seq<RawNode>) returns (nodeMap: map<string, Entry>)
    ensures nodeMap == FirstPass(nodes)
  {
    nodeMap := map[];
    var i := 0;
    while i < |nodes|
      invariant 0 <= i <= |nodes|
      invariant nodeMap == FirstPass(nodes[..i])
    {
      var node := nodes[i];
      if JsString.HasText(node.content) {
        nodeMap := nodeMap[node.id := NewEntry(node)];
      }
      assert nodes[..i + 1][..i] == nodes[..i];
      i := i + 1;
    }
    assert nodes[..|nodes|] == nodes;
  }

  /** Two passes over the node list with an id-keyed table; no recursion, so any input (cyclic child lists included) terminates. */
  method ParseNodes(nodes: seq<RawNode>) returns (r: Outline)
    ensures r == Parse(nodes)
  {
    var nodeMap := BuildNodeMap(nodes);
    forall x | x in nodeMap ensures nodeMap[x].children == [] {
      FirstPassLastWins(nodes, x);
    }
    var entries, rootNodes := LinkAll(nodes, nodeMap);
    assert entries == Parse(nodes).entries;
    r := Outline(entries, rootNodes);
  }

  /** The second pass: link every retained node's children and collect the top level, in input order. */
  method LinkAll(nodes: seq<RawNode>, base: map<string, Entry>) returns (nodeMap: map<string, Entry>, rootNodes: seq<string>)
    requires forall x :: x in base ==> base[x].children == []
    ensures nodeMap.Keys == base.Keys
    ensures forall x :: x in nodeMap ==> nodeMap[x] == base[x].(children := LinkedChildren(nodes, |nodes|, x, base.Keys))
    ensures rootNodes == TopLevelIds(nodes, nodes, base.Keys)
  {
    nodeMap := base;
    rootNodes := [];
    var i := 0;
    while i < |nodes|
      invariant 0 <= i <= |nodes|
      invariant LinkedUpTo(nodes, i, base, nodeMap)
      invariant rootNodes == TopLevelIds(nodes, nodes[..i], base.Keys)
    {
      nodeMap, rootNodes := VisitNode(nodes, i, base, nodeMap, rootNodes);
      i := i + 1;
    }
    assert nodes[..|nodes|] == nodes;
  }

  /** One step of the second pass: node `i` links its children and, if top-level, is pushed. */
  method VisitNode(nodes: seq<RawNode>, i: nat, base: map<string, Entry>, nodeMap: map<string, Entry>, rootNodes: seq<string>)
    returns (nodeMap': map<string, Entry>, rootNodes': seq<string>)
    requires i < |nodes| && LinkedUpTo(nodes, i, base, nodeMap)
    requires rootNodes == TopLevelIds(nodes, nodes[..i], base.Keys)
    ensures LinkedUpTo(nodes, i + 1, base, nodeMap')
    ensures rootNodes' == TopLevelIds(nodes, nodes[..i + 1], base.Keys)
  {
    var node := nodes[i];
    nodeMap', rootNodes' := nodeMap, rootNodes;
    if node.id in nodeMap {
      nodeMap' := LinkChildren(nodeMap, node.id, node.children);
      var hasParent := HasParent(nodes, node.id);
      if !hasParent || node.id == RootId {
        rootNodes' := rootNodes + [node.id];
      }
    }
    LinkStep(nodes, i, base, nodeMap, nodeMap');
    TopLevelIdsStep(nodes, i, base.Keys);
  }

  // ---------------------------------------------------------------------------
  // Properties of the reconstruction
  // ---------------------------------------------------------------------------

  /** No two nodes of the input share an id. */
  predicate UniqueIds(nodes: seq<RawNode>)
  {
    Distinct(Ids(nodes))
  }

  /**
   * An id has an entry exactly when some node with that id has non-blank content; the entry
   * carries that node's content (non-blank), its note defaulted to "" and its checked flag
   * defaulted to false, taken from the last such node.
   */
  lemma EntryFields(nodes: seq<RawNode>, x: string)
    ensures x in Parse(nodes).entries <==> CarriesRetained(nodes, x)
    ensures x in Parse(nodes).entries ==> exists i :: (
      LastRetained(nodes, x, i) &&
      var e := Parse(nodes).entries[x];
      e.id == x && e.content == nodes[i].content && JsString.HasText(e.content) &&
      e.note == (if nodes[i].note.Some? then nodes[i].note.value else "") &&
      e.checked == (nodes[i].checked == Some(true)) &&
      e.created == nodes[i].created && e.modified == nodes[i].modified)
  {
    FirstPassKeys(nodes, x);
    if x in Parse(nodes).entries {
      FirstPassLastWins(nodes, x);
    }
  }

  /** A child id is linked under `id` exactly when it names a retained node listed by some node carrying `id`. */
  lemma {:induction false} LinkedChildrenMembers(nodes: seq<RawNode>, k: nat, id: string, kept: set<string>, c: string)
    requires k <= |nodes|
    ensures c in LinkedChildren(nodes, k, id, kept) <==>
      c in kept && exists i :: 0 <= i < k && nodes[i].id == id && c in nodes[i].children
  {
    if k > 0 {
      LinkedChildrenMembers(nodes, k - 1, id, kept, c);
    }
  }

  /**
   * Every linked child is itself an entry, and `c` is a child of entry `x` exactly when `c` is
   * retained and some node with id `x` lists it: children of blank nodes are skipped, never reattached.
   */
  lemma ChildrenMembers(nodes: seq<RawNode>, x: string, c: string)
    requires x in Parse(nodes).entries
    ensures c in Parse(nodes).entries[x].children <==>
      c in Parse(nodes).entries && exists i :: 0 <= i < |nodes| && nodes[i].id == x && c in nodes[i].children
  {
    LinkedChildrenMembers(nodes, |nodes|, x, FirstPass(nodes).Keys, c);
  }

  /** With unique ids, the node carrying `id` at position `i` is the only one contributing children to it. */
  lemma LinkedChildrenOfUnique(nodes: seq<RawNode>, k: nat, i: nat, kept: set<string>)
    requires UniqueIds(nodes) && i < |nodes| && k <= |nodes|
    ensures LinkedChildren(nodes, k, nodes[i].id, kept) == if k <= i then [] else KeptChildren(nodes[i].children, kept)
  {
    forall j | 0 <= j < |nodes| && j != i
      ensures nodes[j].id != nodes[i].id
    {
      UniqueIdsDiffer(nodes, j, i);
    }
    LinkedChildrenOfSoleCarrier(nodes, k, i, kept);
  }

  /** Node `i` is the only node carrying its id. */
  predicate SoleCarrier(nodes: seq<RawNode>, i: nat)
    requires i < |nodes|
  {
    forall j :: 0 <= j < |nodes| && j != i ==> nodes[j].id != nodes[i].id
  }

  /** The children linked under the id of a sole carrier are its own kept children, once it has been visited. */
  lemma {:induction false} LinkedChildrenOfSoleCarrier(nodes: seq<RawNode>, k: nat, i: nat, kept: set<string>)
    requires i < |nodes| && k <= |nodes| && SoleCarrier(nodes, i)
    ensures LinkedChildren(nodes, k, nodes[i].id, kept) == if k <= i then [] else KeptChildren(nodes[i].children, kept)
  {
    if k > 0 {
      LinkedChildrenOfSoleCarrier(nodes, k - 1, i, kept);
      if k - 1 != i {
        assert nodes[k - 1].id != nodes[i].id;
      }
    }
  }

  /** With unique ids, nodes at different positions carry different ids. */
  lemma UniqueIdsDiffer(nodes: seq<RawNode>, a: nat, b: nat)
    requires UniqueIds(nodes) && a < |nodes| && b < |nodes| && a != b
    ensures nodes[a].id != nodes[b].id
  {
    var ids := Ids(nodes);
    if a < b {
      assert ids[a] != ids[b];
    } else {
      assert ids[b] != ids[a];
    }
  }

  /**
   * With unique ids, a retained node's children are exactly its child ids that name retained
   * nodes, in the order it lists them.
   */
  lemma ChildrenOfUniqueNode(nodes: seq<RawNode>, i: nat)
    requires UniqueIds(nodes) && i < |nodes| && Retained(nodes[i])
    ensures nodes[i].id in Parse(nodes).entries
    ensures Parse(nodes).entries[nodes[i].id].children == KeptChildren(nodes[i].children, Parse(nodes).entries.Keys)
  {
    assert Parse(nodes).entries.Keys == FirstPass(nodes).Keys;
    FirstPassKeys(nodes, nodes[i].id);
    LinkedChildrenOfUnique(nodes, |nodes|, i, FirstPass(nodes).Keys);
  }

  /** Membership in the pushed top-level ids. */
  lemma TopLevelIdsMembers(nodes: seq<RawNode>, kept: set<string>, x: string)
    ensures x in TopLevelIds(nodes, nodes, kept) <==>
      x in kept && IsTopLevel(nodes, x) && exists i :: 0 <= i < |nodes| && nodes[i].id == x
  {
    if x in kept && IsTopLevel(nodes, x) && exists i :: 0 <= i < |nodes| && nodes[i].id == x {
      var i :| 0 <= i < |nodes| && nodes[i].id == x;
      assert Ids(nodes)[i] == x;
    }
  }

  /**
   * An entry is top-level exactly when no node other than the reserved root lists it as a
   * child (blank nodes included), or it is the root itself.
   */
  lemma TopLevelIff(nodes: seq<RawNode>, x: string)
    ensures x in Parse(nodes).roots <==> x in Parse(nodes).entries && IsTopLevel(nodes, x)
  {
    FirstPassKeys(nodes, x);
    TopLevelIdsMembers(nodes, FirstPass(nodes).Keys, x);
  }

  /** Direct children of the reserved root that no other node lists are top-level. */
  lemma RootChildrenAreTopLevel(nodes: seq<RawNode>, p: nat, x: string)
    requires p < |nodes| && nodes[p].id == RootId && x in nodes[p].children
    requires x in Parse(nodes).entries
    requires forall q :: 0 <= q < |nodes| && x in nodes[q].children ==> nodes[q].id == RootId
    ensures x in Parse(nodes).roots
  {
    TopLevelIff(nodes, x);
  }

  /**
   * A non-root id listed by a non-root node is never top-level; if every node listing it is
   * blank, it is attached nowhere either, so that subtree is lost.
   */
  lemma OrphanedByBlankParent(nodes: seq<RawNode>, p: nat, x: string)
    requires p < |nodes| && nodes[p].id != RootId && x in nodes[p].children && x != RootId
    requires forall q :: 0 <= q < |nodes| && x in nodes[q].children ==> nodes[q].id !in Parse(nodes).entries
    ensures x !in Parse(nodes).roots
    ensures forall y :: y in Parse(nodes).entries ==> x !in Parse(nodes).entries[y].children
  {
    TopLevelIff(nodes, x);
    forall y | y in Parse(nodes).entries
      ensures x !in Parse(nodes).entries[y].children
    {
      ChildrenMembers(nodes, y, x);
    }
  }

  /** Two non-root nodes that list each other (a cycle) are neither of them top-level. */
  lemma CycleIsNotTopLevel(nodes: seq<RawNode>, a: nat, b: nat)
    requires a < |nodes| && b < |nodes|
    requires nodes[a].id != RootId && nodes[b].id != RootId
    requires nodes[b].id in nodes[a].children && nodes[a].id in nodes[b].children
    ensures nodes[a].id !in Parse(nodes).roots && nodes[b].id !in Parse(nodes).roots
  {
    TopLevelIff(nodes, nodes[a].id);
    TopLevelIff(nodes, nodes[b].id);
  }

  /**
   * A cycle through `root` is different: `root` is top-level by its own id,
   * and a child that only `root` lists is top-level too, even when it lists `root` back.
   */
  lemma RootCycleIsTopLevel(nodes: seq<RawNode>, p: nat, a: nat)
    requires p < |nodes| && a < |nodes| && nodes[p].id == RootId
    requires nodes[a].id in nodes[p].children && RootId in nodes[a].children
    requires RootId in Parse(nodes).entries && nodes[a].id in Parse(nodes).entries
    requires forall q :: 0 <= q < |nodes| && nodes[a].id in nodes[q].children ==> nodes[q].id == RootId
    ensures RootId in Parse(nodes).roots && nodes[a].id in Parse(nodes).roots
  {
    TopLevelIff(nodes, RootId);
    TopLevelIff(nodes, nodes[a].id);
  }

  /** Top-level entries keep input order: an earlier top-level node comes before a later one. */
  lemma RootsInInputOrder(nodes: seq<RawNode>, i: nat, j: nat)
    requires i < j < |nodes|
    requires nodes[i].id in Parse(nodes).roots && nodes[j].id in Parse(nodes).roots
    ensures exists a, b :: (0 <= a < b < |Parse(nodes).roots| &&
                            Parse(nodes).roots[a] == nodes[i].id && Parse(nodes).roots[b] == nodes[j].id)
  {
    var p := PushedAsTopLevel(nodes, FirstPass(nodes).Keys);
    TopLevelIff(nodes, nodes[i].id);
    TopLevelIff(nodes, nodes[j].id);
    assert Parse(nodes).roots == Filter(Ids(nodes), p);
    FilterKeepsOrder(Ids(nodes), i, j, p);
  }

  /** With unique ids each top-level entry appears once, so there are no more of them than entries. */
  lemma RootsDistinctAndBounded(nodes: seq<RawNode>)
    requires UniqueIds(nodes)
    ensures Distinct(Parse(nodes).roots)
    ensures |Parse(nodes).roots| <= |Parse(nodes).entries|
  {
    var kept := FirstPass(nodes).Keys;
    FilterDistinct(Ids(nodes), PushedAsTopLevel(nodes, kept));
    DistinctWithin(Parse(nodes).roots, Parse(nodes).entries.Keys);
  }
}
