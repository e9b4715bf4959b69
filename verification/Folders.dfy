/**
 * The folder (value stream) hierarchy of the dashboard: `build_folder_hierarchy`.
 *
 * A folder row carries its number, title, parent number (possibly missing) and item count.
 * The hierarchy is the Python dict `folder_dict` from folder number to node; a dict iterates
 * in first-insertion order, which `order` makes explicit.
 */
module Folders {
  import opened Wrappers
  import opened Seqs

  type Key = string

  /** One row of the folders table. */
  datatype FolderRow = FolderRow(number: Key, title: string, parent: Option<Key>, itemCount: int)

  /** A value of `folder_dict`: the row's data, the child numbers and the depth level. */
  datatype FolderNode = FolderNode(title: string, parent: Option<Key>, itemCount: int, children: seq<Key>, level: nat)

  /** The pair `(folder_dict, root_folders)`; `order` is the dict's iteration order. */
  datatype Hierarchy = Hierarchy(order: seq<Key>, nodes: map<Key, FolderNode>, roots: seq<Key>)

  /** The node a row creates before children and levels are filled in. */
  function NodeOf(row: FolderRow): FolderNode {
    FolderNode(row.title, row.parent, row.itemCount, [], 0)
  }

  function Numbers(rows: seq<FolderRow>): set<Key> {
    set r | r in rows :: r.number
  }

  /** Index of the first row with number `k`: where the dict key is inserted. */
  function FirstIndex(rows: seq<FolderRow>, k: Key): (i: nat)
    requires k in Numbers(rows)
    ensures i < |rows| && rows[i].number == k
    ensures forall j :: 0 <= j < i ==> rows[j].number != k
    decreases |rows|
  {
    var n := |rows| - 1;
    assert rows == rows[..n] + [rows[n]];
    if k in Numbers(rows[..n]) then FirstIndex(rows[..n], k) else n
  }

  /** Index of the last row with number `k`: whose data the dict keeps. */
  function LastIndex(rows: seq<FolderRow>, k: Key): (i: nat)
    requires k in Numbers(rows)
    ensures i < |rows| && rows[i].number == k
    ensures forall j :: i < j < |rows| ==> rows[j].number != k
    decreases |rows|
  {
    var n := |rows| - 1;
    assert rows == rows[..n] + [rows[n]];
    if rows[n].number == k then n else LastIndex(rows[..n], k)
  }

  // ---------------------------------------------------------------------------
  // Parent pointers, roots and root chains
  // ---------------------------------------------------------------------------

  /** The parent pointer of every folder. */
  function Parents(nodes: map<Key, FolderNode>): (ps: map<Key, Option<Key>>)
    ensures ps.Keys == nodes.Keys
    ensures forall k :: k in nodes ==> ps[k] == nodes[k].parent
  {
    map k | k in nodes :: nodes[k].parent
  }

  /** A root: its parent is missing or is not a folder number of the dict. */
  predicate IsRoot(parents: map<Key, Option<Key>>, k: Key) {
    k in parents && (parents[k].None? || parents[k].value !in parents)
  }

  /** `t` runs from a root down parent-to-child links: `parents[t[i]] == Some(t[i - 1])`. */
  ghost predicate IsChain(parents: map<Key, Option<Key>>, t: seq<Key>) {
    && |t| > 0
    && IsRoot(parents, t[0])
    && (forall i :: 0 <= i < |t| ==> t[i] in parents)
    && (forall i :: 0 < i < |t| ==> parents[t[i]] == Some(t[i - 1]))
  }

  /** `k` can be reached from some root by following children: it is not on, or below, a parent cycle. */
  ghost predicate Reached(parents: map<Key, Option<Key>>, k: Key) {
    exists t :: IsChain(parents, t) && t[|t| - 1] == k
  }

  ghost predicate Extends(t: seq<Key>, stack: seq<Key>) {
    |stack| <= |t| && t[..|stack|] == stack
  }

  /** `k` lies in the subtree entered through the chain `stack`. */
  ghost predicate InSubtreeOf(parents: map<Key, Option<Key>>, stack: seq<Key>, k: Key) {
    exists t :: IsChain(parents, t) && Extends(t, stack) && t[|t| - 1] == k
  }

  /** The nodes differ at most in their `level` fields. */
  ghost predicate SameExceptLevel(a: map<Key, FolderNode>, b: map<Key, FolderNode>) {
    && a.Keys == b.Keys
    && forall k :: k in a ==>
         a[k].title == b[k].title && a[k].parent == b[k].parent
         && a[k].itemCount == b[k].itemCount && a[k].children == b[k].children
  }

  /** Every listed child is a folder whose parent pointer names the list's owner. */
  ghost predicate ChildrenSound(nodes: map<Key, FolderNode>, parents: map<Key, Option<Key>>) {
    && nodes.Keys == parents.Keys
    && (forall p, c :: p in nodes && c in nodes[p].children ==> c in parents && parents[c] == Some(p))
  }

  /** Every folder whose parent is a folder is listed among that parent's children. */
  ghost predicate ChildrenComplete(nodes: map<Key, FolderNode>, parents: map<Key, Option<Key>>) {
    forall c :: c in parents && parents[c].Some? && parents[c].value in nodes ==>
      c in nodes[parents[c].value].children
  }

  /** The child lists are exactly the inverse of the parent pointers. */
  ghost predicate ChildrenExact(nodes: map<Key, FolderNode>, parents: map<Key, Option<Key>>) {
    && ChildrenSound(nodes, parents)
    && ChildrenComplete(nodes, parents)
    && (forall k :: k in nodes ==> nodes[k].parent == parents[k])
  }

  /** The levels `set_level` leaves: depth along the root chain, and 0 where no root reaches. */
  ghost predicate LevelsAssigned(nodes: map<Key, FolderNode>, parents: map<Key, Option<Key>>) {
    && (forall t :: IsChain(parents, t) ==> t[|t| - 1] in nodes && nodes[t[|t| - 1]].level == |t| - 1)
    && (forall k :: k in nodes && !Reached(parents, k) ==> nodes[k].level == 0)
  }

  /** The folders of `order` whose parent is `p`, in `order`'s order. */
  function ChildrenIn(order: seq<Key>, parents: map<Key, Option<Key>>, p: Key): seq<Key>
    requires forall i :: 0 <= i < |order| ==> order[i] in parents
    decreases |order|
  {
    if order == [] then []
    else
      var n := |order| - 1;
      ChildrenIn(order[..n], parents, p) + (if parents[order[n]] == Some(p) then [order[n]] else [])
  }

  /** The root folders of `order`, in `order`'s order. */
  function RootsIn(order: seq<Key>, parents: map<Key, Option<Key>>): seq<Key>
    decreases |order|
  {
    if order == [] then []
    else
      var n := |order| - 1;
      RootsIn(order[..n], parents) + (if IsRoot(parents, order[n]) then [order[n]] else [])
  }

  /** The child list of `p` holds exactly the folders of `order` whose parent is `p`, each once. */
  lemma {:induction false} ChildrenInSpec(order: seq<Key>, parents: map<Key, Option<Key>>, p: Key)
    requires forall i :: 0 <= i < |order| ==> order[i] in parents
    ensures forall c :: c in ChildrenIn(order, parents, p) <==> c in order && parents[c] == Some(p)
    ensures Distinct(order) ==> Distinct(ChildrenIn(order, parents, p))
    decreases |order|
  {
    if order != [] {
      var n := |order| - 1;
      assert order == order[..n] + [order[n]];
      ChildrenInSpec(order[..n], parents, p);
    }
  }

  /** The root list holds exactly the folders of `order` that are roots, each once. */
  lemma {:induction false} RootsInSpec(order: seq<Key>, parents: map<Key, Option<Key>>)
    ensures forall k :: k in RootsIn(order, parents) <==> k in order && IsRoot(parents, k)
    ensures Distinct(order) ==> Distinct(RootsIn(order, parents))
    decreases |order|
  {
    if order != [] {
      var n := |order| - 1;
      assert order == order[..n] + [order[n]];
      RootsInSpec(order[..n], parents);
    }
  }

  /** What a hierarchy returned by `BuildFolderHierarchy` satisfies. */
  ghost predicate WellFormed(h: Hierarchy) {
    && Distinct(h.order)
    && (forall i :: 0 <= i < |h.order| ==> h.order[i] in h.nodes)
    && (forall k :: k in h.nodes ==> k in h.order)
    && ChildrenExact(h.nodes, Parents(h.nodes))
    && (forall p :: p in h.nodes ==> h.nodes[p].children == ChildrenIn(h.order, Parents(h.nodes), p))
    && h.roots == RootsIn(h.order, Parents(h.nodes))
    && LevelsAssigned(h.nodes, Parents(h.nodes))
  }

  // ---------------------------------------------------------------------------
  // Facts about root chains
  // ---------------------------------------------------------------------------

  lemma ChainPrefix(parents: map<Key, Option<Key>>, t: seq<Key>, n: nat)
    requires IsChain(parents, t) && 1 <= n <= |t|
    ensures IsChain(parents, t[..n])
  {
  }

  lemma ChainExtend(parents: map<Key, Option<Key>>, t: seq<Key>, c: Key)
    requires IsChain(parents, t) && c in parents && parents[c] == Some(t[|t| - 1])
    ensures IsChain(parents, t + [c])
  {
  }

  /** Parent pointers are single-valued, so at most one root chain ends at a folder. */
  lemma {:induction false} ChainUnique(parents: map<Key, Option<Key>>, s: seq<Key>, t: seq<Key>)
    requires IsChain(parents, s) && IsChain(parents, t) && s[|s| - 1] == t[|t| - 1]
    ensures s == t
    decreases |s|
  {
    assert |s| > 1 ==> parents[s[|s| - 1]] == Some(s[|s| - 2]);
    assert |t| > 1 ==> parents[t[|t| - 1]] == Some(t[|t| - 2]);
    if |s| > 1 && |t| > 1 {
      ChainPrefix(parents, s, |s| - 1);
      ChainPrefix(parents, t, |t| - 1);
      ChainUnique(parents, s[..|s| - 1], t[..|t| - 1]);
      assert s == s[..|s| - 1] + [s[|s| - 1]];
      assert t == t[..|t| - 1] + [t[|t| - 1]];
    }
  }

  /** A child of the chain's last folder is not already on the chain, so `set_level` never loops. */
  lemma ChildNotOnChain(parents: map<Key, Option<Key>>, stack: seq<Key>, c: Key)
    requires IsChain(parents, stack) && c in parents && parents[c] == Some(stack[|stack| - 1])
    ensures c !in stack
  {
    if c in stack {
      var i :| 0 <= i < |stack| && stack[i] == c;
      ChainPrefix(parents, stack, i + 1);
      ChainExtend(parents, stack, c);
      ChainUnique(parents, stack[..i + 1], stack + [c]);
    }
  }

  lemma ChildSubtreeInside(parents: map<Key, Option<Key>>, stack: seq<Key>, c: Key, k: Key)
    requires InSubtreeOf(parents, stack + [c], k)
    ensures InSubtreeOf(parents, stack, k)
  {
    var t :| IsChain(parents, t) && Extends(t, stack + [c]) && t[|t| - 1] == k;
    assert t[..|stack|] == t[..|stack| + 1][..|stack|];
    assert Extends(t, stack);
  }

  lemma OwnerNotInChildSubtree(parents: map<Key, Option<Key>>, stack: seq<Key>, c: Key)
    requires IsChain(parents, stack)
    ensures !InSubtreeOf(parents, stack + [c], stack[|stack| - 1])
  {
    if InSubtreeOf(parents, stack + [c], stack[|stack| - 1]) {
      var t :| IsChain(parents, t) && Extends(t, stack + [c]) && t[|t| - 1] == stack[|stack| - 1];
      ChainUnique(parents, t, stack);
    }
  }

  // ---------------------------------------------------------------------------
  // Descents: child chains from a folder that is not on a parent cycle
  // ---------------------------------------------------------------------------
  // Root chains (above) start at a root and give `set_level` its depths; a descent may start at
  // any folder, as the item helpers do, so it needs the cycle condition a root meets by itself.
  // `ChainIsDescent` links the two.

  /** `t` follows parent-to-child links: `parents[t[i]] == Some(t[i - 1])`. */
  ghost predicate Links(parents: map<Key, Option<Key>>, t: seq<Key>) {
    && |t| > 0
    && (forall i :: 0 <= i < |t| ==> t[i] in parents)
    && (forall i :: 0 < i < |t| ==> parents[t[i]] == Some(t[i - 1]))
  }

  /** `t` leads by child links from `k` back to `k`. */
  ghost predicate Loop(parents: map<Key, Option<Key>>, t: seq<Key>, k: Key) {
    Links(parents, t) && |t| > 1 && t[0] == k && t[|t| - 1] == k
  }

  /** `k` lies on a parent cycle: following children from `k` leads back to `k`. */
  ghost predicate OnCycle(parents: map<Key, Option<Key>>, k: Key) {
    exists t :: Loop(parents, t, k)
  }

  /** `t` runs down child links from a folder that is not on a parent cycle (a root, or a folder below one). */
  ghost predicate IsDescent(parents: map<Key, Option<Key>>, t: seq<Key>) {
    Links(parents, t) && !OnCycle(parents, t[0])
  }

  /** `k` lies in the subtree entered through `stack`: child links lead on from `stack` to `k`. */
  ghost predicate Below(parents: map<Key, Option<Key>>, stack: seq<Key>, k: Key) {
    exists t :: Links(parents, t) && Extends(t, stack) && t[|t| - 1] == k
  }

  /** A chain of child links of length at least two that ends where it starts puts its start on a cycle. */
  lemma LoopOnCycle(parents: map<Key, Option<Key>>, t: seq<Key>)
    requires Links(parents, t) && |t| > 1 && t[|t| - 1] == t[0]
    ensures OnCycle(parents, t[0])
  {
    assert Loop(parents, t, t[0]);
  }

  /** A root is on no parent cycle, so a root chain is a descent. */
  lemma ChainIsDescent(parents: map<Key, Option<Key>>, t: seq<Key>)
    requires IsChain(parents, t)
    ensures IsDescent(parents, t)
  {
    forall w ensures !Loop(parents, w, t[0]) {
      if Links(parents, w) && |w| > 1 {
        assert parents[w[|w| - 1]] == Some(w[|w| - 2]) && w[|w| - 2] in parents;
      }
    }
  }

  /** On a parent cycle, the folder's successor on the cycle is one of its children and is on the cycle too. */
  lemma CycleChild(nodes: map<Key, FolderNode>, parents: map<Key, Option<Key>>, k: Key) returns (c: Key)
    requires ChildrenComplete(nodes, parents) && k in nodes && OnCycle(parents, k)
    ensures c in nodes[k].children && OnCycle(parents, c)
  {
    var w :| Loop(parents, w, k);
    c := w[1];
    var v := w[1..] + [c];
    assert v[|v| - 1] == c && v[0] == c;
    assert forall i :: 0 < i < |v| - 1 ==> v[i] == w[i + 1] && v[i - 1] == w[i];
    assert Loop(parents, v, c);
  }

  lemma DescentPrefix(parents: map<Key, Option<Key>>, t: seq<Key>, n: nat)
    requires IsDescent(parents, t) && 1 <= n <= |t|
    ensures IsDescent(parents, t[..n])
  {
    assert t[..n][0] == t[0];
  }

  lemma DescentExtend(parents: map<Key, Option<Key>>, t: seq<Key>, c: Key)
    requires IsDescent(parents, t) && c in parents && parents[c] == Some(t[|t| - 1])
    ensures IsDescent(parents, t + [c])
  {
    assert (t + [c])[0] == t[0];
  }

  /**
   * Two descents from the same folder that end at the same folder are equal: a longer one would
   * lead back to its own start.
   */
  lemma {:induction false} DescentUnique(parents: map<Key, Option<Key>>, s: seq<Key>, t: seq<Key>)
    requires IsDescent(parents, s) && IsDescent(parents, t) && s[0] == t[0] && s[|s| - 1] == t[|t| - 1]
    ensures s == t
    decreases |s|
  {
    if |s| > 1 && |t| == 1 {
      LoopOnCycle(parents, s);
    } else if |t| > 1 && |s| == 1 {
      LoopOnCycle(parents, t);
    } else if |s| > 1 && |t| > 1 {
      assert parents[s[|s| - 1]] == Some(s[|s| - 2]) && parents[t[|t| - 1]] == Some(t[|t| - 2]);
      DescentPrefix(parents, s, |s| - 1);
      DescentPrefix(parents, t, |t| - 1);
      DescentUnique(parents, s[..|s| - 1], t[..|t| - 1]);
      assert s == s[..|s| - 1] + [s[|s| - 1]];
      assert t == t[..|t| - 1] + [t[|t| - 1]];
    }
  }

  /** A child of the descent's last folder is not already on it. */
  lemma ChildNotOnDescent(parents: map<Key, Option<Key>>, stack: seq<Key>, c: Key)
    requires IsDescent(parents, stack) && c in parents && parents[c] == Some(stack[|stack| - 1])
    ensures c !in stack
  {
    if c in stack {
      var i :| 0 <= i < |stack| && stack[i] == c;
      DescentPrefix(parents, stack, i + 1);
      DescentExtend(parents, stack, c);
      DescentUnique(parents, stack[..i + 1], stack + [c]);
    }
  }

  /** No folder of a descent is on a parent cycle: a cycle at its end would give a longer descent to the same folder. */
  lemma DescentOffCycle(parents: map<Key, Option<Key>>, t: seq<Key>)
    requires IsDescent(parents, t)
    ensures !OnCycle(parents, t[|t| - 1])
  {
    if OnCycle(parents, t[|t| - 1]) {
      var w :| Loop(parents, w, t[|t| - 1]);
      var u := t + w[1..];
      forall i | |t| <= i < |u| ensures u[i] in parents && parents[u[i]] == Some(u[i - 1]) {
        assert u[i] == w[i - |t| + 1] && u[i - 1] == w[i - |t|];
      }
      assert IsDescent(parents, u);
      DescentUnique(parents, t, u);
    }
  }

  /** A child `c` of the descent's last folder extends the descent, and a recursion into it terminates. */
  lemma DescentStep(nodes: map<Key, FolderNode>, parents: map<Key, Option<Key>>, stack: seq<Key>, c: Key)
    requires ChildrenSound(nodes, parents) && IsDescent(parents, stack)
    requires stack[|stack| - 1] in nodes && c in nodes[stack[|stack| - 1]].children
    ensures IsDescent(parents, stack + [c]) && c in nodes
    ensures parents.Keys - (set x | x in stack + [c]) < parents.Keys - (set x | x in stack)
  {
    DescentExtend(parents, stack, c);
    ChildNotOnDescent(parents, stack, c);
    assert c in parents.Keys - (set x | x in stack);
  }

  lemma ChildBelowInside(parents: map<Key, Option<Key>>, stack: seq<Key>, c: Key, k: Key)
    requires Below(parents, stack + [c], k)
    ensures Below(parents, stack, k)
  {
    var t :| Links(parents, t) && Extends(t, stack + [c]) && t[|t| - 1] == k;
    assert t[..|stack|] == t[..|stack| + 1][..|stack|];
    assert Extends(t, stack);
  }

  lemma KeepSound(a: map<Key, FolderNode>, b: map<Key, FolderNode>, parents: map<Key, Option<Key>>)
    requires ChildrenSound(a, parents) && ChildrenComplete(a, parents) && SameExceptLevel(a, b)
    ensures ChildrenSound(b, parents) && ChildrenComplete(b, parents)
  {
    forall p, c | p in b && c in b[p].children ensures c in parents && parents[c] == Some(p) {
      assert c in a[p].children;
    }
    forall c | c in parents && parents[c].Some? && parents[c].value in b
      ensures c in b[parents[c].value].children
    {
      assert c in a[parents[c].value].children;
    }
  }

  // ---------------------------------------------------------------------------
  // build_folder_hierarchy
  // ---------------------------------------------------------------------------

  /** The dict after inserting `rows` one by one: keys in first-insertion order, values overwritten. */
  function Inserted(rows: seq<FolderRow>): (d: (seq<Key>, map<Key, FolderNode>))
    decreases |rows|
  {
    if rows == [] then ([], map[])
    else
      var n := |rows| - 1;
      var (order, nodes) := Inserted(rows[..n]);
      var row := rows[n];
      (if row.number in nodes then order else order + [row.number], nodes[row.number := NodeOf(row)])
  }

  lemma NumbersStep(rows: seq<FolderRow>)
    requires rows != []
    ensures Numbers(rows) == Numbers(rows[..|rows| - 1]) + {rows[|rows| - 1].number}
  {
    assert rows == rows[..|rows| - 1] + [rows[|rows| - 1]];
  }

  /** The dict has one key per folder number, listed once each in `order`. */
  lemma {:induction false} InsertedKeys(rows: seq<FolderRow>)
    ensures Inserted(rows).1.Keys == Numbers(rows)
    ensures Distinct(Inserted(rows).0)
    ensures forall i :: 0 <= i < |Inserted(rows).0| ==> Inserted(rows).0[i] in Inserted(rows).1
    ensures forall k :: k in Inserted(rows).1 ==> k in Inserted(rows).0
    decreases |rows|
  {
    if rows != [] {
      InsertedKeys(rows[..|rows| - 1]);
      NumbersStep(rows);
    }
  }

  /** Each key holds the data of the last row with that number. */
  lemma {:induction false} InsertedLastWins(rows: seq<FolderRow>, k: Key)
    requires k in Inserted(rows).1
    ensures k in Numbers(rows)
    ensures Inserted(rows).1[k] == NodeOf(rows[LastIndex(rows, k)])
    decreases |rows|
  {
    InsertedKeys(rows);
    var n := |rows| - 1;
    NumbersStep(rows);
    if rows[n].number != k {
      InsertedLastWins(rows[..n], k);
    }
  }

  lemma FirstIndexStep(rows: seq<FolderRow>, k: Key)
    requires rows != [] && k in Numbers(rows[..|rows| - 1])
    ensures k in Numbers(rows) && FirstIndex(rows, k) == FirstIndex(rows[..|rows| - 1], k)
  {
    NumbersStep(rows);
  }

  /** Keys are listed in the order in which their numbers first occur. */
  lemma {:induction false} InsertedFirstOrder(rows: seq<FolderRow>, a: nat, b: nat)
    requires a < b < |Inserted(rows).0|
    ensures Inserted(rows).0[a] in Numbers(rows) && Inserted(rows).0[b] in Numbers(rows)
    ensures FirstIndex(rows, Inserted(rows).0[a]) < FirstIndex(rows, Inserted(rows).0[b])
    decreases |rows|
  {
    InsertedKeys(rows);
    var n := |rows| - 1;
    var (order, nodes) := Inserted(rows[..n]);
    InsertedKeys(rows[..n]);
    NumbersStep(rows);
    FirstIndexStep(rows, Inserted(rows).0[a]);
    if b < |order| {
      InsertedFirstOrder(rows[..n], a, b);
      FirstIndexStep(rows, Inserted(rows).0[b]);
    } else {
      assert Inserted(rows).0[b] == rows[n].number && rows[n].number !in Numbers(rows[..n]);
    }
  }

  /** First loop: one dict entry per folder number, inserted at its first row, holding its last row. */
  method IndexRows(rows: seq<FolderRow>) returns (order: seq<Key>, nodes: map<Key, FolderNode>)
    ensures nodes.Keys == Numbers(rows)
    ensures Distinct(order)
    ensures forall i :: 0 <= i < |order| ==> order[i] in nodes
    ensures forall k :: k in nodes ==> k in order
    ensures forall a, b :: 0 <= a < b < |order| ==> FirstIndex(rows, order[a]) < FirstIndex(rows, order[b])
    ensures forall k :: k in nodes ==> nodes[k] == NodeOf(rows[LastIndex(rows, k)])
  {
    order, nodes := [], map[];
    for i := 0 to |rows|
      invariant (order, nodes) == Inserted(rows[..i])
    {
      var row := rows[i];
      assert rows[..i + 1][..i] == rows[..i];
      if row.number !in nodes {
        order := order + [row.number];
      }
      nodes := nodes[row.number := NodeOf(row)];
    }
    assert rows[..|rows|] == rows;
    InsertedKeys(rows);
    forall k | k in nodes ensures nodes[k] == NodeOf(rows[LastIndex(rows, k)]) {
      InsertedLastWins(rows, k);
    }
    forall a, b | 0 <= a < b < |order| ensures FirstIndex(rows, order[a]) < FirstIndex(rows, order[b]) {
      InsertedFirstOrder(rows, a, b);
    }
  }

  /** Every node with its child list taken from the folders of `order`. */
  function WithChildren(nodes0: map<Key, FolderNode>, order: seq<Key>, parents: map<Key, Option<Key>>): map<Key, FolderNode>
    requires forall i :: 0 <= i < |order| ==> order[i] in parents
  {
    map k | k in nodes0 :: nodes0[k].(children := ChildrenIn(order, parents, k))
  }

  lemma LinkStep(order: seq<Key>, parents: map<Key, Option<Key>>, i: nat)
    requires i < |order| && forall j :: 0 <= j < |order| ==> order[j] in parents
    ensures forall q :: ChildrenIn(order[..i + 1], parents, q) ==
              ChildrenIn(order[..i], parents, q) + (if parents[order[i]] == Some(q) then [order[i]] else [])
    ensures RootsIn(order[..i + 1], parents) ==
              RootsIn(order[..i], parents) + (if IsRoot(parents, order[i]) then [order[i]] else [])
  {
    assert order[..i + 1][..i] == order[..i];
  }

  /** Appending a folder whose parent `p` is a folder extends `p`'s child list and no other. */
  lemma LinkUpdateChild(nodes0: map<Key, FolderNode>, order: seq<Key>, parents: map<Key, Option<Key>>, i: nat, p: Key)
    requires parents == Parents(nodes0)
    requires i < |order| && forall j :: 0 <= j < |order| ==> order[j] in nodes0
    requires parents[order[i]] == Some(p) && p in nodes0
    ensures var nodes := WithChildren(nodes0, order[..i], parents);
            WithChildren(nodes0, order[..i + 1], parents) == nodes[p := nodes[p].(children := nodes[p].children + [order[i]])]
  {
    LinkStep(order, parents, i);
    var nodes := WithChildren(nodes0, order[..i], parents);
    var m := WithChildren(nodes0, order[..i + 1], parents);
    var u := nodes[p := nodes[p].(children := nodes[p].children + [order[i]])];
    assert m.Keys == u.Keys;
    forall q | q in m
      ensures m[q] == u[q]
    {
      if q == p {
      } else {
      }
    }
  }

  /** Appending a root changes no child list. */
  lemma LinkUpdateRoot(nodes0: map<Key, FolderNode>, order: seq<Key>, parents: map<Key, Option<Key>>, i: nat)
    requires parents == Parents(nodes0)
    requires i < |order| && forall j :: 0 <= j < |order| ==> order[j] in nodes0
    requires IsRoot(parents, order[i])
    ensures WithChildren(nodes0, order[..i + 1], parents) == WithChildren(nodes0, order[..i], parents)
  {
    LinkStep(order, parents, i);
    var nodes := WithChildren(nodes0, order[..i], parents);
    var m := WithChildren(nodes0, order[..i + 1], parents);
    assert m.Keys == nodes.Keys;
    forall q | q in m
      ensures m[q] == nodes[q]
    {
    }
  }

  /** Second loop: each folder is a root or is appended to its parent's child list. */
  method LinkChildren(order: seq<Key>, nodes0: map<Key, FolderNode>) returns (nodes: map<Key, FolderNode>, roots: seq<Key>)
    requires forall i :: 0 <= i < |order| ==> order[i] in nodes0
    requires forall k :: k in nodes0 ==> nodes0[k].children == []
    ensures nodes == WithChildren(nodes0, order, Parents(nodes0))
    ensures roots == RootsIn(order, Parents(nodes0))
  {
    ghost var parents := Parents(nodes0);
    nodes, roots := nodes0, [];
    assert nodes == WithChildren(nodes0, order[..0], parents);
    for i := 0 to |order|
      invariant nodes == WithChildren(nodes0, order[..i], parents)
      invariant roots == RootsIn(order[..i], parents)
    {
      var k := order[i];
      LinkStep(order, parents, i);
      var parent := nodes[k].parent;
      if parent.None? || parent.value !in nodes {
        LinkUpdateRoot(nodes0, order, parents, i);
        roots := roots + [k];
      } else {
        var p := parent.value;
        LinkUpdateChild(nodes0, order, parents, i, p);
        nodes := nodes[p := nodes[p].(children := nodes[p].children + [k])];
      }
    }
    assert order[..|order|] == order;
  }

  /** Every root chain through `stack` gives its last folder its depth as level. */
  ghost predicate ChainLevels(r: map<Key, FolderNode>, parents: map<Key, Option<Key>>, stack: seq<Key>) {
    forall t :: IsChain(parents, t) && Extends(t, stack) ==> t[|t| - 1] in r && r[t[|t| - 1]].level == |t| - 1
  }

  /** As `ChainLevels`, for the chains that leave `stack` through one of `cs`. */
  ghost predicate LevelsBelow(r: map<Key, FolderNode>, parents: map<Key, Option<Key>>, stack: seq<Key>, cs: seq<Key>) {
    forall t :: IsChain(parents, t) && Extends(t, stack) && |t| > |stack| && t[|stack|] in cs ==>
      t[|t| - 1] in r && r[t[|t| - 1]].level == |t| - 1
  }

  /** Outside the subtree entered through `stack`, `b` keeps the levels of `a`. */
  ghost predicate KeepsOutside(a: map<Key, FolderNode>, b: map<Key, FolderNode>, parents: map<Key, Option<Key>>, stack: seq<Key>) {
    forall k :: k in a && !InSubtreeOf(parents, stack, k) ==> k in b && b[k].level == a[k].level
  }

  lemma LevelSetHere(nodes: map<Key, FolderNode>, parents: map<Key, Option<Key>>, stack: seq<Key>, level: nat)
    requires IsChain(parents, stack) && stack[|stack| - 1] in nodes
    ensures var n := stack[|stack| - 1];
            KeepsOutside(nodes, nodes[n := nodes[n].(level := level)], parents, stack)
  {
    assert Extends(stack, stack);
  }

  /** A child `c` of the chain's last folder extends the chain, and the recursion into it terminates. */
  lemma ChildStep(nodes: map<Key, FolderNode>, parents: map<Key, Option<Key>>, stack: seq<Key>, c: Key)
    requires ChildrenSound(nodes, parents) && IsChain(parents, stack)
    requires stack[|stack| - 1] in nodes && c in nodes[stack[|stack| - 1]].children
    ensures IsChain(parents, stack + [c]) && c in nodes
    ensures parents.Keys - (set x | x in stack + [c]) < parents.Keys - (set x | x in stack)
  {
    ChainExtend(parents, stack, c);
    ChildNotOnChain(parents, stack, c);
    assert c in parents.Keys - (set x | x in stack);
  }

  lemma AfterChildOutside(nodes: map<Key, FolderNode>, before: map<Key, FolderNode>, r: map<Key, FolderNode>,
                          parents: map<Key, Option<Key>>, stack: seq<Key>, c: Key)
    requires nodes.Keys == before.Keys
    requires KeepsOutside(nodes, before, parents, stack) && KeepsOutside(before, r, parents, stack + [c])
    ensures KeepsOutside(nodes, r, parents, stack)
  {
    forall k | k in nodes && !InSubtreeOf(parents, stack, k) ensures k in r && r[k].level == nodes[k].level {
      if InSubtreeOf(parents, stack + [c], k) {
        ChildSubtreeInside(parents, stack, c, k);
      }
    }
  }

  lemma AfterChildOwner(before: map<Key, FolderNode>, r: map<Key, FolderNode>,
                        parents: map<Key, Option<Key>>, stack: seq<Key>, c: Key)
    requires IsChain(parents, stack) && stack[|stack| - 1] in before
    requires KeepsOutside(before, r, parents, stack + [c])
    ensures stack[|stack| - 1] in r && r[stack[|stack| - 1]].level == before[stack[|stack| - 1]].level
  {
    OwnerNotInChildSubtree(parents, stack, c);
  }

  lemma AfterChildBelow(before: map<Key, FolderNode>, r: map<Key, FolderNode>,
                        parents: map<Key, Option<Key>>, stack: seq<Key>, children: seq<Key>, i: nat)
    requires i < |children| && IsChain(parents, stack)
    requires LevelsBelow(before, parents, stack, children[..i])
    requires ChainLevels(r, parents, stack + [children[i]])
    requires KeepsOutside(before, r, parents, stack + [children[i]])
    ensures LevelsBelow(r, parents, stack, children[..i + 1])
  {
    var c := children[i];
    forall t | IsChain(parents, t) && Extends(t, stack) && |t| > |stack| && t[|stack|] in children[..i + 1]
      ensures t[|t| - 1] in r && r[t[|t| - 1]].level == |t| - 1
    {
      if t[|stack|] == c {
        assert t[..|stack| + 1] == t[..|stack|] + [t[|stack|]];
        assert Extends(t, stack + [c]);
      } else {
        assert t[|stack|] in children[..i];
        if InSubtreeOf(parents, stack + [c], t[|t| - 1]) {
          var t' :| IsChain(parents, t') && Extends(t', stack + [c]) && t'[|t'| - 1] == t[|t| - 1];
          ChainUnique(parents, t, t');
        }
      }
    }
  }

  lemma LevelsDone(nodes: map<Key, FolderNode>, r: map<Key, FolderNode>, parents: map<Key, Option<Key>>, stack: seq<Key>)
    requires ChildrenComplete(nodes, parents) && IsChain(parents, stack)
    requires stack[|stack| - 1] in nodes && stack[|stack| - 1] in r
    requires r[stack[|stack| - 1]].level == |stack| - 1
    requires LevelsBelow(r, parents, stack, nodes[stack[|stack| - 1]].children)
    ensures ChainLevels(r, parents, stack)
  {
    var n := stack[|stack| - 1];
    forall t | IsChain(parents, t) && Extends(t, stack) ensures t[|t| - 1] in r && r[t[|t| - 1]].level == |t| - 1 {
      if |t| > |stack| {
        assert t[|stack| - 1] == n;
        assert t[|stack|] in nodes[n].children;
      } else {
        assert t == stack;
      }
    }
  }

  /**
   * `set_level(n, level)`: writes `level` into `n` and recurses into each child with `level + 1`.
   * There is no visited set; `stack`, the root chain ending at `n`, exists only for the proof
   * that the recursion terminates.
   */
  method SetLevel(nodes: map<Key, FolderNode>, ghost parents: map<Key, Option<Key>>, n: Key, level: nat, ghost stack: seq<Key>)
    returns (r: map<Key, FolderNode>)
    requires ChildrenSound(nodes, parents) && ChildrenComplete(nodes, parents)
    requires IsChain(parents, stack) && stack[|stack| - 1] == n && level == |stack| - 1
    ensures SameExceptLevel(nodes, r)
    ensures ChainLevels(r, parents, stack)
    ensures KeepsOutside(nodes, r, parents, stack)
    decreases parents.Keys - (set x | x in stack)
  {
    r := nodes[n := nodes[n].(level := level)];
    LevelSetHere(nodes, parents, stack, level);
    var children := nodes[n].children;
    for i := 0 to |children|
      invariant SameExceptLevel(nodes, r)
      invariant r[n].level == level
      invariant LevelsBelow(r, parents, stack, children[..i])
      invariant KeepsOutside(nodes, r, parents, stack)
    {
      var c := children[i];
      ChildStep(nodes, parents, stack, c);
      KeepSound(nodes, r, parents);
      ghost var before := r;
      r := SetLevel(r, parents, c, level + 1, stack + [c]);
      AfterChildOutside(nodes, before, r, parents, stack, c);
      AfterChildOwner(before, r, parents, stack, c);
      AfterChildBelow(before, r, parents, stack, children, i);
    }
    assert children[..|children|] == children;
    LevelsDone(nodes, r, parents, stack);
  }

  ghost predicate ReachedFrom(parents: map<Key, Option<Key>>, rs: seq<Key>, k: Key) {
    exists t :: IsChain(parents, t) && t[0] in rs && t[|t| - 1] == k
  }

  /** Every root chain starting in `rs` gives its last folder its depth as level. */
  ghost predicate RootLevels(nodes: map<Key, FolderNode>, parents: map<Key, Option<Key>>, rs: seq<Key>) {
    forall t :: IsChain(parents, t) && t[0] in rs ==> t[|t| - 1] in nodes && nodes[t[|t| - 1]].level == |t| - 1
  }

  /** Folders no root of `rs` reaches still have level 0. */
  ghost predicate UnreachedZero(nodes: map<Key, FolderNode>, parents: map<Key, Option<Key>>, rs: seq<Key>) {
    forall k :: k in nodes && !ReachedFrom(parents, rs, k) ==> nodes[k].level == 0
  }

  lemma RootStepLevels(before: map<Key, FolderNode>, nodes: map<Key, FolderNode>, parents: map<Key, Option<Key>>,
                       roots: seq<Key>, i: nat)
    requires i < |roots|
    requires RootLevels(before, parents, roots[..i])
    requires ChainLevels(nodes, parents, [roots[i]])
    requires KeepsOutside(before, nodes, parents, [roots[i]])
    ensures RootLevels(nodes, parents, roots[..i + 1])
  {
    var root := roots[i];
    forall t | IsChain(parents, t) && t[0] in roots[..i + 1] ensures t[|t| - 1] in nodes && nodes[t[|t| - 1]].level == |t| - 1 {
      if t[0] == root {
        assert Extends(t, [root]);
      } else {
        assert t[0] in roots[..i];
        if InSubtreeOf(parents, [root], t[|t| - 1]) {
          var t' :| IsChain(parents, t') && Extends(t', [root]) && t'[|t'| - 1] == t[|t| - 1];
          ChainUnique(parents, t, t');
        }
      }
    }
  }

  lemma RootStepZero(before: map<Key, FolderNode>, nodes: map<Key, FolderNode>, parents: map<Key, Option<Key>>,
                     roots: seq<Key>, i: nat)
    requires i < |roots| && before.Keys == nodes.Keys
    requires UnreachedZero(before, parents, roots[..i])
    requires KeepsOutside(before, nodes, parents, [roots[i]])
    ensures UnreachedZero(nodes, parents, roots[..i + 1])
  {
  }

  lemma AllRootsDone(nodes: map<Key, FolderNode>, parents: map<Key, Option<Key>>, roots: seq<Key>)
    requires forall k :: IsRoot(parents, k) ==> k in roots
    requires RootLevels(nodes, parents, roots) && UnreachedZero(nodes, parents, roots)
    ensures LevelsAssigned(nodes, parents)
  {
    forall t | IsChain(parents, t) ensures t[|t| - 1] in nodes && nodes[t[|t| - 1]].level == |t| - 1 {
      assert t[0] in roots;
    }
  }

  /** Third loop: `set_level(root)` for every root, in order. */
  method AssignLevels(nodes0: map<Key, FolderNode>, roots: seq<Key>, ghost parents: map<Key, Option<Key>>)
    returns (nodes: map<Key, FolderNode>)
    requires ChildrenSound(nodes0, parents) && ChildrenComplete(nodes0, parents)
    requires forall k :: k in nodes0 ==> nodes0[k].level == 0
    requires forall i :: 0 <= i < |roots| ==> IsRoot(parents, roots[i])
    requires forall k :: IsRoot(parents, k) ==> k in roots
    ensures SameExceptLevel(nodes0, nodes)
    ensures LevelsAssigned(nodes, parents)
  {
    nodes := nodes0;
    for i := 0 to |roots|
      invariant SameExceptLevel(nodes0, nodes)
      invariant RootLevels(nodes, parents, roots[..i])
      invariant UnreachedZero(nodes, parents, roots[..i])
    {
      var root := roots[i];
      assert IsChain(parents, [root]);
      KeepSound(nodes0, nodes, parents);
      ghost var before := nodes;
      nodes := SetLevel(nodes, parents, root, 0, [root]);
      RootStepLevels(before, nodes, parents, roots, i);
      RootStepZero(before, nodes, parents, roots, i);
    }
    assert roots[..|roots|] == roots;
    AllRootsDone(nodes, parents, roots);
  }

  /** After linking: the parent pointers are untouched and the child lists invert them exactly. */
  lemma LinkedShape(nodes0: map<Key, FolderNode>, order: seq<Key>)
    requires forall i :: 0 <= i < |order| ==> order[i] in nodes0
    requires forall k :: k in nodes0 ==> k in order
    ensures var parents := Parents(nodes0);
            var nodes := WithChildren(nodes0, order, parents);
            && Parents(nodes) == parents
            && ChildrenSound(nodes, parents) && ChildrenComplete(nodes, parents)
            && (forall i :: 0 <= i < |RootsIn(order, parents)| ==> IsRoot(parents, RootsIn(order, parents)[i]))
            && (forall k :: IsRoot(parents, k) ==> k in RootsIn(order, parents))
  {
    var parents := Parents(nodes0);
    var nodes := WithChildren(nodes0, order, parents);
    forall p | p in nodes0 ensures forall c :: c in nodes[p].children <==> c in order && parents[c] == Some(p) {
      ChildrenInSpec(order, parents, p);
    }
    RootsInSpec(order, parents);
    assert forall i :: 0 <= i < |RootsIn(order, parents)| ==> RootsIn(order, parents)[i] in RootsIn(order, parents);
  }

  /** Writing levels changes neither the parent pointers nor the child lists. */
  lemma LevelsKeepLinks(a: map<Key, FolderNode>, b: map<Key, FolderNode>, parents: map<Key, Option<Key>>)
    requires SameExceptLevel(a, b) && Parents(a) == parents
    requires ChildrenSound(a, parents) && ChildrenComplete(a, parents)
    ensures Parents(b) == parents && ChildrenExact(b, parents)
  {
    KeepSound(a, b, parents);
  }

  /**
   * `build_folder_hierarchy(folders_df)`: the dict from folder number to node and the list of roots.
   */
  method BuildFolderHierarchy(rows: seq<FolderRow>) returns (h: Hierarchy)
    ensures WellFormed(h)
    ensures h.nodes.Keys == Numbers(rows)
    ensures forall a, b :: 0 <= a < b < |h.order| ==> FirstIndex(rows, h.order[a]) < FirstIndex(rows, h.order[b])
    ensures forall k :: k in h.nodes ==>
              var row := rows[LastIndex(rows, k)];
              h.nodes[k].title == row.title && h.nodes[k].parent == row.parent && h.nodes[k].itemCount == row.itemCount
  {
    var order, nodes0 := IndexRows(rows);
    var nodes1, roots := LinkChildren(order, nodes0);
    ghost var parents := Parents(nodes0);
    LinkedShape(nodes0, order);
    var nodes2 := AssignLevels(nodes1, roots, parents);
    LevelsKeepLinks(nodes1, nodes2, parents);
    h := Hierarchy(order, nodes2, roots);
  }
}
