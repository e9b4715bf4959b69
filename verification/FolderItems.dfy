/**
 * Work items placed in the folder hierarchy: the nested helpers `get_items_for_folder_tree`,
 * `get_direct_items_for_folder` and `has_items_in_tree` of the value-stream tab, and the
 * value-stream search built on them.
 */
module FolderItems {
  import opened Wrappers
  import opened Seqs
  import opened Text
  import opened Records
  import opened Folders
  import opened FolderPaths

  /** `parent_number.str.startswith('F')`: the parent names a folder rather than a card. */
  predicate FolderLike(p: string) {
    |p| > 0 && p[0] == 'F'
  }

  /** The root-folder fallback: `root_folder_number == f` and a null or non-folder parent. */
  predicate RootFallback(x: WorkItem, f: Key) {
    x.rootFolderNumber == Some(f) && (x.parentNumber.None? || !FolderLike(x.parentNumber.value))
  }

  /** An item belongs to folder `f` through its parent or through the root-folder fallback. */
  predicate InFolder(x: WorkItem, f: Key) {
    x.parentNumber == Some(f) || RootFallback(x, f)
  }

  /** `board_vs_data[board_vs_data['parent_number'] == f]`. */
  function ParentItems(items: seq<WorkItem>, f: Key): seq<WorkItem> {
    Filter(items, (x: WorkItem) => x.parentNumber == Some(f))
  }

  /** The frame of root-folder fallback items of `f`. */
  function RootItems(items: seq<WorkItem>, f: Key): seq<WorkItem> {
    Filter(items, (x: WorkItem) => RootFallback(x, f))
  }

  /** The ids of the items whose parent is `f`. */
  ghost function ParentIds(items: seq<WorkItem>, f: Key): set<int> {
    set x | x in items && x.parentNumber == Some(f) :: x.id
  }

  /** The ids of the root-folder fallback items of `f`. */
  ghost function FallbackIds(items: seq<WorkItem>, f: Key): set<int> {
    set x | x in items && RootFallback(x, f) :: x.id
  }

  lemma ParentItemsSpec(items: seq<WorkItem>, f: Key)
    ensures var r := ParentItems(items, f);
            && Ids(r) == ParentIds(items, f)
            && (forall i :: 0 <= i < |r| ==> r[i] in items && r[i].parentNumber == Some(f))
            && (DistinctIds(items) ==> DistinctIds(r))
  {
    var r := ParentItems(items, f);
    forall x | x in items && x.parentNumber == Some(f) ensures x.id in Ids(r) {
      var i :| 0 <= i < |items| && items[i] == x;
      assert x in r;
    }
    if DistinctIds(items) {
      SubseqDistinctIds(r, items);
    }
  }

  lemma RootItemsSpec(items: seq<WorkItem>, f: Key)
    ensures var r := RootItems(items, f);
            && Ids(r) == FallbackIds(items, f)
            && (forall i :: 0 <= i < |r| ==> r[i] in items && RootFallback(r[i], f))
            && (DistinctIds(items) ==> DistinctIds(r))
  {
    var r := RootItems(items, f);
    forall x | x in items && RootFallback(x, f) ensures x.id in Ids(r) {
      var i :| 0 <= i < |items| && items[i] == x;
      assert x in r;
    }
    if DistinctIds(items) {
      SubseqDistinctIds(r, items);
    }
  }

  lemma IdsAppend(a: seq<WorkItem>, b: seq<WorkItem>)
    ensures Ids(a + b) == Ids(a) + Ids(b)
  {
    assert forall y :: y in a + b <==> y in a || y in b;
  }

  // ---------------------------------------------------------------------------
  // get_direct_items_for_folder
  // ---------------------------------------------------------------------------

  /** What `get_direct_items_for_folder(f)` is meant to return: the fallback applies to level-0 folders only. */
  predicate DirectMember(h: Hierarchy, f: Key, x: WorkItem) {
    x.parentNumber == Some(f) || (f in h.nodes && h.nodes[f].level == 0 && RootFallback(x, f))
  }

  ghost function DirectIds(h: Hierarchy, items: seq<WorkItem>, f: Key): set<int> {
    set x | x in items && DirectMember(h, f, x) :: x.id
  }

  /**
   * `get_direct_items_for_folder(f)`: the items whose parent is `f`, plus for a folder of level 0
   * the root-folder fallback items, de-duplicated by id only when both frames are non-empty.
   */
  function DirectItems(h: Hierarchy, items: seq<WorkItem>, f: Key): seq<WorkItem> {
    var direct := ParentItems(items, f);
    if f in h.nodes && h.nodes[f].level == 0 then
      var root := RootItems(items, f);
      if |direct| > 0 && |root| > 0 then DedupeIds(direct + root)
      else if |root| > 0 then root
      else direct
    else direct
  }

  lemma MergedSpec(h: Hierarchy, items: seq<WorkItem>, f: Key)
    requires f in h.nodes && h.nodes[f].level == 0
    ensures var r := ParentItems(items, f) + RootItems(items, f);
            && Ids(r) == DirectIds(h, items, f)
            && (forall i :: 0 <= i < |r| ==> r[i] in items && DirectMember(h, f, r[i]))
  {
    var direct, root := ParentItems(items, f), RootItems(items, f);
    ParentItemsSpec(items, f);
    RootItemsSpec(items, f);
    IdsAppend(direct, root);
    assert DirectIds(h, items, f) == ParentIds(items, f) + FallbackIds(items, f);
    assert forall i :: 0 <= i < |direct + root| ==> (direct + root)[i] in direct || (direct + root)[i] in root;
  }

  /**
   * The direct frame holds items of the folder only, carries exactly the ids the folder directly
   * owns, and has distinct ids whenever the items do.
   */
  lemma DirectItemsSpec(h: Hierarchy, items: seq<WorkItem>, f: Key)
    ensures var r := DirectItems(h, items, f);
            && (forall i :: 0 <= i < |r| ==> r[i] in items && DirectMember(h, f, r[i]))
            && Ids(r) == DirectIds(h, items, f)
            && (DistinctIds(items) ==> DistinctIds(r))
  {
    var direct := ParentItems(items, f);
    ParentItemsSpec(items, f);
    if f in h.nodes && h.nodes[f].level == 0 {
      var root := RootItems(items, f);
      RootItemsSpec(items, f);
      MergedSpec(h, items, f);
      if |direct| > 0 && |root| > 0 {
        var d := DedupeIds(direct + root);
        assert forall i :: 0 <= i < |d| ==> d[i] in direct + root;
      } else if |root| > 0 {
        assert direct == [];
        assert DirectIds(h, items, f) == FallbackIds(items, f);
      } else {
        assert root == [];
        assert DirectIds(h, items, f) == ParentIds(items, f);
      }
    } else {
      assert DirectIds(h, items, f) == ParentIds(items, f);
    }
  }

  /**
   * The direct frame keeps the rows' order: the items by parent come first, then the fallback
   * items, each in table order, and de-duplication only deletes rows.
   */
  lemma DirectItemsOrder(h: Hierarchy, items: seq<WorkItem>, f: Key)
    ensures IsSubseq(DirectItems(h, items, f), ParentItems(items, f) + RootItems(items, f))
  {
    var direct, root := ParentItems(items, f), RootItems(items, f);
    if f in h.nodes && h.nodes[f].level == 0 && |direct| > 0 && |root| > 0 {
    } else if f in h.nodes && h.nodes[f].level == 0 && |root| > 0 {
      assert direct + root == root;
      SubseqReflexive(root);
    } else {
      SubseqReflexive(direct);
      SubseqConcat(direct, direct, [], root);
      assert direct + [] == direct;
    }
  }

  /** With distinct ids the direct frame holds every item the folder directly owns. */
  lemma DirectHoldsOwnItems(h: Hierarchy, items: seq<WorkItem>, f: Key, x: WorkItem)
    requires DistinctIds(items) && x in items && DirectMember(h, f, x)
    ensures x in DirectItems(h, items, f)
  {
    var r := DirectItems(h, items, f);
    DirectItemsSpec(h, items, f);
    assert x.id in DirectIds(h, items, f);
    var y :| y in r && y.id == x.id;
    var i :| 0 <= i < |items| && items[i] == x;
    var j :| 0 <= j < |items| && items[j] == y;
  }

  // ---------------------------------------------------------------------------
  // get_items_for_folder_tree
  // ---------------------------------------------------------------------------

  /** The child lists of `h` invert its parent pointers (what the recursions below need). */
  ghost predicate Linked(h: Hierarchy) {
    ChildrenSound(h.nodes, Parents(h.nodes)) && ChildrenComplete(h.nodes, Parents(h.nodes))
  }

  lemma ChildIsFolder(h: Hierarchy, f: Key, c: Key)
    requires Linked(h) && f in h.nodes && c in h.nodes[f].children
    ensures c in h.nodes
  {
  }

  lemma WellFormedLinked(h: Hierarchy)
    requires WellFormed(h)
    ensures Linked(h)
  {
  }

  /** The ids of the items that belong to `f` itself. */
  ghost function FolderIds(items: seq<WorkItem>, f: Key): set<int> {
    set x | x in items && InFolder(x, f) :: x.id
  }

  /** The ids of the items that belong to some folder of the subtree entered through `stack`. */
  ghost function SubtreeIds(h: Hierarchy, items: seq<WorkItem>, stack: seq<Key>): set<int> {
    set x | x in items && (exists k :: Below(Parents(h.nodes), stack, k) && InFolder(x, k)) :: x.id
  }

  /**
   * What `get_items_for_folder_tree(f)` collects: the items of every folder below `f` (reached
   * through the descent `stack`), or only those of `f` when it is not a folder.
   */
  ghost function TreeIds(h: Hierarchy, items: seq<WorkItem>, stack: seq<Key>, f: Key): set<int> {
    if f in h.nodes then SubtreeIds(h, items, stack) else FolderIds(items, f)
  }

  /** The subtree ids of each child `cs[j]` of the chain's last folder. */
  ghost function ChildSets(h: Hierarchy, items: seq<WorkItem>, stack: seq<Key>, cs: seq<Key>): (ss: seq<set<int>>)
    ensures |ss| == |cs|
  {
    seq(|cs|, j requires 0 <= j < |cs| => SubtreeIds(h, items, stack + [cs[j]]))
  }

  /** The union of the first `i` sets of `ss`. */
  ghost function UnionPrefix(ss: seq<set<int>>, i: nat): set<int>
    requires i <= |ss|
  {
    if i == 0 then {} else UnionPrefix(ss, i - 1) + ss[i - 1]
  }

  lemma {:induction false} UnionPrefixMember(ss: seq<set<int>>, i: nat, y: int)
    requires i <= |ss|
    ensures y in UnionPrefix(ss, i) <==> exists j :: 0 <= j < i && y in ss[j]
  {
    if i > 0 {
      UnionPrefixMember(ss, i - 1, y);
    }
  }

  /** A folder below the chain's last folder `f` is `f` itself or lies below one of `f`'s children. */
  lemma BelowTopOrChild(h: Hierarchy, stack: seq<Key>, k: Key) returns (j: int)
    requires Linked(h) && Links(Parents(h.nodes), stack) && stack[|stack| - 1] in h.nodes
    requires Below(Parents(h.nodes), stack, k)
    ensures var cs := h.nodes[stack[|stack| - 1]].children;
            (j == -1 && k == stack[|stack| - 1]) || (0 <= j < |cs| && Below(Parents(h.nodes), stack + [cs[j]], k))
  {
    var parents := Parents(h.nodes);
    var f := stack[|stack| - 1];
    var cs := h.nodes[f].children;
    var t :| Links(parents, t) && Extends(t, stack) && t[|t| - 1] == k;
    if |t| == |stack| {
      assert t == stack;
      j := -1;
    } else {
      var c := t[|stack|];
      assert t[|stack| - 1] == f;
      assert c in cs;
      j :| 0 <= j < |cs| && cs[j] == c;
      assert t[..|stack| + 1] == t[..|stack|] + [c];
      assert Extends(t, stack + [c]);
    }
  }

  lemma SubtreeIdsSub(h: Hierarchy, items: seq<WorkItem>, stack: seq<Key>, y: int) returns (j: int)
    requires Linked(h) && Links(Parents(h.nodes), stack) && stack[|stack| - 1] in h.nodes
    requires y in SubtreeIds(h, items, stack)
    ensures var f := stack[|stack| - 1];
            var cs := h.nodes[f].children;
            (j == -1 && y in FolderIds(items, f)) || (0 <= j < |cs| && y in SubtreeIds(h, items, stack + [cs[j]]))
  {
    var x :| x in items && x.id == y && exists k :: Below(Parents(h.nodes), stack, k) && InFolder(x, k);
    var k :| Below(Parents(h.nodes), stack, k) && InFolder(x, k);
    j := BelowTopOrChild(h, stack, k);
  }

  lemma SubtreeIdsSuper(h: Hierarchy, items: seq<WorkItem>, stack: seq<Key>, y: int)
    requires Linked(h) && Links(Parents(h.nodes), stack) && stack[|stack| - 1] in h.nodes
    ensures var f := stack[|stack| - 1];
            var cs := h.nodes[f].children;
            (y in FolderIds(items, f) || exists j :: 0 <= j < |cs| && y in ChildSets(h, items, stack, cs)[j]) ==>
              y in SubtreeIds(h, items, stack)
  {
    var parents := Parents(h.nodes);
    var f := stack[|stack| - 1];
    var cs := h.nodes[f].children;
    if y in FolderIds(items, f) {
      var x :| x in items && x.id == y && InFolder(x, f);
      assert Extends(stack, stack);
      assert Below(parents, stack, f);
    } else if exists j :: 0 <= j < |cs| && y in ChildSets(h, items, stack, cs)[j] {
      var j :| 0 <= j < |cs| && y in ChildSets(h, items, stack, cs)[j];
      var x :| x in items && x.id == y && exists k :: Below(parents, stack + [cs[j]], k) && InFolder(x, k);
      var k :| Below(parents, stack + [cs[j]], k) && InFolder(x, k);
      ChildBelowInside(parents, stack, cs[j], k);
    }
  }

  /**
   * A subtree's ids are those of its top folder together with those of each child's subtree:
   * the three sources `get_items_for_folder_tree` concatenates.
   */
  lemma SubtreeSplit(h: Hierarchy, items: seq<WorkItem>, stack: seq<Key>)
    requires Linked(h) && Links(Parents(h.nodes), stack) && stack[|stack| - 1] in h.nodes
    ensures var f := stack[|stack| - 1];
            var cs := h.nodes[f].children;
            SubtreeIds(h, items, stack) == FolderIds(items, f) + UnionPrefix(ChildSets(h, items, stack, cs), |cs|)
  {
    var f := stack[|stack| - 1];
    var cs := h.nodes[f].children;
    var ss := ChildSets(h, items, stack, cs);
    forall y ensures y in SubtreeIds(h, items, stack) <==> y in FolderIds(items, f) + UnionPrefix(ss, |cs|) {
      UnionPrefixMember(ss, |cs|, y);
      SubtreeIdsSuper(h, items, stack, y);
      if y in SubtreeIds(h, items, stack) {
        var j := SubtreeIdsSub(h, items, stack, y);
        if j >= 0 {
          assert y in ss[j];
        }
      }
    }
  }

  lemma FolderIdsSplit(items: seq<WorkItem>, f: Key)
    ensures FolderIds(items, f) == ParentIds(items, f) + FallbackIds(items, f)
  {
  }

  /** `ss` lists the subtree ids of each child in `cs`. */
  ghost predicate ChildSetsAre(h: Hierarchy, items: seq<WorkItem>, stack: seq<Key>, cs: seq<Key>, ss: seq<set<int>>) {
    |ss| == |cs| && forall j :: 0 <= j < |cs| ==> ss[j] == SubtreeIds(h, items, stack + [cs[j]])
  }

  lemma ChildSetsSpec(h: Hierarchy, items: seq<WorkItem>, stack: seq<Key>, cs: seq<Key>)
    ensures ChildSetsAre(h, items, stack, cs, ChildSets(h, items, stack, cs))
  {
  }

  /** Appending a frame when it is non-empty adds its ids. */
  lemma AppendStep(parts: seq<seq<WorkItem>>, sub: seq<WorkItem>)
    ensures var next := if |sub| > 0 then parts + [sub] else parts;
            && Ids(Concat(next)) == Ids(Concat(parts)) + Ids(sub)
            && (forall y :: y in Concat(next) ==> y in Concat(parts) || y in sub)
  {
    ConcatSnoc(parts, sub);
    IdsAppend(Concat(parts), sub);
  }

  /** `pd.concat(items_list).drop_duplicates(subset=['id'])`, or an empty frame for an empty list. */
  lemma FinishParts(parts: seq<seq<WorkItem>>, items: seq<WorkItem>)
    requires forall y :: y in Concat(parts) ==> y in items
    ensures var r := if |parts| > 0 then DedupeIds(Concat(parts)) else [];
            && DistinctIds(r) && Ids(r) == Ids(Concat(parts))
            && (forall i :: 0 <= i < |r| ==> r[i] in items)
  {
    if |parts| > 0 {
      var r := DedupeIds(Concat(parts));
      forall i | 0 <= i < |r| ensures r[i] in items {
        var j :| FirstOfId(Concat(parts), j) && Concat(parts)[j] == r[i];
      }
    }
  }

  lemma ConcatSnoc(parts: seq<seq<WorkItem>>, p: seq<WorkItem>)
    ensures Concat(parts + [p]) == Concat(parts) + p
  {
    assert (parts + [p])[..|parts|] == parts;
  }

  /**
   * `get_items_for_folder_tree(f)`: the items of `f` (by parent and by the root-folder fallback)
   * and, when `f` is a folder, of each child's tree, concatenated and de-duplicated by id. It has
   * no visited set: on a folder on a parent cycle it recurses until `RecursionError`, so `f` must
   * not be on one. `stack`, a descent ending at `f` (just `[f]` at the outermost call), exists only
   * for the proof that it terminates.
   */
  method TreeItems(h: Hierarchy, items: seq<WorkItem>, f: Key, ghost stack: seq<Key>) returns (r: seq<WorkItem>)
    requires Linked(h)
    requires f in h.nodes ==> IsDescent(Parents(h.nodes), stack) && stack[|stack| - 1] == f
    ensures DistinctIds(r)
    ensures forall i :: 0 <= i < |r| ==> r[i] in items
    ensures Ids(r) == TreeIds(h, items, stack, f)
    decreases Parents(h.nodes).Keys - (set x | x in stack), 1, 0
  {
    var parts := OwnParts(items, f);
    if f in h.nodes {
      ghost var ss := ChildSets(h, items, stack, h.nodes[f].children);
      ChildSetsSpec(h, items, stack, h.nodes[f].children);
      parts := CollectChildTrees(h, items, f, stack, ss, parts);
      SubtreeSplit(h, items, stack);
      assert Ids(Concat(parts)) == TreeIds(h, items, stack, f);
    }
    FinishParts(parts, items);
    if |parts| > 0 {
      r := DedupeIds(Concat(parts));
    } else {
      r := [];
    }
  }

  /** The first two frames of `get_items_for_folder_tree(f)`: the items by parent, then the fallback items. */
  method OwnParts(items: seq<WorkItem>, f: Key) returns (parts: seq<seq<WorkItem>>)
    ensures forall y :: y in Concat(parts) ==> y in items
    ensures Ids(Concat(parts)) == FolderIds(items, f)
  {
    parts := [];
    var direct := ParentItems(items, f);
    ParentItemsSpec(items, f);
    AppendStep(parts, direct);
    if |direct| > 0 {
      parts := parts + [direct];
    }
    var root := RootItems(items, f);
    RootItemsSpec(items, f);
    AppendStep(parts, root);
    if |root| > 0 {
      parts := parts + [root];
    }
    FolderIdsSplit(items, f);
  }

  /** The `for child in children` loop of `get_items_for_folder_tree`: appends each non-empty child tree. */
  method CollectChildTrees(h: Hierarchy, items: seq<WorkItem>, f: Key, ghost stack: seq<Key>, ghost ss: seq<set<int>>,
                           parts0: seq<seq<WorkItem>>)
    returns (parts: seq<seq<WorkItem>>)
    requires Linked(h) && IsDescent(Parents(h.nodes), stack) && stack[|stack| - 1] == f && f in h.nodes
    requires ChildSetsAre(h, items, stack, h.nodes[f].children, ss)
    requires forall y :: y in Concat(parts0) ==> y in items
    ensures forall y :: y in Concat(parts) ==> y in items
    ensures Ids(Concat(parts)) == Ids(Concat(parts0)) + UnionPrefix(ss, |ss|)
    decreases Parents(h.nodes).Keys - (set x | x in stack), 0
  {
    parts := parts0;
    var children := h.nodes[f].children;
    for i := 0 to |children|
      invariant forall y :: y in Concat(parts) ==> y in items
      invariant Ids(Concat(parts)) == Ids(Concat(parts0)) + UnionPrefix(ss, i)
    {
      var c := children[i];
      ChildCall(h, items, stack, ss, i);
      var sub := TreeItems(h, items, c, stack + [c]);
      UnionStep(ss, i, Ids(Concat(parts0)), parts, sub);
      if |sub| > 0 {
        parts := parts + [sub];
      }
    }
  }

  /** What the child loop needs of child `i`: it continues the descent, and `ss[i]` is its tree's ids. */
  lemma ChildCall(h: Hierarchy, items: seq<WorkItem>, stack: seq<Key>, ss: seq<set<int>>, i: nat)
    requires Linked(h) && IsDescent(Parents(h.nodes), stack) && stack[|stack| - 1] in h.nodes
    requires ChildSetsAre(h, items, stack, h.nodes[stack[|stack| - 1]].children, ss)
    requires i < |h.nodes[stack[|stack| - 1]].children|
    ensures var c := h.nodes[stack[|stack| - 1]].children[i];
            && IsDescent(Parents(h.nodes), stack + [c]) && c in h.nodes
            && Parents(h.nodes).Keys - (set x | x in stack + [c]) < Parents(h.nodes).Keys - (set x | x in stack)
            && i < |ss| && ss[i] == TreeIds(h, items, stack + [c], c)
  {
    var c := h.nodes[stack[|stack| - 1]].children[i];
    DescentStep(h.nodes, Parents(h.nodes), stack, c);
  }

  /** One turn of the child loop: appending the frame of child `i` adds that child's subtree ids. */
  lemma UnionStep(ss: seq<set<int>>, i: nat, base: set<int>, parts: seq<seq<WorkItem>>, sub: seq<WorkItem>)
    requires i < |ss| && Ids(Concat(parts)) == base + UnionPrefix(ss, i) && Ids(sub) == ss[i]
    ensures var next := if |sub| > 0 then parts + [sub] else parts;
            && Ids(Concat(next)) == base + UnionPrefix(ss, i + 1)
            && (forall y :: y in Concat(next) ==> y in Concat(parts) || y in sub)
  {
    AppendStep(parts, sub);
  }

  /** The direct frame of a folder carries only ids its tree collects. */
  lemma DirectInTree(h: Hierarchy, items: seq<WorkItem>, f: Key, stack: seq<Key>)
    requires Linked(h)
    requires f in h.nodes ==> Links(Parents(h.nodes), stack) && stack[|stack| - 1] == f
    ensures Ids(DirectItems(h, items, f)) <= TreeIds(h, items, stack, f)
  {
    DirectItemsSpec(h, items, f);
    assert DirectIds(h, items, f) <= FolderIds(items, f);
    if f in h.nodes {
      SubtreeSplit(h, items, stack);
    }
  }

  // ---------------------------------------------------------------------------
  // has_items_in_tree and the relevant roots
  // ---------------------------------------------------------------------------

  /** Folder `k` directly owns some item (what a non-empty direct frame means). */
  ghost predicate HasDirect(h: Hierarchy, items: seq<WorkItem>, k: Key) {
    exists x :: x in items && DirectMember(h, k, x)
  }

  /**
   * What `has_items_in_tree(f)` decides: some folder of the subtree entered through `stack`
   * directly owns an item, or, when `f` is not a folder, `f` itself does.
   */
  ghost predicate TreeHasDirect(h: Hierarchy, items: seq<WorkItem>, stack: seq<Key>, f: Key) {
    if f in h.nodes then exists k :: Below(Parents(h.nodes), stack, k) && HasDirect(h, items, k)
    else HasDirect(h, items, f)
  }

  /** The direct frame is non-empty exactly when the folder directly owns an item. */
  lemma DirectNonEmpty(h: Hierarchy, items: seq<WorkItem>, f: Key)
    ensures |DirectItems(h, items, f)| > 0 <==> HasDirect(h, items, f)
  {
    var r := DirectItems(h, items, f);
    DirectItemsSpec(h, items, f);
    if HasDirect(h, items, f) {
      var x :| x in items && DirectMember(h, f, x);
      assert x.id in Ids(r);
    }
    if |r| > 0 {
      assert r[0] in items && DirectMember(h, f, r[0]);
    }
  }

  /** A directly owned item of the subtree lies at its top folder or within one child's subtree. */
  lemma TreeHasSub(h: Hierarchy, items: seq<WorkItem>, stack: seq<Key>) returns (j: int)
    requires Linked(h) && Links(Parents(h.nodes), stack) && stack[|stack| - 1] in h.nodes
    requires TreeHasDirect(h, items, stack, stack[|stack| - 1])
    ensures var f := stack[|stack| - 1];
            var cs := h.nodes[f].children;
            (j == -1 && HasDirect(h, items, f)) || (0 <= j < |cs| && TreeHasDirect(h, items, stack + [cs[j]], cs[j]))
  {
    var k :| Below(Parents(h.nodes), stack, k) && HasDirect(h, items, k);
    j := BelowTopOrChild(h, stack, k);
    if j >= 0 {
      var cs := h.nodes[stack[|stack| - 1]].children;
      assert cs[j] in cs;
      ChildIsFolder(h, stack[|stack| - 1], cs[j]);
    }
  }

  /** A directly owned item of the top folder or of a child's subtree is one of the subtree. */
  lemma TreeHasSuper(h: Hierarchy, items: seq<WorkItem>, stack: seq<Key>, j: int)
    requires Linked(h) && Links(Parents(h.nodes), stack) && stack[|stack| - 1] in h.nodes
    requires var f := stack[|stack| - 1];
             var cs := h.nodes[f].children;
             (j == -1 && HasDirect(h, items, f)) || (0 <= j < |cs| && TreeHasDirect(h, items, stack + [cs[j]], cs[j]))
    ensures TreeHasDirect(h, items, stack, stack[|stack| - 1])
  {
    var parents := Parents(h.nodes);
    var f := stack[|stack| - 1];
    var cs := h.nodes[f].children;
    if j == -1 {
      assert Extends(stack, stack);
      assert Below(parents, stack, f);
    } else {
      assert cs[j] in cs;
      ChildIsFolder(h, f, cs[j]);
      var k :| Below(parents, stack + [cs[j]], k) && HasDirect(h, items, k);
      ChildBelowInside(parents, stack, cs[j], k);
    }
  }

  /** A subtree holds a directly owned item exactly when its top folder or some child's subtree does. */
  lemma TreeHasSplit(h: Hierarchy, items: seq<WorkItem>, stack: seq<Key>)
    requires Linked(h) && Links(Parents(h.nodes), stack) && stack[|stack| - 1] in h.nodes
    ensures var f := stack[|stack| - 1];
            var cs := h.nodes[f].children;
            TreeHasDirect(h, items, stack, f) <==>
              HasDirect(h, items, f) || exists j :: 0 <= j < |cs| && TreeHasDirect(h, items, stack + [cs[j]], cs[j])
  {
    var f := stack[|stack| - 1];
    var cs := h.nodes[f].children;
    if TreeHasDirect(h, items, stack, f) {
      var j := TreeHasSub(h, items, stack);
    }
    if HasDirect(h, items, f) {
      TreeHasSuper(h, items, stack, -1);
    }
    if exists j :: 0 <= j < |cs| && TreeHasDirect(h, items, stack + [cs[j]], cs[j]) {
      var j :| 0 <= j < |cs| && TreeHasDirect(h, items, stack + [cs[j]], cs[j]);
      TreeHasSuper(h, items, stack, j);
    }
  }

  /**
   * `has_items_in_tree(f)`: true as soon as `f`'s direct frame is non-empty, else, for a folder,
   * as soon as some child's tree has items. On a folder on a parent cycle it may return true early
   * or recurse until `RecursionError`; that case is left out, and the only call, on a root, never
   * meets it. `stack` is a descent ending at `f`.
   */
  method HasItemsInTree(h: Hierarchy, items: seq<WorkItem>, f: Key, ghost stack: seq<Key>) returns (b: bool)
    requires Linked(h)
    requires f in h.nodes ==> IsDescent(Parents(h.nodes), stack) && stack[|stack| - 1] == f
    ensures b == TreeHasDirect(h, items, stack, f)
    decreases Parents(h.nodes).Keys - (set x | x in stack), 2
  {
    var direct := DirectItems(h, items, f);
    DirectNonEmpty(h, items, f);
    if |direct| > 0 {
      if f in h.nodes {
        assert Extends(stack, stack);
        assert Below(Parents(h.nodes), stack, f);
      }
      return true;
    }
    if f in h.nodes {
      b := AnyChildHasItems(h, items, f, stack);
      TreeHasSplit(h, items, stack);
    } else {
      b := false;
    }
  }

  /** The `for child in children` loop of `has_items_in_tree`, returning at the first child whose tree has items. */
  method AnyChildHasItems(h: Hierarchy, items: seq<WorkItem>, f: Key, ghost stack: seq<Key>) returns (b: bool)
    requires Linked(h) && IsDescent(Parents(h.nodes), stack) && stack[|stack| - 1] == f && f in h.nodes
    ensures b <==> exists j :: 0 <= j < |h.nodes[f].children| &&
                     TreeHasDirect(h, items, stack + [h.nodes[f].children[j]], h.nodes[f].children[j])
    decreases Parents(h.nodes).Keys - (set x | x in stack), 1
  {
    var children := h.nodes[f].children;
    for i := 0 to |children|
      invariant forall j :: 0 <= j < i ==> !TreeHasDirect(h, items, stack + [children[j]], children[j])
    {
      var found := ChildHasItems(h, items, f, stack, i);
      if found {
        return true;
      }
    }
    return false;
  }

  /** The call `has_items_in_tree(child)` for child `i` of the descent's last folder. */
  method ChildHasItems(h: Hierarchy, items: seq<WorkItem>, f: Key, ghost stack: seq<Key>, i: nat) returns (found: bool)
    requires Linked(h) && IsDescent(Parents(h.nodes), stack) && stack[|stack| - 1] == f && f in h.nodes
    requires i < |h.nodes[f].children|
    ensures var c := h.nodes[f].children[i];
            found == TreeHasDirect(h, items, stack + [c], c)
    decreases Parents(h.nodes).Keys - (set x | x in stack), 0
  {
    var c := h.nodes[f].children[i];
    DescentStep(h.nodes, Parents(h.nodes), stack, c);
    found := HasItemsInTree(h, items, c, stack + [c]);
  }

  /**
   * The `relevant_roots` loop: the roots, in order, whose tree has a directly owned item.
   */
  method RelevantRoots(h: Hierarchy, items: seq<WorkItem>) returns (rs: seq<Key>)
    requires Linked(h) && RootsListed(h)
    ensures IsSubseq(rs, h.roots)
    ensures forall r :: r in h.roots ==> (r in rs <==> TreeHasDirect(h, items, [r], r))
  {
    rs := [];
    for i := 0 to |h.roots|
      invariant IsSubseq(rs, h.roots[..i])
      invariant forall r :: r in rs ==> r in h.roots[..i]
      invariant forall r :: r in h.roots[..i] ==> (r in rs <==> TreeHasDirect(h, items, [r], r))
    {
      var root := h.roots[i];
      assert IsChain(Parents(h.nodes), [root]);
      ChainIsDescent(Parents(h.nodes), [root]);
      var b := HasItemsInTree(h, items, root, [root]);
      RelevantStep(h, items, rs, i, b);
      if b {
        rs := rs + [root];
      }
    }
    assert h.roots[..|h.roots|] == h.roots;
  }

  /** The roots of `h` are distinct roots of its parent pointers. */
  ghost predicate RootsListed(h: Hierarchy) {
    Distinct(h.roots) && forall i :: 0 <= i < |h.roots| ==> IsRoot(Parents(h.nodes), h.roots[i])
  }

  lemma WellFormedRoots(h: Hierarchy)
    requires WellFormed(h)
    ensures Linked(h) && RootsListed(h)
  {
    RootsInSpec(h.order, Parents(h.nodes));
  }

  /** One turn of the `relevant_roots` loop keeps the kept roots those, so far, whose tree has items. */
  lemma RelevantStep(h: Hierarchy, items: seq<WorkItem>, rs: seq<Key>, i: nat, b: bool)
    requires RootsListed(h) && i < |h.roots|
    requires IsSubseq(rs, h.roots[..i]) && forall r :: r in rs ==> r in h.roots[..i]
    requires forall r :: r in h.roots[..i] ==> (r in rs <==> TreeHasDirect(h, items, [r], r))
    requires b == TreeHasDirect(h, items, [h.roots[i]], h.roots[i])
    ensures var next := if b then rs + [h.roots[i]] else rs;
            && IsSubseq(next, h.roots[..i + 1]) && (forall r :: r in next ==> r in h.roots[..i + 1])
            && forall r :: r in h.roots[..i + 1] ==> (r in next <==> TreeHasDirect(h, items, [r], r))
  {
    var root := h.roots[i];
    assert h.roots[..i + 1] == h.roots[..i] + [root];
    assert root !in h.roots[..i];
    if b {
      SubseqSnoc(rs, h.roots[..i], root);
    } else {
      SubseqExtend(rs, h.roots[..i], root);
    }
  }

  // ---------------------------------------------------------------------------
  // Search for a specific value stream
  // ---------------------------------------------------------------------------

  /** `search_vs.lower() in folder_info['title'].lower()`. */
  predicate TitleMatches(h: Hierarchy, k: Key, q: string)
    requires k in h.nodes
  {
    Contains(Lower(h.nodes[k].title), Lower(q))
  }

  /** The ids `get_items_for_folder_tree(k)` collects when called on `k` itself. */
  ghost function TreeIdsOf(h: Hierarchy, items: seq<WorkItem>, k: Key): set<int> {
    TreeIds(h, items, [k], k)
  }

  /**
   * The search ends: no folder whose title matches is on a parent cycle (its tree would recurse
   * until `RecursionError`), and every such folder whose tree has items has a path walk that stops
   * (`get_folder_path` loops forever on a folder on or below a cycle).
   */
  ghost predicate SearchReady(h: Hierarchy, items: seq<WorkItem>, q: string) {
    forall k :: k in h.nodes && TitleMatches(h, k, q) ==>
      !OnCycle(Parents(h.nodes), k) && (TreeIdsOf(h, items, k) != {} ==> PathEnds(h.nodes, k))
  }

  /** A search whose matching folders are all reached from a root ends. */
  lemma ReachedSearchReady(h: Hierarchy, items: seq<WorkItem>, q: string)
    requires forall k :: k in h.nodes && TitleMatches(h, k, q) ==> Reached(Parents(h.nodes), k)
    ensures SearchReady(h, items, q)
  {
    forall k | k in h.nodes && TitleMatches(h, k, q)
      ensures !OnCycle(Parents(h.nodes), k) && PathEnds(h.nodes, k)
    {
      var t :| IsChain(Parents(h.nodes), t) && t[|t| - 1] == k;
      ChainIsDescent(Parents(h.nodes), t);
      DescentOffCycle(Parents(h.nodes), t);
      ChainPathEnds(h.nodes, t);
    }
  }

  /** One entry of `matching_folders`. */
  datatype Match = Match(number: Key, title: string, path: string, items: seq<WorkItem>,
                         directItems: seq<WorkItem>, level: nat)

  /** `m` is the entry the search builds for its folder. */
  ghost predicate MatchFor(h: Hierarchy, items: seq<WorkItem>, q: string, m: Match) {
    && m.number in h.nodes && TitleMatches(h, m.number, q)
    && m.title == h.nodes[m.number].title && m.level == h.nodes[m.number].level
    && m.directItems == DirectItems(h, items, m.number)
    && |m.items| > 0 && DistinctIds(m.items) && (forall i :: 0 <= i < |m.items| ==> m.items[i] in items)
    && Ids(m.items) == TreeIdsOf(h, items, m.number)
    && (forall n: nat :: !Live(h.nodes, Iterate(h.nodes, Some(m.number), n)) ==>
          m.path == JoinPath(TitlesUp(h.nodes, Some(m.number), n)))
  }

  function MatchNumbers(ms: seq<Match>): (ns: seq<Key>)
    ensures |ns| == |ms| && forall j :: 0 <= j < |ms| ==> ns[j] == ms[j].number
  {
    if ms == [] then [] else MatchNumbers(ms[..|ms| - 1]) + [ms[|ms| - 1].number]
  }

  /** The body of the search loop for a folder whose title matches: its entry, or none when its tree is empty. */
  method MatchFolder(h: Hierarchy, items: seq<WorkItem>, q: string, k: Key) returns (r: Option<Match>)
    requires Linked(h) && k in h.nodes && TitleMatches(h, k, q) && !OnCycle(Parents(h.nodes), k)
    requires TreeIdsOf(h, items, k) != {} ==> PathEnds(h.nodes, k)
    ensures r.Some? ==> r.value.number == k && MatchFor(h, items, q, r.value)
    ensures r.None? <==> TreeIdsOf(h, items, k) == {}
  {
    assert IsDescent(Parents(h.nodes), [k]);
    var all := TreeItems(h, items, k, [k]);
    var direct := DirectItems(h, items, k);
    if |all| > 0 {
      assert all[0].id in Ids(all);
      var path := FolderPath(h.nodes, k);
      r := Some(Match(k, h.nodes[k].title, path, all, direct, h.nodes[k].level));
    } else {
      r := None;
    }
  }

  /** The folders of `h`, listed in `order`. */
  ghost predicate OrderListed(h: Hierarchy) {
    (forall i :: 0 <= i < |h.order| ==> h.order[i] in h.nodes) && (forall k :: k in h.nodes ==> k in h.order)
  }

  lemma WellFormedOrder(h: Hierarchy)
    requires WellFormed(h)
    ensures Linked(h) && OrderListed(h)
  {
  }

  /** Folder `k` matches the query and its tree has items: the search must list it. */
  ghost predicate Due(h: Hierarchy, items: seq<WorkItem>, q: string, k: Key) {
    k in h.nodes && TitleMatches(h, k, q) && TreeIdsOf(h, items, k) != {}
  }

  /**
   * The value-stream search: for each folder in insertion order whose title contains the query
   * (both lower-cased), the entry for its tree when that tree has items; nothing for an empty query.
   */
  method SearchValueStreams(h: Hierarchy, items: seq<WorkItem>, q: string) returns (ms: seq<Match>)
    requires Linked(h) && OrderListed(h)
    requires q != "" ==> SearchReady(h, items, q)
    ensures q == "" ==> ms == []
    ensures IsSubseq(MatchNumbers(ms), h.order)
    ensures forall j :: 0 <= j < |ms| ==> MatchFor(h, items, q, ms[j])
    ensures q != "" ==> forall k :: k in h.nodes && TitleMatches(h, k, q) && TreeIdsOf(h, items, k) != {} ==>
                          k in MatchNumbers(ms)
  {
    ms := [];
    if q == "" {
      return;
    }
    for i := 0 to |h.order|
      invariant IsSubseq(MatchNumbers(ms), h.order[..i])
      invariant forall j :: 0 <= j < |ms| ==> MatchFor(h, items, q, ms[j])
      invariant forall j :: 0 <= j < i && Due(h, items, q, h.order[j]) ==> h.order[j] in MatchNumbers(ms)
    {
      var k := h.order[i];
      var r := SearchFolder(h, items, q, k);
      SearchLoopStep(h, items, q, ms, i, r);
      if r.Some? {
        ms := ms + [r.value];
      }
    }
    SearchDone(h, items, q, ms);
  }

  /** One turn of the search loop: the entry of folder `k` when its title matches and its tree has items. */
  method SearchFolder(h: Hierarchy, items: seq<WorkItem>, q: string, k: Key) returns (r: Option<Match>)
    requires Linked(h) && k in h.nodes
    requires TitleMatches(h, k, q) ==> !OnCycle(Parents(h.nodes), k) && (TreeIdsOf(h, items, k) != {} ==> PathEnds(h.nodes, k))
    ensures r.Some? ==> r.value.number == k && MatchFor(h, items, q, r.value)
    ensures r.None? ==> !Due(h, items, q, k)
  {
    r := None;
    if Contains(Lower(h.nodes[k].title), Lower(q)) {
      r := MatchFolder(h, items, q, k);
    }
  }

  /** The search loop's invariants hold again once folder `i`'s entry, if any, is appended. */
  lemma SearchLoopStep(h: Hierarchy, items: seq<WorkItem>, q: string, ms: seq<Match>, i: nat, r: Option<Match>)
    requires i < |h.order|
    requires IsSubseq(MatchNumbers(ms), h.order[..i])
    requires forall j :: 0 <= j < |ms| ==> MatchFor(h, items, q, ms[j])
    requires forall j :: 0 <= j < i && Due(h, items, q, h.order[j]) ==> h.order[j] in MatchNumbers(ms)
    requires r.Some? ==> r.value.number == h.order[i] && MatchFor(h, items, q, r.value)
    requires r.None? ==> !Due(h, items, q, h.order[i])
    ensures var next := if r.Some? then ms + [r.value] else ms;
            && IsSubseq(MatchNumbers(next), h.order[..i + 1])
            && (forall j :: 0 <= j < |next| ==> MatchFor(h, items, q, next[j]))
            && (forall j :: 0 <= j < i + 1 && Due(h, items, q, h.order[j]) ==> h.order[j] in MatchNumbers(next))
  {
    MatchNumbersStep(h.order, ms, i, r);
    MatchesStep(h, items, q, ms, r);
    DueStep(h.order, ms, i, r, k => Due(h, items, q, k));
  }

  lemma MatchNumbersStep(order: seq<Key>, ms: seq<Match>, i: nat, r: Option<Match>)
    requires i < |order| && IsSubseq(MatchNumbers(ms), order[..i])
    requires r.Some? ==> r.value.number == order[i]
    ensures var next := if r.Some? then ms + [r.value] else ms;
            && IsSubseq(MatchNumbers(next), order[..i + 1])
            && (forall j :: 0 <= j < |ms| ==> MatchNumbers(next)[j] == MatchNumbers(ms)[j])
            && (r.Some? ==> MatchNumbers(next)[|ms|] == order[i])
  {
    var next := if r.Some? then ms + [r.value] else ms;
    assert order[..i + 1] == order[..i] + [order[i]];
    if r.Some? {
      SubseqSnoc(MatchNumbers(ms), order[..i], order[i]);
      assert MatchNumbers(next) == MatchNumbers(ms) + [order[i]];
    } else {
      SubseqExtend(MatchNumbers(ms), order[..i], order[i]);
    }
  }

  lemma MatchesStep(h: Hierarchy, items: seq<WorkItem>, q: string, ms: seq<Match>, r: Option<Match>)
    requires forall j :: 0 <= j < |ms| ==> MatchFor(h, items, q, ms[j])
    requires r.Some? ==> MatchFor(h, items, q, r.value)
    ensures var next := if r.Some? then ms + [r.value] else ms;
            forall j :: 0 <= j < |next| ==> MatchFor(h, items, q, next[j])
  {
  }

  /** Appending the entry of folder `order[i]` when it is due keeps every due folder so far listed. */
  lemma DueStep(order: seq<Key>, ms: seq<Match>, i: nat, r: Option<Match>, due: Key -> bool)
    requires i < |order|
    requires forall j :: 0 <= j < i && due(order[j]) ==> order[j] in MatchNumbers(ms)
    requires r.None? ==> !due(order[i])
    requires var next := if r.Some? then ms + [r.value] else ms;
             && (forall j :: 0 <= j < |ms| ==> MatchNumbers(next)[j] == MatchNumbers(ms)[j])
             && (r.Some? ==> MatchNumbers(next)[|ms|] == order[i])
    ensures var next := if r.Some? then ms + [r.value] else ms;
            forall j :: 0 <= j < i + 1 && due(order[j]) ==> order[j] in MatchNumbers(next)
  {
    var next := if r.Some? then ms + [r.value] else ms;
    forall j | 0 <= j < i + 1 && due(order[j]) ensures order[j] in MatchNumbers(next) {
      if j < i {
        var t :| 0 <= t < |ms| && MatchNumbers(ms)[t] == order[j];
        assert MatchNumbers(next)[t] == order[j];
      } else {
        assert MatchNumbers(next)[|ms|] == order[i];
      }
    }
  }

  lemma SearchDone(h: Hierarchy, items: seq<WorkItem>, q: string, ms: seq<Match>)
    requires OrderListed(h) && IsSubseq(MatchNumbers(ms), h.order[..|h.order|])
    requires forall j :: 0 <= j < |h.order| && Due(h, items, q, h.order[j]) ==> h.order[j] in MatchNumbers(ms)
    ensures IsSubseq(MatchNumbers(ms), h.order)
    ensures forall k :: k in h.nodes && TitleMatches(h, k, q) && TreeIdsOf(h, items, k) != {} ==> k in MatchNumbers(ms)
  {
    assert h.order[..|h.order|] == h.order;
    forall k | k in h.nodes && TitleMatches(h, k, q) && TreeIdsOf(h, items, k) != {} ensures k in MatchNumbers(ms) {
      var j :| 0 <= j < |h.order| && h.order[j] == k;
      assert Due(h, items, q, h.order[j]);
    }
  }

  /** The entries of the search name distinct folders. */
  lemma SearchDistinct(h: Hierarchy, ms: seq<Match>)
    requires WellFormed(h) && IsSubseq(MatchNumbers(ms), h.order)
    ensures Distinct(MatchNumbers(ms))
  {
    SubseqDistinct(MatchNumbers(ms), h.order);
  }

  lemma {:induction false} SubseqDistinct(a: seq<Key>, b: seq<Key>)
    requires IsSubseq(a, b) && Distinct(b)
    ensures Distinct(a)
    decreases |b|
  {
    if a != [] {
      if a[0] == b[0] && IsSubseq(a[1..], b[1..]) {
        SubseqDistinct(a[1..], b[1..]);
        SubseqMembers(a[1..], b[1..]);
        forall i | 1 <= i < |a| ensures a[0] != a[i] {
          assert a[i] == a[1..][i - 1];
          var j :| 0 <= j < |b[1..]| && b[1..][j] == a[i];
          assert b[j + 1] == a[i];
        }
        forall i, j | 1 <= i < j < |a| ensures a[i] != a[j] {
          assert a[i] == a[1..][i - 1] && a[j] == a[1..][j - 1];
        }
      } else {
        SubseqDistinct(a, b[1..]);
      }
    }
  }
}
