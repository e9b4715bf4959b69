/**
 * `get_folder_path(folder_number, folder_dict)`: the titles met while walking parent pointers
 * upwards from a folder, joined root-first with " > ".
 */
module FolderPaths {
  import opened Wrappers
  import opened Folders

  /** The loop guard `current and current in folder_dict`: a non-empty number that is a folder. */
  predicate Live(nodes: map<Key, FolderNode>, cur: Option<Key>) {
    cur.Some? && cur.value != "" && cur.value in nodes
  }

  /** Where the walk from `start` stands after `n` steps; a walk that has stopped stays put. */
  function Iterate(nodes: map<Key, FolderNode>, start: Option<Key>, n: nat): Option<Key> {
    if n == 0 then start
    else
      var cur := Iterate(nodes, start, n - 1);
      if Live(nodes, cur) then nodes[cur.value].parent else cur
  }

  /** The list `path` after `n` steps: each step puts the current title in front. */
  function TitlesUp(nodes: map<Key, FolderNode>, start: Option<Key>, n: nat): seq<string> {
    if n == 0 then []
    else
      var cur := Iterate(nodes, start, n - 1);
      if Live(nodes, cur) then [nodes[cur.value].title] + TitlesUp(nodes, start, n - 1)
      else TitlesUp(nodes, start, n - 1)
  }

  /** `' > '.join(xs)`. */
  function JoinPath(xs: seq<string>): string {
    if |xs| == 0 then ""
    else if |xs| == 1 then xs[0]
    else xs[0] + " > " + JoinPath(xs[1..])
  }

  /** The walk from `f` stops after finitely many steps: `f` is not on or below a parent cycle. */
  ghost predicate PathEnds(nodes: map<Key, FolderNode>, f: Key) {
    exists n: nat :: !Live(nodes, Iterate(nodes, Some(f), n))
  }

  /** The titles of a sequence of folders, in order. */
  function Titles(nodes: map<Key, FolderNode>, t: seq<Key>): (r: seq<string>)
    requires forall i :: 0 <= i < |t| ==> t[i] in nodes
    ensures |r| == |t| && forall i :: 0 <= i < |t| ==> r[i] == nodes[t[i]].title
  {
    if t == [] then [] else Titles(nodes, t[..|t| - 1]) + [nodes[t[|t| - 1]].title]
  }

  // ---------------------------------------------------------------------------
  // The walk once stopped
  // ---------------------------------------------------------------------------

  lemma {:induction false} Stopped(nodes: map<Key, FolderNode>, start: Option<Key>, m: nat, m': nat)
    requires !Live(nodes, Iterate(nodes, start, m)) && m <= m'
    ensures Iterate(nodes, start, m') == Iterate(nodes, start, m)
    ensures TitlesUp(nodes, start, m') == TitlesUp(nodes, start, m)
    decreases m' - m
  {
    if m' > m {
      Stopped(nodes, start, m, m' - 1);
    }
  }

  /** Walking `n + 1` steps from a live folder is one step to its parent and `n` more from there. */
  lemma {:induction false} Shift(nodes: map<Key, FolderNode>, f: Key, n: nat)
    requires Live(nodes, Some(f))
    ensures Iterate(nodes, Some(f), n + 1) == Iterate(nodes, nodes[f].parent, n)
    ensures TitlesUp(nodes, Some(f), n + 1) == TitlesUp(nodes, nodes[f].parent, n) + [nodes[f].title]
  {
    if n > 0 {
      Shift(nodes, f, n - 1);
    }
  }

  lemma {:induction false} JoinSnoc(xs: seq<string>, x: string)
    requires xs != []
    ensures JoinPath(xs + [x]) == JoinPath(xs) + " > " + x
    decreases |xs|
  {
    if |xs| == 1 {
      assert (xs + [x])[1..] == [x];
    } else {
      assert (xs + [x])[1..] == xs[1..] + [x];
      JoinSnoc(xs[1..], x);
    }
  }

  // ---------------------------------------------------------------------------
  // get_folder_path
  // ---------------------------------------------------------------------------

  /**
   * The `while` loop of `get_folder_path`. It has no visited set: on a parent cycle it never stops,
   * so callers must pass a folder whose walk ends.
   */
  method FolderPath(nodes: map<Key, FolderNode>, f: Key) returns (r: string)
    requires PathEnds(nodes, f)
    ensures forall n: nat :: !Live(nodes, Iterate(nodes, Some(f), n)) ==> r == JoinPath(TitlesUp(nodes, Some(f), n))
  {
    ghost var n: nat :| !Live(nodes, Iterate(nodes, Some(f), n));
    var path: seq<string> := [];
    var cur: Option<Key> := Some(f);
    ghost var steps: nat := 0;
    while cur.Some? && cur.value != "" && cur.value in nodes
      invariant cur == Iterate(nodes, Some(f), steps)
      invariant path == TitlesUp(nodes, Some(f), steps)
      invariant steps <= n
      decreases n - steps
    {
      if steps == n {
        assert false;
      }
      path := [nodes[cur.value].title] + path;
      var parent := nodes[cur.value].parent;
      steps := steps + 1;
      if parent.None? {
        assert !Live(nodes, Iterate(nodes, Some(f), steps));
        break;
      }
      cur := parent;
    }
    r := JoinPath(path);
    assert !Live(nodes, Iterate(nodes, Some(f), steps));
    forall m: nat | !Live(nodes, Iterate(nodes, Some(f), m)) ensures r == JoinPath(TitlesUp(nodes, Some(f), m)) {
      if m <= steps {
        Stopped(nodes, Some(f), m, steps);
      } else {
        Stopped(nodes, Some(f), steps, m);
      }
    }
  }

  // ---------------------------------------------------------------------------
  // What the path is
  // ---------------------------------------------------------------------------

  /** A number that is empty or not a folder has the empty path. */
  lemma NotAFolderPath(nodes: map<Key, FolderNode>, f: Key, n: nat)
    requires f == "" || f !in nodes
    ensures !Live(nodes, Iterate(nodes, Some(f), n)) && TitlesUp(nodes, Some(f), n) == []
  {
    Stopped(nodes, Some(f), 0, n);
  }

  /**
   * The path of a folder whose parent is a live folder is the parent's path, " > ", and the folder's
   * own title; when the parent is missing, empty or not a folder it is the title alone.
   */
  lemma PathStep(nodes: map<Key, FolderNode>, f: Key, n: nat)
    requires Live(nodes, Some(f)) && !Live(nodes, Iterate(nodes, nodes[f].parent, n))
    ensures !Live(nodes, Iterate(nodes, Some(f), n + 1))
    ensures var above := TitlesUp(nodes, nodes[f].parent, n);
            JoinPath(TitlesUp(nodes, Some(f), n + 1)) ==
              if above == [] then nodes[f].title else JoinPath(above) + " > " + nodes[f].title
  {
    Shift(nodes, f, n);
    var above := TitlesUp(nodes, nodes[f].parent, n);
    if above != [] {
      JoinSnoc(above, nodes[f].title);
    }
  }

  /** A folder with no parent has its own title as its path. */
  lemma TopLevelPath(nodes: map<Key, FolderNode>, f: Key)
    requires Live(nodes, Some(f)) && nodes[f].parent.None?
    ensures !Live(nodes, Iterate(nodes, Some(f), 1))
    ensures JoinPath(TitlesUp(nodes, Some(f), 1)) == nodes[f].title
  {
  }

  /**
   * In a built hierarchy, the path of a folder that a root reaches through non-empty numbers is the
   * titles of its root chain, root first; in particular its walk ends.
   */
  lemma {:induction false} ChainPath(nodes: map<Key, FolderNode>, t: seq<Key>)
    requires IsChain(Parents(nodes), t)
    requires forall i :: 0 <= i < |t| ==> t[i] != ""
    ensures forall i :: 0 <= i < |t| ==> t[i] in nodes
    ensures !Live(nodes, Iterate(nodes, Some(t[|t| - 1]), |t|))
    ensures TitlesUp(nodes, Some(t[|t| - 1]), |t|) == Titles(nodes, t)
    decreases |t|
  {
    var f := t[|t| - 1];
    var parents := Parents(nodes);
    if |t| == 1 {
      assert !Live(nodes, nodes[f].parent);
      Shift(nodes, f, 0);
    } else {
      var up := t[..|t| - 1];
      ChainPrefix(parents, t, |t| - 1);
      ChainPath(nodes, up);
      assert nodes[f].parent == Some(up[|up| - 1]);
      Shift(nodes, f, |up|);
    }
  }

  /**
   * Every folder a root reaches has a path that ends: the walk stops at the root, or earlier at an
   * empty number.
   */
  lemma {:induction false} ChainPathEnds(nodes: map<Key, FolderNode>, t: seq<Key>)
    requires IsChain(Parents(nodes), t)
    ensures PathEnds(nodes, t[|t| - 1])
    decreases |t|
  {
    var f := t[|t| - 1];
    if f == "" {
      assert !Live(nodes, Iterate(nodes, Some(f), 0));
    } else if |t| == 1 {
      assert !Live(nodes, Iterate(nodes, Some(f), 1));
    } else {
      var up := t[..|t| - 1];
      ChainPrefix(Parents(nodes), t, |t| - 1);
      ChainPathEnds(nodes, up);
      var n: nat :| !Live(nodes, Iterate(nodes, Some(up[|up| - 1]), n));
      Shift(nodes, f, n);
      assert !Live(nodes, Iterate(nodes, Some(f), n + 1));
    }
  }
}
