/**
 * The rows the dashboard works on. A null cell (`NaN`, `None`, `NaT`) is `None`. Timestamps
 * (`date_added`, `completed_at`, `date_updated`, `start_date`) are whole seconds since
 * 1970-01-01 UTC; `likely_estimate` is in whole hours and `time_spent_seconds` in seconds.
 */
module Records {
  import opened Wrappers
  import opened Seqs

  /** A row of the work-item table, with the columns the dashboard's rules read. */
  datatype WorkItem = WorkItem(
    id: int,
    number: string,
    parentNumber: Option<string>,
    rootFolderNumber: Option<string>,
    archived: Option<bool>,
    dateAdded: Option<int>,
    assignee: Option<string>,
    author: Option<string>,
    workTypeId: Option<int>,
    priorityId: Option<int>,
    boardId: Option<int>,
    laneId: Option<int>,
    completedAt: Option<int>,
    dateUpdated: Option<int>,
    likelyEstimate: Option<int>,
    timeSpentSeconds: Option<int>)

  /** A row of the time-entry table. */
  datatype TimeEntry = TimeEntry(
    itemNumber: Option<string>,
    author: Option<string>,
    startDate: Option<int>,
    dateAdded: Option<int>,
    lengthSeconds: int)

  /** The ids of a sequence of items. */
  function Ids(s: seq<WorkItem>): set<int> {
    set x | x in s :: x.id
  }

  lemma IdsSnoc(a: seq<WorkItem>, x: WorkItem)
    ensures Ids(a + [x]) == Ids(a) + {x.id}
  {
    assert forall y :: y in a + [x] <==> y in a || y == x;
  }

  predicate DistinctIds(s: seq<WorkItem>) {
    forall i, j :: 0 <= i < j < |s| ==> s[i].id != s[j].id
  }

  /** Deleting rows keeps ids distinct. */
  lemma {:induction false} SubseqDistinctIds(a: seq<WorkItem>, b: seq<WorkItem>)
    requires IsSubseq(a, b) && DistinctIds(b)
    ensures DistinctIds(a)
    decreases |b|
  {
    if a != [] {
      if a[0] == b[0] && IsSubseq(a[1..], b[1..]) {
        SubseqDistinctIds(a[1..], b[1..]);
        SubseqMembers(a[1..], b[1..]);
        forall i | 1 <= i < |a| ensures a[0].id != a[i].id {
          assert a[i] == a[1..][i - 1];
          var j :| 0 <= j < |b[1..]| && b[1..][j] == a[i];
          assert b[j + 1] == a[i];
        }
        forall i, j | 1 <= i < j < |a| ensures a[i].id != a[j].id {
          assert a[i] == a[1..][i - 1] && a[j] == a[1..][j - 1];
        }
      } else {
        SubseqDistinctIds(a, b[1..]);
      }
    }
  }

  /** `s[j]` is the first item of `s` carrying its id. */
  predicate FirstOfId(s: seq<WorkItem>, j: int) {
    0 <= j < |s| && forall k :: 0 <= k < j ==> s[k].id != s[j].id
  }

  /** The index of the first row of `s` carrying `id`, or `|s|` when no row does. */
  function FirstIndex(s: seq<WorkItem>, id: int): (r: nat)
    ensures r <= |s|
    ensures r < |s| <==> id in Ids(s)
    ensures r < |s| ==> FirstOfId(s, r) && s[r].id == id
    decreases |s|
  {
    if s == [] then 0
    else
      var n := |s| - 1;
      var r := FirstIndex(s[..n], id);
      assert s == s[..n] + [s[n]];
      IdsSnoc(s[..n], s[n]);
      if r < n then
        assert forall k :: 0 <= k < r ==> s[k] == s[..n][k];
        r
      else if s[n].id == id then
        assert forall k :: 0 <= k < n ==> s[..n][k] in s[..n];
        n
      else |s|
  }

  /** The ids of `r` come in the order in which they first occur in `s`. */
  predicate FirstsInOrder(r: seq<WorkItem>, s: seq<WorkItem>) {
    forall i, j :: 0 <= i < j < |r| ==> FirstIndex(s, r[i].id) < FirstIndex(s, r[j].id)
  }

  /**
   * `drop_duplicates(subset=['id'])`: keeps the first item of each id, in the rows' order.
   */
  function DedupeIds(s: seq<WorkItem>): (r: seq<WorkItem>)
    ensures DistinctIds(r)
    ensures Ids(r) == Ids(s)
    ensures forall i :: 0 <= i < |r| ==> exists j :: FirstOfId(s, j) && s[j] == r[i]
    ensures IsSubseq(r, s)
    ensures FirstsInOrder(r, s)
    decreases |s|
  {
    if s == [] then []
    else
      var n := |s| - 1;
      var rest := DedupeIds(s[..n]);
      DedupeIdsStep(s, rest);
      DedupeFirstStep(s, s[..n], rest);
      DedupeOrderStep(s, rest);
      DedupeFirstsStep(s, rest);
      if s[n].id in Ids(rest) then rest else rest + [s[n]]
  }

  /** Keeping the last row only when its id is new keeps ids distinct and the id set complete. */
  lemma DedupeIdsStep(s: seq<WorkItem>, rest: seq<WorkItem>)
    requires s != [] && DistinctIds(rest) && Ids(rest) == Ids(s[..|s| - 1])
    ensures var x := s[|s| - 1];
            var r := if x.id in Ids(rest) then rest else rest + [x];
            DistinctIds(r) && Ids(r) == Ids(s)
  {
    var n := |s| - 1;
    assert s == s[..n] + [s[n]];
    IdsSnoc(s[..n], s[n]);
    IdsSnoc(rest, s[n]);
    if s[n].id !in Ids(rest) {
      assert forall i :: 0 <= i < |rest| ==> rest[i].id in Ids(rest);
    }
  }

  /** Every kept row is the first row of its id. */
  lemma DedupeFirstStep(s: seq<WorkItem>, p: seq<WorkItem>, rest: seq<WorkItem>)
    requires s != [] && p == s[..|s| - 1] && Ids(rest) == Ids(p)
    requires forall i :: 0 <= i < |rest| ==> exists j :: FirstOfId(p, j) && p[j] == rest[i]
    ensures var x := s[|s| - 1];
            var r := if x.id in Ids(rest) then rest else rest + [x];
            forall i :: 0 <= i < |r| ==> exists j :: FirstOfId(s, j) && s[j] == r[i]
  {
    var n := |s| - 1;
    forall j | FirstOfId(p, j) ensures FirstOfId(s, j) && s[j] == p[j] {
      assert forall k :: 0 <= k < j ==> s[k] == p[k];
    }
    if s[n].id !in Ids(rest) {
      forall k | 0 <= k < n ensures s[k].id != s[n].id {
        assert p[k] in p;
      }
      assert FirstOfId(s, n);
    }
  }

  /** Appending the last row, or skipping it, keeps the de-duplicated rows in the rows' order. */
  lemma DedupeOrderStep(s: seq<WorkItem>, rest: seq<WorkItem>)
    requires s != [] && IsSubseq(rest, s[..|s| - 1])
    ensures IsSubseq(rest, s) && IsSubseq(rest + [s[|s| - 1]], s)
  {
    var n := |s| - 1;
    assert s == s[..n] + [s[n]];
    SubseqExtend(rest, s[..n], s[n]);
    SubseqSnoc(rest, s[..n], s[n]);
  }

  /** Keeping the last row only when its id is new keeps the ids in first-occurrence order. */
  lemma DedupeFirstsStep(s: seq<WorkItem>, rest: seq<WorkItem>)
    requires s != [] && Ids(rest) == Ids(s[..|s| - 1]) && FirstsInOrder(rest, s[..|s| - 1])
    ensures var x := s[|s| - 1];
            var r := if x.id in Ids(rest) then rest else rest + [x];
            FirstsInOrder(r, s)
  {
    var n := |s| - 1;
    var x := s[n];
    assert forall i :: 0 <= i < |rest| ==> rest[i].id in Ids(rest);
    assert forall i :: 0 <= i < |rest| ==> FirstIndex(s, rest[i].id) == FirstIndex(s[..n], rest[i].id);
    if x.id !in Ids(rest) {
      var r := rest + [x];
      assert FirstIndex(s, x.id) == n;
      forall i, j | 0 <= i < j < |r| ensures FirstIndex(s, r[i].id) < FirstIndex(s, r[j].id) {
        assert r[i] == rest[i];
        if j < |rest| {
          assert r[j] == rest[j];
        }
      }
    }
  }

  /** A row repeated after another id is dropped, and the first occurrences keep their order. */
  lemma DedupeRepeatedRow(a: WorkItem, b: WorkItem)
    requires a.id != b.id
    ensures DedupeIds([a, b, a]) == [a, b]
  {
    assert [a][..0] == [];
    assert DedupeIds([a]) == [a];
    assert [a, b][..1] == [a];
    assert b.id !in Ids([a]);
    assert DedupeIds([a, b]) == [a, b];
    assert [a, b, a][..2] == [a, b];
    assert a.id in Ids([a, b]);
  }

  /** On items whose ids are already distinct, de-duplication changes nothing. */
  lemma {:induction false} DedupeDistinct(s: seq<WorkItem>)
    requires DistinctIds(s)
    ensures DedupeIds(s) == s
    decreases |s|
  {
    if s != [] {
      var n := |s| - 1;
      var p := s[..n];
      assert s == p + [s[n]];
      assert DistinctIds(p) by {
        forall i, j | 0 <= i < j < |p| ensures p[i].id != p[j].id {
          assert p[i] == s[i] && p[j] == s[j];
        }
      }
      DedupeDistinct(p);
      assert s[n].id !in Ids(p) by {
        forall k | 0 <= k < n ensures p[k].id != s[n].id {
          assert p[k] == s[k];
        }
      }
    }
  }

  /** The concatenation of a list of frames, as `pd.concat` does it. */
  function Concat(parts: seq<seq<WorkItem>>): seq<WorkItem>
    decreases |parts|
  {
    if parts == [] then [] else Concat(parts[..|parts| - 1]) + parts[|parts| - 1]
  }
}
