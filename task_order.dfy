/**
 * The ordering ListAsync applies to the rows it reads (Services/TasksService.cs):
 * active tasks by creation time then id, ascending, followed by completed
 * tasks by completion time then id, descending. LINQ's OrderBy/ThenBy is a
 * stable sort; here it is a stable insertion sort.
 */
module TaskOrder {
  import opened Wrappers
  import opened Data

  /** The two halves of a listing. */
  datatype Segment = ActiveSegment | CompletedSegment

  /** The order LINQ gives nullable timestamps: null sorts below every value. */
  predicate EarlierInstant(a: Option<Instant>, b: Option<Instant>) {
    (a.None? && b.Some?) || (a.Some? && b.Some? && a.value < b.value)
  }

  /**
   * Within a segment, `a` goes strictly before `b`: the segment's timestamp
   * decides, and the id only breaks a tie. No row goes before itself.
   */
  predicate Precedes(seg: Segment, a: TaskRow, b: TaskRow): (r: bool)
    ensures r ==> a != b
    ensures seg == ActiveSegment && a.createdAt != b.createdAt ==> (r <==> a.createdAt < b.createdAt)
    ensures seg == ActiveSegment && a.createdAt == b.createdAt ==> (r <==> a.id < b.id)
    ensures seg == CompletedSegment && a.completedAt != b.completedAt ==> (r <==> EarlierInstant(b.completedAt, a.completedAt))
    ensures seg == CompletedSegment && a.completedAt == b.completedAt ==> (r <==> a.id > b.id)
  {
    match seg
    case ActiveSegment => a.createdAt < b.createdAt || (a.createdAt == b.createdAt && a.id < b.id)
    case CompletedSegment => EarlierInstant(b.completedAt, a.completedAt) || (a.completedAt == b.completedAt && a.id > b.id)
  }

  /** No element goes strictly before one to its left. */
  predicate SortedIn(seg: Segment, s: seq<TaskRow>) {
    forall i, j :: 0 <= i < j < |s| ==> !Precedes(seg, s[j], s[i])
  }

  lemma PrecedesAsymmetric(seg: Segment, a: TaskRow, b: TaskRow)
    requires Precedes(seg, a, b)
    ensures !Precedes(seg, b, a)
  {
  }

  /** "Not after" is transitive: the keys form a total preorder. */
  lemma NotAfterTransitive(seg: Segment, a: TaskRow, b: TaskRow, c: TaskRow)
    requires !Precedes(seg, b, a) && !Precedes(seg, c, b)
    ensures !Precedes(seg, c, a)
  {
  }

  /** Rows with different ids are always ordered one way or the other. */
  lemma PrecedesTotal(seg: Segment, a: TaskRow, b: TaskRow)
    requires a.id != b.id
    ensures Precedes(seg, a, b) || Precedes(seg, b, a)
  {
  }

  /** Inserts `x` before the first element it does not follow, so that it stays ahead of equal keys. */
  function Insert(seg: Segment, x: TaskRow, s: seq<TaskRow>): (r: seq<TaskRow>)
    ensures multiset(r) == multiset(s) + multiset{x}
  {
    if s == [] then [x]
    else if Precedes(seg, s[0], x) then
      assert s == [s[0]] + s[1..];
      [s[0]] + Insert(seg, x, s[1..])
    else [x] + s
  }

  lemma {:induction false} InsertSorted(seg: Segment, x: TaskRow, s: seq<TaskRow>)
    requires SortedIn(seg, s)
    ensures SortedIn(seg, Insert(seg, x, s))
  {
    if s != [] {
      if Precedes(seg, s[0], x) {
        var t := Insert(seg, x, s[1..]);
        InsertSorted(seg, x, s[1..]);
        forall j | 0 <= j < |t| ensures !Precedes(seg, t[j], s[0]) {
          assert t[j] in multiset(t);
          if t[j] == x {
            PrecedesAsymmetric(seg, s[0], x);
          } else {
            assert t[j] in multiset(s[1..]);
            var k :| 0 <= k < |s[1..]| && s[1..][k] == t[j];
            assert s[k + 1] == t[j];
          }
        }
        assert Insert(seg, x, s) == [s[0]] + t;
      } else {
        forall j | 0 <= j < |s| ensures !Precedes(seg, s[j], x) {
          if j > 0 { NotAfterTransitive(seg, x, s[0], s[j]); }
        }
      }
    }
  }

  /** OrderBy(key).ThenBy(id) for one segment: a sorted permutation of `s`. */
  function SortBy(seg: Segment, s: seq<TaskRow>): (r: seq<TaskRow>)
    ensures multiset(r) == multiset(s)
    ensures SortedIn(seg, r)
  {
    if s == [] then []
    else
      var rest := SortBy(seg, s[1..]);
      InsertSorted(seg, s[0], rest);
      assert s == [s[0]] + s[1..];
      Insert(seg, s[0], rest)
  }

  /** Where(t => t.IsCompleted == completed): exactly the rows of that completion state. */
  function Select(completed: bool, s: seq<TaskRow>): (r: seq<TaskRow>)
    ensures forall x :: multiset(r)[x] == if x.isCompleted == completed then multiset(s)[x] else 0
  {
    if s == [] then []
    else
      assert s == [s[0]] + s[1..];
      (if s[0].isCompleted == completed then [s[0]] else []) + Select(completed, s[1..])
  }

  /** ListAsync's answer for the rows the store returned, in whatever order it returned them. */
  function OrderTasks(rows: seq<TaskRow>): (r: seq<TaskRow>)
    ensures multiset(r) == multiset(rows)
    ensures forall i, j :: 0 <= i < j < |r| && r[i].isCompleted ==> r[j].isCompleted
    ensures forall i, j :: 0 <= i < j < |r| && !r[j].isCompleted ==> !Precedes(ActiveSegment, r[j], r[i])
    ensures forall i, j :: 0 <= i < j < |r| && r[i].isCompleted ==> !Precedes(CompletedSegment, r[j], r[i])
  {
    var active := SortBy(ActiveSegment, Select(false, rows));
    var completed := SortBy(CompletedSegment, Select(true, rows));
    SelectPartitions(rows);
    SortedSelection(ActiveSegment, false, rows);
    SortedSelection(CompletedSegment, true, rows);
    SegmentsConcatenated(active, completed);
    active + completed
  }

  lemma SelectPartitions(rows: seq<TaskRow>)
    ensures multiset(Select(false, rows)) + multiset(Select(true, rows)) == multiset(rows)
  {
    var a, c := Select(false, rows), Select(true, rows);
    assert forall x :: (multiset(a) + multiset(c))[x] == multiset(rows)[x];
  }

  lemma SortedSelection(seg: Segment, completed: bool, rows: seq<TaskRow>)
    ensures forall i :: 0 <= i < |SortBy(seg, Select(completed, rows))| ==>
      SortBy(seg, Select(completed, rows))[i].isCompleted == completed
  {
    var r := SortBy(seg, Select(completed, rows));
    forall i | 0 <= i < |r| ensures r[i].isCompleted == completed {
      assert r[i] in multiset(r);
    }
  }

  lemma SegmentsConcatenated(active: seq<TaskRow>, completed: seq<TaskRow>)
    requires forall i :: 0 <= i < |active| ==> !active[i].isCompleted
    requires forall i :: 0 <= i < |completed| ==> completed[i].isCompleted
    requires SortedIn(ActiveSegment, active) && SortedIn(CompletedSegment, completed)
    ensures var r := active + completed;
      && (forall i, j :: 0 <= i < j < |r| && r[i].isCompleted ==> r[j].isCompleted)
      && (forall i, j :: 0 <= i < j < |r| && !r[j].isCompleted ==> !Precedes(ActiveSegment, r[j], r[i]))
      && (forall i, j :: 0 <= i < j < |r| && r[i].isCompleted ==> !Precedes(CompletedSegment, r[j], r[i]))
  {
    var r := active + completed;
    var n := |active|;
    assert forall i :: 0 <= i < |r| ==> (r[i].isCompleted <==> i >= n) by {
      forall i | 0 <= i < |r| ensures r[i].isCompleted <==> i >= n {
        if i < n { assert r[i] == active[i]; } else { assert r[i] == completed[i - n]; }
      }
    }
    forall i, j | 0 <= i < j < |r| && !r[j].isCompleted ensures !Precedes(ActiveSegment, r[j], r[i]) {
      assert r[i] == active[i] && r[j] == active[j];
    }
    forall i, j | 0 <= i < j < |r| && r[i].isCompleted ensures !Precedes(CompletedSegment, r[j], r[i]) {
      assert r[i] == completed[i - n] && r[j] == completed[j - n];
    }
  }

  /** The listing order on whole rows: active before completed, then the segment's own order. */
  predicate ListedBefore(a: TaskRow, b: TaskRow) {
    (!a.isCompleted && b.isCompleted) ||
    (a.isCompleted == b.isCompleted && Precedes(if a.isCompleted then CompletedSegment else ActiveSegment, a, b))
  }

  predicate StrictlyListed(s: seq<TaskRow>) {
    forall i, j :: 0 <= i < j < |s| ==> ListedBefore(s[i], s[j])
  }

  /** No two rows share an id, and no row occurs twice. */
  ghost predicate UniqueIds(s: seq<TaskRow>) {
    (forall x, y :: x in s && y in s && x.id == y.id ==> x == y) &&
    (forall x :: multiset(s)[x] <= 1)
  }

  lemma TwiceCounted(s: seq<TaskRow>, i: int, j: int)
    requires 0 <= i < j < |s| && s[i] == s[j]
    ensures multiset(s)[s[i]] >= 2
  {
    assert s == s[..j] + [s[j]] + s[j + 1..];
    assert s[..j][i] == s[i];
    assert s[i] in multiset(s[..j]);
  }

  /** With unique ids the listing is strictly ordered: the order is total on the rows. */
  lemma OrderTasksStrict(rows: seq<TaskRow>)
    requires UniqueIds(rows)
    ensures StrictlyListed(OrderTasks(rows))
  {
    var r := OrderTasks(rows);
    forall i, j | 0 <= i < j < |r| ensures ListedBefore(r[i], r[j]) {
      if r[i] == r[j] {
        TwiceCounted(r, i, j);
        assert false;
      }
      assert r[i] in multiset(rows) && r[j] in multiset(rows);
      assert r[i].id != r[j].id;
      PrecedesTotal(if r[i].isCompleted then CompletedSegment else ActiveSegment, r[i], r[j]);
    }
  }

  lemma ListedBeforeAsymmetric(a: TaskRow, b: TaskRow)
    requires ListedBefore(a, b)
    ensures !ListedBefore(b, a) && a != b
  {
  }

  /** Two strictly ordered sequences of the same rows start with the same row. */
  lemma HeadsAgree(a: seq<TaskRow>, b: seq<TaskRow>)
    requires StrictlyListed(a) && StrictlyListed(b) && a != []
    requires forall x :: x in a <==> x in b
    ensures b != [] && a[0] == b[0]
  {
    assert a[0] in a;
    var j :| 0 <= j < |b| && b[j] == a[0];
    assert b[0] in b;
    var i :| 0 <= i < |a| && a[i] == b[0];
    if j > 0 {
      assert ListedBefore(b[0], b[j]);
      if i > 0 {
        assert ListedBefore(a[0], a[i]);
        ListedBeforeAsymmetric(a[0], a[i]);
      }
    }
  }

  /** ... and so their tails hold the same rows. */
  lemma TailsAgree(a: seq<TaskRow>, b: seq<TaskRow>)
    requires StrictlyListed(a) && StrictlyListed(b) && a != [] && b != [] && a[0] == b[0]
    requires forall x :: x in a <==> x in b
    ensures forall x :: x in a[1..] <==> x in b[1..]
  {
    forall x ensures x in a[1..] ==> x in b[1..] {
      if x in a[1..] {
        var k :| 0 <= k < |a[1..]| && a[1..][k] == x;
        assert a[k + 1] == x && x in a && x in b;
        assert ListedBefore(a[0], a[k + 1]);
        ListedBeforeAsymmetric(a[0], x);
        var m :| 0 <= m < |b| && b[m] == x;
        assert b[1..][m - 1] == x;
      }
    }
    forall x ensures x in b[1..] ==> x in a[1..] {
      if x in b[1..] {
        var k :| 0 <= k < |b[1..]| && b[1..][k] == x;
        assert b[k + 1] == x && x in b && x in a;
        assert ListedBefore(b[0], b[k + 1]);
        ListedBeforeAsymmetric(b[0], x);
        var m :| 0 <= m < |a| && a[m] == x;
        assert a[1..][m - 1] == x;
      }
    }
  }

  /** A listing already in display order, with unique ids, is what OrderTasks returns for it. */
  lemma OrderOfOrdered(rows: seq<TaskRow>)
    requires UniqueIds(rows) && StrictlyListed(rows)
    ensures OrderTasks(rows) == rows
  {
    var r := OrderTasks(rows);
    OrderTasksStrict(rows);
    forall x ensures x in r <==> x in rows {
      assert x in r <==> x in multiset(r);
      assert x in rows <==> x in multiset(rows);
    }
    StrictlyListedUnique(r, rows);
  }

  /** Two strictly ordered sequences of the same rows are the same sequence. */
  lemma {:induction false} StrictlyListedUnique(a: seq<TaskRow>, b: seq<TaskRow>)
    requires StrictlyListed(a) && StrictlyListed(b)
    requires forall x :: x in a <==> x in b
    ensures a == b
  {
    if a != [] {
      HeadsAgree(a, b);
      TailsAgree(a, b);
      StrictlyListedUnique(a[1..], b[1..]);
      assert a == [a[0]] + a[1..] && b == [b[0]] + b[1..];
    } else if b != [] {
      HeadsAgree(b, a);
      assert false;
    }
  }

  /**
   * Once ids are unique, the listing does not depend on the order in which the
   * store returned the rows.
   */
  lemma OrderIndependentOfEnumeration(xs: seq<TaskRow>, ys: seq<TaskRow>)
    requires multiset(xs) == multiset(ys) && UniqueIds(xs)
    ensures OrderTasks(xs) == OrderTasks(ys)
  {
    assert forall x :: x in xs <==> x in ys by {
      forall x ensures x in xs <==> x in ys {
        assert x in xs <==> x in multiset(xs);
        assert x in ys <==> x in multiset(ys);
      }
    }
    assert UniqueIds(ys);
    OrderTasksStrict(xs);
    OrderTasksStrict(ys);
    var a, b := OrderTasks(xs), OrderTasks(ys);
    forall x ensures x in a <==> x in b {
      assert x in a <==> x in multiset(a);
      assert x in b <==> x in multiset(b);
    }
    StrictlyListedUnique(a, b);
  }
}
