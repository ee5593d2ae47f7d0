/**
 The task-board pull: the recursive query that marks an employee's candidates in stopped trees, and the pick among the
 rest. `createdAt` is the rank of the creation timestamp in the text order the query sorts by.
 */
module TaskBoard {
  import opened Wrappers

  const MAX_DEPTH: nat := 64

  datatype Task = Task(
    assignedTo: string, status: string, priority: Option<string>, createdAt: int,
    goalMode: Option<int>, kind: Option<string>, parentTaskId: Option<string>)

  /** The tasks table, by primary key. */
  type Tasks = map<string, Task>

  // ---------- ancestry ----------

  /** The id `k` parent hops above `id`: a hop needs the row it starts from. */
  function Ancestor(tasks: Tasks, id: string, k: nat): Option<string>
  {
    if k == 0 then Some(id)
    else
      var below := Ancestor(tasks, id, k - 1);
      if below.Some? && below.value in tasks then tasks[below.value].parentTaskId else None
  }

  /** A row or one of its ancestors within 64 hops is the root of a stop request. */
  ghost predicate InStoppedTree(tasks: Tasks, stops: set<string>, id: string)
  {
    exists k: nat :: k <= MAX_DEPTH && StoppedAt(tasks, stops, id, k)
  }

  predicate StoppedAt(tasks: Tasks, stops: set<string>, id: string, k: nat)
  {
    var a := Ancestor(tasks, id, k);
    a.Some? && a.value in stops
  }

  lemma {:induction false} SameAbove(tasks: Tasks, id: string, i: nat, j: nat, d: nat)
    requires Ancestor(tasks, id, i) == Ancestor(tasks, id, j)
    ensures Ancestor(tasks, id, i + d) == Ancestor(tasks, id, j + d)
  {
    if d > 0 {
      SameAbove(tasks, id, i, j, d - 1);
    }
  }

  lemma {:induction false} NothingAbove(tasks: Tasks, id: string, i: nat, n: nat)
    requires Ancestor(tasks, id, i) == None && i <= n
    ensures Ancestor(tasks, id, n) == None
    decreases n
  {
    if i < n {
      NothingAbove(tasks, id, i, n - 1);
    }
  }

  /** The chain above `id` ends, or comes back to a task it has been at, within the limit of the walk. */
  predicate WalkCovers(tasks: Tasks, id: string)
  {
    Ancestor(tasks, id, MAX_DEPTH + 1).None?
    || exists i: nat, j: nat | i < j <= MAX_DEPTH + 1 :: Ancestor(tasks, id, i) == Ancestor(tasks, id, j)
  }

  /** For such a chain, cyclic or not, the limit hides nothing: a stop at any distance is seen. */
  lemma {:induction false} LimitHidesNothing(tasks: Tasks, stops: set<string>, id: string, n: nat)
    requires WalkCovers(tasks, id) && StoppedAt(tasks, stops, id, n)
    ensures InStoppedTree(tasks, stops, id)
    decreases n
  {
    if n > MAX_DEPTH {
      if Ancestor(tasks, id, MAX_DEPTH + 1).None? {
        NothingAbove(tasks, id, MAX_DEPTH + 1, n);
      } else {
        var i: nat, j: nat :| i < j <= MAX_DEPTH + 1 && Ancestor(tasks, id, i) == Ancestor(tasks, id, j);
        SameAbove(tasks, id, i, j, n - j);
        LimitHidesNothing(tasks, stops, id, i + (n - j));
      }
    }
  }

  /** A stop that is the only one above a row counts exactly up to 64 hops. */
  lemma OnlyStopSeen(tasks: Tasks, stops: set<string>, id: string, n: nat)
    requires StoppedAt(tasks, stops, id, n) && forall k: nat :: StoppedAt(tasks, stops, id, k) ==> k == n
    ensures InStoppedTree(tasks, stops, id) <==> n <= 64
  {
  }

  // ---------- the recursive query ----------

  /** A row of `hb_anc`. */
  datatype Row = Row(cid: string, id: string, depth: nat)

  predicate Parented(tasks: Tasks, row: Row)
  {
    row.depth < MAX_DEPTH && row.id in tasks && tasks[row.id].parentTaskId.Some?
  }

  function Up(tasks: Tasks, row: Row): Row
    requires Parented(tasks, row)
  {
    Row(row.cid, tasks[row.id].parentTaskId.value, row.depth + 1)
  }

  /** The rows the query is meant to produce. */
  predicate IsAncestorRow(tasks: Tasks, candidates: set<string>, row: Row)
  {
    row.cid in candidates && row.depth <= MAX_DEPTH && Ancestor(tasks, row.cid, row.depth) == Some(row.id)
  }

  /** Every candidate starts a chain among `rows`, and every chain goes on. */
  ghost predicate Closed(tasks: Tasks, candidates: set<string>, rows: set<Row>, queue: seq<Row>)
  {
    && (forall c | c in candidates :: Row(c, c, 0) in rows || Row(c, c, 0) in queue)
    && (forall row | row in rows && Parented(tasks, row) :: Up(tasks, row) in rows || Up(tasks, row) in queue)
  }

  lemma {:induction false} ClosedIsComplete(tasks: Tasks, candidates: set<string>, rows: set<Row>, row: Row)
    requires Closed(tasks, candidates, rows, []) && IsAncestorRow(tasks, candidates, row)
    ensures row in rows
    decreases row.depth
  {
    if row.depth == 0 {
      assert row == Row(row.cid, row.cid, 0);
    } else {
      var below := Row(row.cid, Ancestor(tasks, row.cid, row.depth - 1).value, row.depth - 1);
      ClosedIsComplete(tasks, candidates, rows, below);
      assert Up(tasks, below) == row;
    }
  }

  /** How many rows the queued ones can still lead to. */
  function Weight(queue: seq<Row>): nat
  {
    if queue == [] then 0
    else Weight(queue[..|queue| - 1]) + WeightOf(queue[|queue| - 1])
  }

  function WeightOf(row: Row): nat
  {
    if row.depth > MAX_DEPTH then 1 else MAX_DEPTH + 1 - row.depth
  }

  lemma {:induction false} WeightSplits(first: Row, rest: seq<Row>)
    ensures Weight([first] + rest) == WeightOf(first) + Weight(rest)
  {
    var q := [first] + rest;
    if rest == [] {
      assert q == [first] && q[..0] == [];
    } else {
      var n := |rest| - 1;
      WeightSplits(first, rest[..n]);
      assert q[..|q| - 1] == [first] + rest[..n];
    }
  }

  lemma ClosedStep(tasks: Tasks, candidates: set<string>, rows: set<Row>, row: Row, rest: seq<Row>)
    requires Closed(tasks, candidates, rows, [row] + rest)
    ensures Closed(tasks, candidates, rows + {row}, rest + if Parented(tasks, row) then [Up(tasks, row)] else [])
  {
    var queue := rest + if Parented(tasks, row) then [Up(tasks, row)] else [];
    assert forall x :: x in [row] + rest ==> x == row || x in queue;
    assert Parented(tasks, row) ==> queue[|rest|] == Up(tasks, row);
  }

  /** The recursive query as a worklist: it ends on cyclic parents too, and yields exactly the ancestor rows. */
  method AncestorRows(tasks: Tasks, candidates: set<string>) returns (rows: set<Row>)
    ensures forall row :: row in rows <==> IsAncestorRow(tasks, candidates, row)
  {
    var queue: seq<Row> := [];
    var todo := candidates;
    while todo != {}
      invariant todo <= candidates
      invariant forall c :: c in candidates - todo ==> Row(c, c, 0) in queue
      invariant forall row | row in queue :: IsAncestorRow(tasks, candidates, row)
      decreases |todo|
    {
      var c :| c in todo;
      todo := todo - {c};
      queue := queue + [Row(c, c, 0)];
    }
    rows := {};
    while queue != []
      invariant forall row | row in queue :: IsAncestorRow(tasks, candidates, row)
      invariant forall row | row in rows :: IsAncestorRow(tasks, candidates, row)
      invariant Closed(tasks, candidates, rows, queue)
      decreases Weight(queue)
    {
      var row, rest := queue[0], queue[1..];
      assert queue == [row] + rest && row in queue;
      WeightSplits(row, rest);
      ClosedStep(tasks, candidates, rows, row, rest);
      rows := rows + {row};
      if Parented(tasks, row) {
        assert IsAncestorRow(tasks, candidates, Up(tasks, row));
        queue := rest + [Up(tasks, row)];
        assert queue[..|queue| - 1] == rest;
      } else {
        assert rest + [] == rest;
        queue := rest;
      }
    }
    forall row | IsAncestorRow(tasks, candidates, row)
      ensures row in rows
    {
      ClosedIsComplete(tasks, candidates, rows, row);
    }
  }

  /** The candidates whose own id or an ancestor is the root of a stop request. */
  method StoppedCandidates(tasks: Tasks, candidates: set<string>, stops: set<string>) returns (stopped: set<string>)
    ensures forall c :: c in stopped <==> c in candidates && InStoppedTree(tasks, stops, c)
  {
    var rows := AncestorRows(tasks, candidates);
    stopped := set row | row in rows && row.id in stops :: row.cid;
    forall c | c in candidates && InStoppedTree(tasks, stops, c)
      ensures c in stopped
    {
      var k: nat :| k <= MAX_DEPTH && StoppedAt(tasks, stops, c, k);
      assert Row(c, Ancestor(tasks, c, k).value, k) in rows;
    }
    forall c | c in stopped
      ensures InStoppedTree(tasks, stops, c)
    {
      var row :| row in rows && row.id in stops && row.cid == c;
      assert StoppedAt(tasks, stops, c, row.depth);
    }
  }

  // ---------- the pick ----------

  /** An unstarted ordinary task of this employee; old tables have no `kind` column. */
  predicate Todo(t: Task, agent: string, hasKind: bool)
  {
    && t.assignedTo == agent && t.status in {"todo", "pending"} && t.goalMode in {None, Some(0)}
    && (hasKind ==> t.kind in {Some("task"), Some("goal")})
  }

  function Rank(priority: Option<string>): nat
  {
    if priority == Some("critical") then 0
    else if priority == Some("urgent") then 1
    else if priority == Some("high") then 2
    else if priority == Some("medium") then 3
    else 4
  }

  /** The order of the query: by priority rank, then by creation time. */
  predicate Precedes(s: Task, t: Task)
  {
    Rank(s.priority) < Rank(t.priority) || (Rank(s.priority) == Rank(t.priority) && s.createdAt <= t.createdAt)
  }

  /** Exactly the employee's rows of the two open statuses, without goal mode, and of the two kinds if there are any. */
  lemma TodoMeaning(t: Task, agent: string, hasKind: bool)
    ensures Todo(t, agent, hasKind) <==>
      && t.assignedTo == agent
      && (t.status == "todo" || t.status == "pending")
      && (t.goalMode.Some? ==> t.goalMode.value == 0)
      && (!hasKind || (t.kind.Some? && (t.kind.value == "task" || t.kind.value == "goal")))
  {
  }

  /** The named priorities, the most pressing first. */
  const PRIORITIES := ["critical", "urgent", "high", "medium"]

  /** How many named priorities come before this one; all of them before any other value. */
  function Place(priority: Option<string>, from: nat): nat
    requires from <= |PRIORITIES|
    decreases |PRIORITIES| - from
  {
    if from == |PRIORITIES| || priority == Some(PRIORITIES[from]) then from else Place(priority, from + 1)
  }

  /** One row comes before another by the place of its priority in that list, and then by creation time. */
  lemma PrecedesMeaning(s: Task, t: Task)
    ensures Precedes(s, t) <==>
      var i, j := Place(s.priority, 0), Place(t.priority, 0); i < j || (i == j && s.createdAt <= t.createdAt)
  {
    RankIsPlace(s.priority);
    RankIsPlace(t.priority);
  }

  lemma RankIsPlace(priority: Option<string>)
    ensures Rank(priority) == Place(priority, 0)
  {
    assert Place(priority, 4) == 4;
    assert Place(priority, 3) == if priority == Some("medium") then 3 else 4;
    assert Place(priority, 2) == if priority == Some("high") then 2 else Place(priority, 3);
    assert Place(priority, 1) == if priority == Some("urgent") then 1 else Place(priority, 2);
  }

  /** A candidate that no stop request reaches; without a stop table nothing is excluded. */
  ghost predicate Available(tasks: Tasks, stops: Option<set<string>>, agent: string, hasKind: bool, id: string)
  {
    && id in tasks && Todo(tasks[id], agent, hasKind)
    && (stops.Some? ==> !InStoppedTree(tasks, stops.value, id))
  }

  /** A first available task in the order of the query, and none only when there is none. */
  method TodoQuery(tasks: Tasks, stops: Option<set<string>>, agent: string, hasKind: bool)
    returns (pick: Option<string>)
    ensures pick.None? ==> forall id :: !Available(tasks, stops, agent, hasKind, id)
    ensures pick.Some? ==> Available(tasks, stops, agent, hasKind, pick.value)
    ensures pick.Some? ==>
      forall id | Available(tasks, stops, agent, hasKind, id) :: Precedes(tasks[pick.value], tasks[id])
  {
    var candidates := set id | id in tasks && Todo(tasks[id], agent, hasKind);
    var left := candidates;
    if stops.Some? {
      var stopped := StoppedCandidates(tasks, candidates, stops.value);
      left := candidates - stopped;
    }
    assert forall id :: id in left <==> Available(tasks, stops, agent, hasKind, id);
    pick := None;
    var todo := left;
    while todo != {}
      invariant todo <= left
      invariant pick.None? <==> todo == left
      invariant pick.Some? ==>
        pick.value in left && forall id | id in left - todo :: Precedes(tasks[pick.value], tasks[id])
      decreases |todo|
    {
      var id :| id in todo;
      todo := todo - {id};
      if pick.None? || !Precedes(tasks[pick.value], tasks[id]) {
        pick := Some(id);
      }
    }
  }
}
