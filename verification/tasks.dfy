/**
 The storage layer: the SQLite table `tasks(id INTEGER PRIMARY KEY AUTOINCREMENT,
 text, completed, created_at)` and the four statements the program issues against it
 (INSERT, DELETE ... WHERE id, UPDATE ... WHERE id, SELECT ... ORDER BY id ASC).
 The table is held as the sequence of its rows in ascending id order.
 */
module TaskTable {

  /** Largest rowid SQLite can store (a signed 64-bit integer). With AUTOINCREMENT,
      an insert once this id has been issued fails with SQLITE_FULL. */
  const MaxRowId: int := 0x7FFF_FFFF_FFFF_FFFF

  /** One row of the table. `completed` is the INTEGER column (0 or 1 as the
      program writes it); `createdAt` is the timestamp text set at insertion. */
  datatype Task = Task(id: int, text: string, completed: int, createdAt: string)

  /** The order `ORDER BY id ASC` returns, ids being a primary key (distinct). */
  predicate StrictlyAscending(ts: seq<Task>)
  {
    forall i, j :: 0 <= i < j < |ts| ==> ts[i].id < ts[j].id
  }

  predicate HasId(ts: seq<Task>, id: int)
  {
    exists t :: t in ts && t.id == id
  }

  /** `DELETE FROM tasks WHERE id = ?`: no row with that id is left, and the table does
      not grow. */
  function Deleted(ts: seq<Task>, id: int): (r: seq<Task>)
    ensures !HasId(r, id)
    ensures |r| <= |ts|
  {
    if ts == [] then []
    else if ts[0].id == id then Deleted(ts[1..], id)
    else [ts[0]] + Deleted(ts[1..], id)
  }

  /** One row under `SET completed = ? WHERE id = ?`. */
  function SetFlag(t: Task, id: int, completed: int): Task
  {
    if t.id == id then t.(completed := completed) else t
  }

  /** `UPDATE tasks SET completed = ? WHERE id = ?`: every row stays in its place with
      the same id, text and creation time; its flag becomes the new value when its id
      matches and stays as it was otherwise. */
  function Updated(ts: seq<Task>, id: int, completed: int): (r: seq<Task>)
    ensures |r| == |ts|
    ensures forall i :: 0 <= i < |ts| ==>
      r[i] == ts[i].(completed := if ts[i].id == id then completed else ts[i].completed)
  {
    if ts == [] then []
    else [SetFlag(ts[0], id, completed)] + Updated(ts[1..], id, completed)
  }

  /** The rows a delete keeps are exactly those whose id differs. */
  lemma {:induction false} DeletedMembers(ts: seq<Task>, id: int)
    ensures forall t :: t in Deleted(ts, id) <==> t in ts && t.id != id
  {
    if ts != [] {
      DeletedMembers(ts[1..], id);
      assert ts == [ts[0]] + ts[1..];
    }
  }

  /** Deleting from an ascending listing leaves it ascending. */
  lemma {:induction false} DeletedAscending(ts: seq<Task>, id: int)
    requires StrictlyAscending(ts)
    ensures StrictlyAscending(Deleted(ts, id))
  {
    if ts != [] {
      DeletedAscending(ts[1..], id);
      var rest := Deleted(ts[1..], id);
      DeletedMembers(ts[1..], id);
      forall j | 0 <= j < |rest| ensures ts[0].id < rest[j].id {
        assert rest[j] in ts[1..];
      }
    }
  }

  /** Deleting an id no row carries changes nothing. */
  lemma {:induction false} DeletedAbsent(ts: seq<Task>, id: int)
    requires !HasId(ts, id)
    ensures Deleted(ts, id) == ts
  {
    if ts != [] {
      assert ts[0] in ts;
      assert !HasId(ts[1..], id) by {
        forall t | t in ts[1..] ensures t.id != id { assert t in ts; }
      }
      DeletedAbsent(ts[1..], id);
    }
  }

  /** Deleting the same id twice has the effect of deleting it once. */
  lemma DeletedIdempotent(ts: seq<Task>, id: int)
    ensures Deleted(Deleted(ts, id), id) == Deleted(ts, id)
  {
    DeletedAbsent(Deleted(ts, id), id);
  }

  /** In an ascending listing, no row after the first carries the first row's id. */
  lemma AscendingTailLacksHead(ts: seq<Task>)
    requires StrictlyAscending(ts) && ts != []
    ensures !HasId(ts[1..], ts[0].id)
  {
    var tail := ts[1..];
    forall t | t in tail ensures t.id != ts[0].id {
      var j :| 0 <= j < |tail| && tail[j] == t;
      assert t == ts[j + 1];
    }
  }

  /** Dropping element `k` of a sequence, seen from its tail. */
  lemma DropFromTail<T>(s: seq<T>, k: nat)
    requires 0 < k < |s|
    ensures [s[0]] + (s[1..][..k - 1] + s[1..][k..]) == s[..k] + s[k + 1..]
  {
    assert s[1..][..k - 1] == s[1..k] && s[1..][k..] == s[k + 1..];
    assert s[..k] == [s[0]] + s[1..k];
  }

  /** In an ascending listing, deleting the first row's id removes the first row only. */
  lemma DeletedHead(ts: seq<Task>)
    requires StrictlyAscending(ts) && ts != []
    ensures Deleted(ts, ts[0].id) == ts[1..]
  {
    AscendingTailLacksHead(ts);
    DeletedAbsent(ts[1..], ts[0].id);
  }

  /** In an ascending listing, deleting the id of row `k` removes exactly that row
      and keeps every other row, in order. */
  lemma {:induction false} DeletedExactlyOne(ts: seq<Task>, k: nat)
    requires StrictlyAscending(ts) && k < |ts|
    ensures Deleted(ts, ts[k].id) == ts[..k] + ts[k + 1..]
  {
    if k == 0 {
      DeletedHead(ts);
      assert ts[..0] + ts[1..] == ts[1..];
    } else {
      var tail, id := ts[1..], ts[k].id;
      assert StrictlyAscending(tail);
      assert tail[k - 1].id == id && ts[0].id != id;
      DeletedExactlyOne(tail, k - 1);
      DropFromTail(ts, k);
    }
  }

  /** Updating an id no row carries changes nothing. */
  lemma UpdatedAbsent(ts: seq<Task>, id: int, completed: int)
    requires !HasId(ts, id)
    ensures Updated(ts, id, completed) == ts
  {
    var r := Updated(ts, id, completed);
    forall i | 0 <= i < |ts| ensures r[i] == ts[i] {
      assert ts[i] in ts;
    }
  }

  /** Setting a row's flag to the value it already has changes nothing. */
  lemma UpdatedUnchanged(ts: seq<Task>, id: int, completed: int)
    requires forall t :: t in ts && t.id == id ==> t.completed == completed
    ensures Updated(ts, id, completed) == ts
  {
    var r := Updated(ts, id, completed);
    forall i | 0 <= i < |ts| ensures r[i] == ts[i] {
      assert ts[i] in ts;
    }
  }

  /** Two updates of the same id: the second one wins. */
  lemma UpdatedTwice(ts: seq<Task>, id: int, a: int, b: int)
    ensures Updated(Updated(ts, id, a), id, b) == Updated(ts, id, b)
  {
    var r1 := Updated(Updated(ts, id, a), id, b);
    var r2 := Updated(ts, id, b);
    forall i | 0 <= i < |ts| ensures r1[i] == r2[i] { }
  }

  /** In an ascending listing, updating the id of row `k` changes row `k` alone:
      the rows before and after it are as they were. */
  lemma UpdatedExactlyOne(ts: seq<Task>, k: nat, completed: int)
    requires StrictlyAscending(ts) && k < |ts|
    ensures var r := Updated(ts, ts[k].id, completed);
      && r[..k] == ts[..k]
      && r[k] == ts[k].(completed := completed)
      && r[k + 1..] == ts[k + 1..]
  {
    var r := Updated(ts, ts[k].id, completed);
    forall i | 0 <= i < |ts| && i != k ensures r[i] == ts[i] {
      assert ts[i].id != ts[k].id;
    }
    assert r[..k] == ts[..k];
    assert r[k + 1..] == ts[k + 1..];
  }

  /** An update keeps the listing ascending: ids do not move. */
  lemma UpdatedAscending(ts: seq<Task>, id: int, completed: int)
    requires StrictlyAscending(ts)
    ensures StrictlyAscending(Updated(ts, id, completed))
  {
  }

  /** `sum(1 for t in tasks if t[2] == 1)`. */
  function CountCompleted(ts: seq<Task>): (n: nat)
    ensures n <= |ts|
  {
    if ts == [] then 0
    else CountCompleted(ts[..|ts| - 1]) + (if ts[|ts| - 1].completed == 1 then 1 else 0)
  }

  /** The positions of the rows whose flag is 1: a reference definition of the count. */
  ghost function CompletedPositions(ts: seq<Task>): set<int>
  {
    set i | 0 <= i < |ts| && ts[i].completed == 1
  }

  /** The count is the number of rows whose flag is 1. */
  lemma {:induction false} CountCompletedIsCardinality(ts: seq<Task>)
    ensures CountCompleted(ts) == |CompletedPositions(ts)|
  {
    if ts != [] {
      var n := |ts| - 1;
      var front := ts[..n];
      CountCompletedIsCardinality(front);
      var P, Q := CompletedPositions(ts), CompletedPositions(front);
      if ts[n].completed == 1 {
        assert P == Q + {n};
        assert n !in Q;
      } else {
        assert P == Q;
      }
    }
  }

  /** The count of a concatenation is the sum of the counts. */
  lemma {:induction false} CountCompletedConcat(a: seq<Task>, b: seq<Task>)
    ensures CountCompleted(a + b) == CountCompleted(a) + CountCompleted(b)
    decreases |b|
  {
    if b != [] {
      var n := |b| - 1;
      assert (a + b)[..|a + b| - 1] == a + b[..n];
      CountCompletedConcat(a, b[..n]);
    } else {
      assert a + b == a;
    }
  }

  /** The count around row `k`: before it, the row itself, after it. */
  lemma CountCompletedSplit(ts: seq<Task>, k: nat)
    requires k < |ts|
    ensures CountCompleted(ts)
         == CountCompleted(ts[..k]) + (if ts[k].completed == 1 then 1 else 0) + CountCompleted(ts[k + 1..])
  {
    var front, t, back := ts[..k], ts[k], ts[k + 1..];
    var upTo := front + [t];
    assert upTo[..|upTo| - 1] == front;
    assert CountCompleted(upTo) == CountCompleted(front) + (if t.completed == 1 then 1 else 0);
    assert ts == upTo + back;
    CountCompletedConcat(upTo, back);
  }

  /**
   The `tasks` table of the database file. `sequence` is SQLite's `sqlite_sequence`
   entry for the table: the largest id AUTOINCREMENT has ever issued. `issued` is
   the history of all ids ever issued, kept for the proofs only.
   */
  class TaskStore {
    var rows: seq<Task>
    var sequence: int
    ghost var issued: set<int>

    ghost predicate Valid()
      reads this
    {
      && 0 <= sequence <= MaxRowId
      && StrictlyAscending(rows)
      && (forall t :: t in rows ==> t.id in issued)
      && (forall id :: id in issued ==> 1 <= id <= sequence)
    }

    /** `init_db` on a database file that does not exist yet: an empty table. */
    constructor ()
      ensures Valid() && rows == [] && sequence == 0 && issued == {}
    {
      rows, sequence, issued := [], 0, {};
    }

    /**
     `INSERT INTO tasks (text, completed, created_at) VALUES (?, 0, ?)`. AUTOINCREMENT
     gives the new row the id after the largest ever issued, so an id is never
     reused, even after the row that had it was deleted; when that id would not fit
     in 64 bits the statement fails and nothing changes.
     */
    method Insert(text: string, createdAt: string) returns (ok: bool)
      requires Valid()
      modifies this
      ensures Valid()
      ensures ok <==> old(sequence) < MaxRowId
      ensures ok ==> && sequence == old(sequence) + 1
                     && sequence !in old(issued)
                     && (forall id :: id in old(issued) ==> id < sequence)
                     && issued == old(issued) + {sequence}
                     && rows == old(rows) + [Task(sequence, text, 0, createdAt)]
      ensures !ok ==> rows == old(rows) && sequence == old(sequence) && issued == old(issued)
    {
      if sequence == MaxRowId {
        return false;
      }
      var id := sequence + 1;
      rows := rows + [Task(id, text, 0, createdAt)];
      sequence := id;
      issued := issued + {id};
      ok := true;
    }

    /** `DELETE FROM tasks WHERE id = ?`; no row with that id is not an error. */
    method Delete(id: int)
      requires Valid()
      modifies this`rows
      ensures Valid()
      ensures rows == Deleted(old(rows), id)
    {
      DeletedAscending(rows, id);
      DeletedMembers(rows, id);
      rows := Deleted(rows, id);
    }

    /** `UPDATE tasks SET completed = ? WHERE id = ?`; no row with that id is not an error. */
    method SetCompleted(id: int, completed: int)
      requires Valid()
      modifies this`rows
      ensures Valid()
      ensures rows == Updated(old(rows), id, completed)
    {
      UpdatedAscending(rows, id, completed);
      var r := Updated(rows, id, completed);
      assert forall t :: t in r ==> t.id in issued by {
        forall t | t in r ensures t.id in issued {
          var i :| 0 <= i < |r| && r[i] == t;
          assert rows[i] in rows;
        }
      }
      rows := r;
    }

    /** `SELECT id, text, completed, created_at FROM tasks ORDER BY id ASC`: every row,
        in strictly ascending id order. */
    method List() returns (result: seq<Task>)
      requires Valid()
      ensures StrictlyAscending(result)
      ensures result == rows
    {
      result := rows;
    }
  }
}
