/**
 The list controller (`TodoApp`): it turns the three user intents (add the entry
 text, toggle a row's checkbox, delete a row) into one statement against the task
 table, then reloads the full listing and recomputes the summary counts.
 */
module Controller {
  import opened PyStrings
  import opened TaskTable

  /** The flag a checkbox click writes back: 0 when the flag the row was drawn with
      is 1, and 1 for any other value. */
  function NewState(completed: int): (r: int)
    ensures r == 0 || r == 1
    ensures r == 0 <==> completed == 1
  {
    if completed == 1 then 0 else 1
  }

  /** Clicking twice gives the original flag back exactly for the flags 0 and 1. */
  lemma NewStateInvolution(completed: int)
    ensures NewState(NewState(completed)) == completed <==> (completed == 0 || completed == 1)
  {
  }

  /** The numbers of the stats label: `Total | Active | Completed`. */
  datatype Stats = Stats(total: int, active: int, completed: int)

  /** The counts `load_tasks` computes from a listing: every row is either active
      or completed, and completed counts the rows whose flag is 1. */
  function ComputeStats(ts: seq<Task>): (s: Stats)
    ensures s.total == |ts| && s.total == s.active + s.completed
    ensures 0 <= s.active <= s.total && 0 <= s.completed <= s.total
    ensures s.completed == |CompletedPositions(ts)|
  {
    CountCompletedIsCardinality(ts);
    var completed := CountCompleted(ts);
    Stats(|ts|, |ts| - completed, completed)
  }

  /** A row as the controller writes it: stripped, non-empty text and a 0/1 flag. */
  predicate StoredForm(t: Task)
  {
    t.text != [] && Strip(t.text) == t.text && (t.completed == 0 || t.completed == 1)
  }

  predicate AllStoredForm(ts: seq<Task>)
  {
    forall t :: t in ts ==> StoredForm(t)
  }

  /** Updates through the controller keep rows in stored form. */
  lemma UpdatedStoredForm(ts: seq<Task>, id: int, completed: int)
    requires AllStoredForm(ts) && (completed == 0 || completed == 1)
    ensures AllStoredForm(Updated(ts, id, completed))
  {
    var r := Updated(ts, id, completed);
    forall t | t in r ensures StoredForm(t) {
      var i :| 0 <= i < |r| && r[i] == t;
      assert ts[i] in ts;
    }
  }

  /** Deletes keep rows in stored form. */
  lemma DeletedStoredForm(ts: seq<Task>, id: int)
    requires AllStoredForm(ts)
    ensures AllStoredForm(Deleted(ts, id))
  {
    DeletedMembers(ts, id);
  }

  /** A new row (flag 0) adds one to the total and one to the active count. */
  lemma StatsAfterInsert(ts: seq<Task>, t: Task)
    requires t.completed == 0
    ensures ComputeStats(ts + [t])
         == Stats(|ts| + 1, ComputeStats(ts).active + 1, ComputeStats(ts).completed)
  {
    CountCompletedConcat(ts, [t]);
    assert [t][..0] == [];
  }

  /** Toggling row `k` from the flag it was drawn with moves it between the active
      and the completed count; the total stays. */
  lemma StatsAfterToggle(ts: seq<Task>, k: nat)
    requires StrictlyAscending(ts) && k < |ts|
    ensures var before, after := ComputeStats(ts), ComputeStats(Updated(ts, ts[k].id, NewState(ts[k].completed)));
      && after.total == before.total
      && (ts[k].completed == 1 ==> after.completed == before.completed - 1 && after.active == before.active + 1)
      && (ts[k].completed != 1 ==> after.completed == before.completed + 1 && after.active == before.active - 1)
  {
    var ts' := Updated(ts, ts[k].id, NewState(ts[k].completed));
    UpdatedExactlyOne(ts, k, NewState(ts[k].completed));
    CountCompletedSplit(ts, k);
    CountCompletedSplit(ts', k);
  }

  /** Deleting row `k` takes one off the total and off the count its flag belongs to. */
  lemma StatsAfterDelete(ts: seq<Task>, k: nat)
    requires StrictlyAscending(ts) && k < |ts|
    ensures var before, after := ComputeStats(ts), ComputeStats(Deleted(ts, ts[k].id));
      && after.total == before.total - 1
      && (ts[k].completed == 1 ==> after.completed == before.completed - 1 && after.active == before.active)
      && (ts[k].completed != 1 ==> after.completed == before.completed && after.active == before.active - 1)
  {
    DeletedExactlyOne(ts, k);
    CountCompletedSplit(ts, k);
    CountCompletedConcat(ts[..k], ts[k + 1..]);
  }

  /** Toggling a row with the flag it shows, then with the flag that produced,
      restores the table. */
  lemma ToggleTwiceRestores(ts: seq<Task>, id: int, completed: int)
    requires completed == 0 || completed == 1
    requires forall t :: t in ts && t.id == id ==> t.completed == completed
    ensures Updated(Updated(ts, id, NewState(completed)), id, NewState(NewState(completed))) == ts
  {
    UpdatedTwice(ts, id, NewState(completed), NewState(NewState(completed)));
    UpdatedUnchanged(ts, id, completed);
  }

  /**
   The application window, reduced to what it computes: the entry text, the rows
   the list frame shows (`view`) and the stats label (`stats`), over the table.
   */
  class TodoApp {
    const store: TaskStore
    var entry: string
    var view: seq<Task>
    var stats: Stats

    /** The display always equals a fresh read of the table. */
    ghost predicate Valid()
      reads this, store
    {
      store.Valid() && view == store.rows && stats == ComputeStats(view)
    }

    /** Every stored row is one the controller could have written. */
    ghost predicate WellFormed()
      reads store
    {
      AllStoredForm(store.rows)
    }

    /** Building the window ends with a first `load_tasks` over the existing table. */
    constructor (store: TaskStore)
      requires store.Valid()
      ensures this.store == store && Valid() && entry == []
    {
      this.store := store;
      entry, view, stats := [], [], Stats(0, 0, 0);
      new;
      Reload();
    }

    /** The user edits the entry field. */
    method SetEntry(text: string)
      requires Valid()
      modifies this`entry
      ensures Valid() && entry == text
    {
      entry := text;
    }

    /** `load_tasks`: re-read every row and recompute the counts. */
    method Reload()
      requires store.Valid()
      modifies this`view, this`stats
      ensures Valid()
    {
      var tasks := store.List();
      view := tasks;
      stats := ComputeStats(tasks);
    }

    /**
     `add_task`: strip the entry; blank text is dropped without touching the table.
     Otherwise insert it with flag 0, clear the entry and reload. An insert that fails
     (no id left) leaves the table, the entry and the display as they were.
     */
    method Add(createdAt: string)
      requires Valid()
      modifies this, store
      ensures Valid() && store.sequence >= old(store.sequence)
      ensures AllWhitespace(old(entry)) ==>
        && store.rows == old(store.rows) && store.sequence == old(store.sequence)
        && store.issued == old(store.issued) && entry == old(entry)
      ensures !AllWhitespace(old(entry)) && old(store.sequence) < MaxRowId ==>
        && store.sequence == old(store.sequence) + 1
        && store.sequence !in old(store.issued)
        && store.issued == old(store.issued) + {store.sequence}
        && store.rows == old(store.rows) + [Task(store.sequence, Strip(old(entry)), 0, createdAt)]
        && stats == Stats(old(stats.total) + 1, old(stats.active) + 1, old(stats.completed))
        && entry == []
      ensures !AllWhitespace(old(entry)) && old(store.sequence) == MaxRowId ==>
        && store.rows == old(store.rows) && store.sequence == old(store.sequence)
        && store.issued == old(store.issued) && entry == old(entry)
      ensures old(WellFormed()) ==> WellFormed()
    {
      var text := Strip(entry);
      StripEmptyIff(entry);
      if text == [] {
        return;
      }
      ghost var before := store.rows;
      var ok := store.Insert(text, createdAt);
      if !ok {
        return;
      }
      entry := [];
      Reload();
      StatsAfterInsert(before, Task(store.sequence, text, 0, createdAt));
      StripIdempotent(old(entry));
    }

    /** `toggle_task`: write back the opposite of the flag the row was drawn with
        (rows with another id, or no row at all, are left alone), then reload. */
    method Toggle(id: int, completed: int)
      requires Valid()
      modifies this, store
      ensures Valid() && entry == old(entry)
      ensures store.sequence == old(store.sequence) && store.issued == old(store.issued)
      ensures store.rows == Updated(old(store.rows), id, NewState(completed))
      ensures old(WellFormed()) ==> WellFormed()
    {
      ghost var before := store.rows;
      store.SetCompleted(id, NewState(completed));
      if AllStoredForm(before) {
        UpdatedStoredForm(before, id, NewState(completed));
      }
      Reload();
    }

    /** `delete_task`: remove the row with that id (if any), then reload. */
    method Delete(id: int)
      requires Valid()
      modifies this, store
      ensures Valid() && entry == old(entry)
      ensures store.sequence == old(store.sequence) && store.issued == old(store.issued)
      ensures store.rows == Deleted(old(store.rows), id)
      ensures old(WellFormed()) ==> WellFormed()
    {
      ghost var before := store.rows;
      store.Delete(id);
      if AllStoredForm(before) {
        DeletedStoredForm(before, id);
      }
      Reload();
    }
  }

  /** The session of one new task: add it, complete it, delete it. */
  method OneTaskSession(text: string, createdAt: string)
    requires Strip(text) == text && text != []
  {
    var store := new TaskStore();
    var app := new TodoApp(store);
    StripEmptyIff(text);
    app.SetEntry(text);
    assert !AllWhitespace(app.entry) && app.store.sequence == 0 && app.store.rows == [];
    assert app.stats == Stats(0, 0, 0);
    app.Add(createdAt);
    assert app.store.sequence == 1;
    assert app.store.rows == [] + [Task(1, Strip(text), 0, createdAt)];
    assert app.view == [Task(1, text, 0, createdAt)];
    assert app.stats == Stats(1, 1, 0);

    var done := Task(1, text, 1, createdAt);
    app.Toggle(1, 0);
    assert app.view == Updated([Task(1, text, 0, createdAt)], 1, 1);
    assert app.view == [done];
    assert CountCompleted([done]) == 1 by { assert [done][..0] == []; }
    assert app.stats == Stats(1, 0, 1);

    app.Delete(1);
    assert app.view == Deleted([done], 1) == [];
    assert app.stats == Stats(0, 0, 0);

    app.Delete(1);
    assert app.view == [] && app.stats == Stats(0, 0, 0);
  }
}
