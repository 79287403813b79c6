/** The task handlers of the service, with the HTTP layer removed: each one is
    an operation over the shared `Database`, taking the request's fields, the
    generated id and the clock readings as parameters and returning the
    response status. */
module Routes {
  import opened Records
  import opened Seqs
  import opened Store

  /** The response codes: 201, 200, 204, 400, 404 and 500. */
  datatype Status = Created | Ok | NoContent | BadRequest | NotFound | ServerError

  const TasksTable := "tasks"
  const DefaultTitle := "Título Padrão"
  const DefaultDescription := "Descrição Padrão"
  const TaskFields: set<string> := {"id", "title", "description", "completed_at", "created_at", "updated_at"}

  // ---------------------------------------------------------------------------
  // The tasks table invariant

  /** The shape of every task the handlers store. */
  predicate WellFormedTask(t: Record) {
    && t.Keys == TaskFields
    && t["id"].Str?
    && Truthy(t["title"])
    && Truthy(t["description"])
    && (t["completed_at"].Null? || Truthy(t["completed_at"]))
    && t["created_at"].Str?
    && t["updated_at"].Str?
  }

  /** No two tasks share an id. */
  ghost predicate UniqueIds(rows: seq<Record>) {
    forall j, k, x :: 0 <= j < k < |rows| ==> !(HasId(rows[j], x) && HasId(rows[k], x))
  }

  ghost predicate ValidTasks(rows: seq<Record>) {
    && (forall j :: 0 <= j < |rows| ==> WellFormedTask(rows[j]))
    && UniqueIds(rows)
  }

  lemma ValidAppend(rows: seq<Record>, t: Record, id: string)
    requires ValidTasks(rows) && WellFormedTask(t) && HasId(t, id) && !HasIdIn(rows, id)
    ensures ValidTasks(rows + [t])
  {
    var s := rows + [t];
    assert forall j :: 0 <= j < |rows| ==> s[j] == rows[j];
  }

  lemma ValidRemove(rows: seq<Record>, i: int)
    requires ValidTasks(rows) && 0 <= i < |rows|
    ensures ValidTasks(rows[..i] + rows[i + 1..])
  {
    var s := rows[..i] + rows[i + 1..];
    assert forall j :: 0 <= j < |s| ==> s[j] == rows[if j < i then j else j + 1];
  }

  lemma ValidUpdate(rows: seq<Record>, id: string, newData: Record, now: Timestamp)
    requires ValidTasks(rows) && "id" !in newData
    requires 0 <= FindIndex(rows, id) ==> WellFormedTask(Merge(rows[FindIndex(rows, id)], newData, now))
    ensures ValidTasks(UpdatedRows(rows, id, newData, now))
  {
    forall x: string, j | 0 <= j < |rows|
      ensures HasId(UpdatedRows(rows, id, newData, now)[j], x) <==> HasId(rows[j], x)
    {
      UpdateKeepsIds(rows, id, newData, now, x);
    }
  }

  // ---------------------------------------------------------------------------
  // POST /tasks

  /** The task record built by `POST /tasks` and by the import. */
  function NewTask(id: string, title: string, description: string, createdAt: Timestamp, updatedAt: Timestamp): (t: Record)
    requires title != "" && description != ""
    ensures WellFormedTask(t) && HasId(t, id)
    ensures t["title"] == Str(title) && t["description"] == Str(description)
    ensures t["completed_at"] == Null
    ensures t["created_at"] == Str(createdAt) && t["updated_at"] == Str(updatedAt)
  {
    map["id" := Str(id), "title" := Str(title), "description" := Str(description),
        "completed_at" := Null, "created_at" := Str(createdAt), "updated_at" := Str(updatedAt)]
  }

  /** `POST /tasks`: rejects a falsy title or description before touching the
      store; otherwise appends a new incomplete task under the drawn id. */
  method CreateTask(db: Database, title: Value, description: Value, id: string, createdAt: Timestamp, updatedAt: Timestamp)
    returns (status: Status, task: Option<Record>)
    requires ValidTasks(db.Rows(TasksTable)) && !HasIdIn(db.Rows(TasksTable), id)
    modifies db
    ensures ValidTasks(db.Rows(TasksTable))
    ensures !(Truthy(title) && Truthy(description)) ==>
              status == BadRequest && task == None && unchanged(db)
    ensures Truthy(title) && Truthy(description) ==>
              && status == Created
              && task == Some(NewTask(id, title.s, description.s, createdAt, updatedAt))
              && db.tables == old(db.tables)[TasksTable := old(db.Rows(TasksTable)) + [task.value]]
              && db.persisted == old(db.persisted) + [db.tables]
              && db.FindIn(TasksTable, id) == task
  {
    if !Truthy(title) || !Truthy(description) {
      return BadRequest, None;
    }
    var t := NewTask(id, title.s, description.s, createdAt, updatedAt);
    ValidAppend(db.Rows(TasksTable), t, id);
    FindAfterAppend(db.Rows(TasksTable), t, id);
    var _ := db.Insert(TasksTable, t);
    status, task := Created, Some(t);
  }

  // ---------------------------------------------------------------------------
  // GET /tasks

  /** The search object built from the query's term: none without a term or
      with an empty one, otherwise the term under both `title` and
      `description` (`search ? { title: search, description: search } : null`). */
  function SearchFilter(search: Option<string>): (f: Option<map<string, string>>)
    ensures f.Some? <==> search.Some? && search.value != ""
    ensures f.Some? ==> f.value.Keys == {"title", "description"}
                        && f.value["title"] == search.value && f.value["description"] == search.value
  {
    if search.Some? && search.value != "" then Some(map["title" := search.value, "description" := search.value])
    else None
  }

  /** The title or the description contains `term`, ignoring case. */
  predicate Mentions(t: Record, term: string) {
    || ("title" in t && t["title"].Str? && ContainsIgnoringCase(t["title"].s, term))
    || ("description" in t && t["description"].Str? && ContainsIgnoringCase(t["description"].s, term))
  }

  function MentionsTerm(term: string): Record -> bool {
    t => Mentions(t, term)
  }

  /** A task matches the search object built from a term exactly when its
      title or its description contains the term, ignoring case. */
  lemma SearchFilterMatches(term: string, t: Record)
    requires term != ""
    ensures Matches(t, SearchFilter(Some(term)).value) <==> Mentions(t, term)
  {
    var f := SearchFilter(Some(term)).value;
    if Mentions(t, term) {
      if "title" in t && t["title"].Str? && ContainsIgnoringCase(t["title"].s, term) {
        assert "title" in f;
      } else {
        assert "description" in f;
      }
    }
  }

  /** `GET /tasks`: every task in insertion order without a search term; with
      one, the tasks whose title OR description contains it, in order. */
  method ListTasks(db: Database, search: Option<string>) returns (status: Status, tasks: seq<Record>)
    requires search.Some? && search.value != "" ==> Searchable(db.Rows(TasksTable), {"title", "description"})
    ensures status == Ok
    ensures (search.None? || search.value == "") ==> tasks == db.Rows(TasksTable)
    ensures search.Some? && search.value != "" ==>
              && SubseqOf(tasks, db.Rows(TasksTable))
              && (forall t :: t in tasks <==> t in db.Rows(TasksTable) && Mentions(t, search.value))
              && |tasks| == Count(db.Rows(TasksTable), MentionsTerm(search.value))
  {
    var filter := SearchFilter(search);
    if filter.Some? {
      var rows := db.Rows(TasksTable);
      forall t: Record ensures Matches(t, filter.value) <==> Mentions(t, search.value) {
        SearchFilterMatches(search.value, t);
      }
      FilterAgrees(rows, MatchesSearch(filter.value), MentionsTerm(search.value));
    }
    tasks := db.Select(TasksTable, filter);
    status := Ok;
  }

  // ---------------------------------------------------------------------------
  // PUT /tasks/:id

  /** `updateData`: the truthy ones of `title` and `description`. */
  function UpdateData(title: Value, description: Value): (d: Record)
    ensures d.Keys <= {"title", "description"}
    ensures "title" in d <==> Truthy(title)
    ensures "description" in d <==> Truthy(description)
    ensures "title" in d ==> d["title"] == title
    ensures "description" in d ==> d["description"] == description
  {
    (if Truthy(title) then map["title" := title] else map[])
      + (if Truthy(description) then map["description" := description] else map[])
  }

  /** An edit overwrites exactly the truthy fields given, refreshes
      `updated_at`, and keeps the id, `created_at` and `completed_at`. */
  lemma EditedTask(t: Record, title: Value, description: Value, now: Timestamp)
    requires WellFormedTask(t)
    ensures var u := Merge(t, UpdateData(title, description), now);
              && WellFormedTask(u)
              && u["title"] == (if Truthy(title) then title else t["title"])
              && u["description"] == (if Truthy(description) then description else t["description"])
              && u["id"] == t["id"]
              && u["completed_at"] == t["completed_at"]
              && u["created_at"] == t["created_at"]
              && u["updated_at"] == Str(now)
  {
    var d := UpdateData(title, description);
    var u := Merge(t, d, now);
    assert u.Keys == TaskFields;
    assert "id" !in d && "completed_at" !in d && "created_at" !in d;
  }

  /** `PUT /tasks/:id`: 404 and no change for an unknown id; otherwise the
      store merges the truthy fields into the first task with that id. */
  method UpdateTask(db: Database, id: string, title: Value, description: Value, now: Timestamp) returns (status: Status)
    requires ValidTasks(db.Rows(TasksTable))
    modifies db
    ensures ValidTasks(db.Rows(TasksTable))
    ensures !HasIdIn(old(db.Rows(TasksTable)), id) ==> status == NotFound && unchanged(db)
    ensures HasIdIn(old(db.Rows(TasksTable)), id) ==>
              && status == NoContent
              && db.tables == old(db.tables)[TasksTable := UpdatedRows(old(db.Rows(TasksTable)), id, UpdateData(title, description), now)]
              && db.persisted == old(db.persisted) + [db.tables]
  {
    var task := db.FindIn(TasksTable, id);
    if task.None? {
      return NotFound;
    }
    var rows := db.Rows(TasksTable);
    EditedTask(rows[FindIndex(rows, id)], title, description, now);
    ValidUpdate(rows, id, UpdateData(title, description), now);
    db.Update(TasksTable, id, UpdateData(title, description), now);
    status := NoContent;
  }

  // ---------------------------------------------------------------------------
  // DELETE /tasks/:id

  /** `DELETE /tasks/:id`: 404 and no change for an unknown id; otherwise the
      task leaves the table and every other task stays, in order. */
  method DeleteTask(db: Database, id: string) returns (status: Status)
    requires ValidTasks(db.Rows(TasksTable))
    modifies db
    ensures ValidTasks(db.Rows(TasksTable))
    ensures !HasIdIn(old(db.Rows(TasksTable)), id) ==> status == NotFound && unchanged(db)
    ensures HasIdIn(old(db.Rows(TasksTable)), id) ==>
              && status == NoContent
              && (var rows, i := old(db.Rows(TasksTable)), FindIndex(old(db.Rows(TasksTable)), id);
                  db.tables == old(db.tables)[TasksTable := rows[..i] + rows[i + 1..]])
              && |db.Rows(TasksTable)| == |old(db.Rows(TasksTable))| - 1
              && !HasIdIn(db.Rows(TasksTable), id)
              && db.persisted == old(db.persisted) + [db.tables]
  {
    var task := db.FindIn(TasksTable, id);
    if task.None? {
      return NotFound;
    }
    var rows := db.Rows(TasksTable);
    DeleteRemovesOne(rows, id);
    ValidRemove(rows, FindIndex(rows, id));
    db.Delete(TasksTable, id);
    status := NoContent;
  }

  // ---------------------------------------------------------------------------
  // PATCH /tasks/:id/complete

  /** The new completion: null for a completed task, otherwise the current
      time (`task.completed_at ? null : now`). */
  function Toggled(completedAt: Value, now: Timestamp): (v: Value)
    ensures Truthy(v) <==> !Truthy(completedAt)
    ensures Truthy(v) ==> v == Str(now)
    ensures !Truthy(v) ==> v == Null
  {
    if Truthy(completedAt) then Null else Str(now)
  }

  /** The patch `{ completed_at }` the handler hands to the store's update. */
  function CompletionPatch(t: Record, completedNow: Timestamp): (p: Record)
    ensures p.Keys == {"completed_at"}
    ensures Truthy(p["completed_at"]) <==> !Truthy(Field(t, "completed_at"))
    ensures Truthy(p["completed_at"]) ==> p["completed_at"] == Str(completedNow)
    ensures !Truthy(p["completed_at"]) ==> p["completed_at"] == Null
  {
    map["completed_at" := Toggled(Field(t, "completed_at"), completedNow)]
  }

  /** The task with `id` toggled: its completion flipped and its `updated_at`
      set; `completedNow` and `updatedNow` are the handler's and the store's
      clock readings. */
  function ToggledRows(rows: seq<Record>, id: string, completedNow: Timestamp, updatedNow: Timestamp): (r: seq<Record>)
    ensures |r| == |rows|
  {
    var i := FindIndex(rows, id);
    if i == -1 then rows
    else rows[i := rows[i]["completed_at" := Toggled(Field(rows[i], "completed_at"), completedNow)]["updated_at" := Str(updatedNow)]]
  }

  /** The handler's store update with the completion patch is exactly the toggle. */
  lemma ToggleThroughUpdate(rows: seq<Record>, id: string, completedNow: Timestamp, updatedNow: Timestamp)
    requires HasIdIn(rows, id)
    ensures UpdatedRows(rows, id, CompletionPatch(rows[FindIndex(rows, id)], completedNow), updatedNow)
            == ToggledRows(rows, id, completedNow, updatedNow)
  {
    var i := FindIndex(rows, id);
    var t := rows[i];
    assert Merge(t, CompletionPatch(t, completedNow), updatedNow)
        == t["completed_at" := Toggled(Field(t, "completed_at"), completedNow)]["updated_at" := Str(updatedNow)];
  }

  /** A toggle flips the completion of the task with `id`, leaves it under the
      same index, and leaves every other task as it was. */
  lemma ToggleFlips(rows: seq<Record>, id: string, completedNow: Timestamp, updatedNow: Timestamp)
    requires HasIdIn(rows, id)
    ensures var i, r := FindIndex(rows, id), ToggledRows(rows, id, completedNow, updatedNow);
              && (forall j :: 0 <= j < |rows| && j != i ==> r[j] == rows[j])
              && FindIndex(r, id) == i
              && (Truthy(r[i]["completed_at"]) <==> !Truthy(Field(rows[i], "completed_at")))
              && r[i]["updated_at"] == Str(updatedNow)
  {
    var r := ToggledRows(rows, id, completedNow, updatedNow);
    FindIndexAgrees(r, rows, id);
  }

  /** A toggle keeps the tasks table valid. */
  lemma ToggleKeepsValid(rows: seq<Record>, id: string, completedNow: Timestamp, updatedNow: Timestamp)
    requires ValidTasks(rows)
    ensures ValidTasks(ToggledRows(rows, id, completedNow, updatedNow))
  {
    var i := FindIndex(rows, id);
    if i != -1 {
      var r := ToggledRows(rows, id, completedNow, updatedNow);
      assert r[i].Keys == TaskFields;
      assert forall j, x :: 0 <= j < |rows| ==> (HasId(r[j], x) <==> HasId(rows[j], x));
    }
  }

  /** Toggling an incomplete task twice leaves it incomplete again: only its
      `updated_at` differs, set by the second toggle. */
  lemma ToggleTwiceRestores(rows: seq<Record>, id: string, c1: Timestamp, u1: Timestamp, c2: Timestamp, u2: Timestamp)
    requires HasIdIn(rows, id)
    requires "completed_at" in rows[FindIndex(rows, id)] && rows[FindIndex(rows, id)]["completed_at"] == Null
    ensures var i := FindIndex(rows, id);
              ToggledRows(ToggledRows(rows, id, c1, u1), id, c2, u2) == rows[i := rows[i]["updated_at" := Str(u2)]]
  {
    var i := FindIndex(rows, id);
    var t := rows[i];
    var t1 := t["completed_at" := Str(c1)]["updated_at" := Str(u1)];
    var r1 := ToggledRows(rows, id, c1, u1);
    assert r1 == rows[i := t1];
    ToggleFlips(rows, id, c1, u1);
    var t2 := t1["completed_at" := Null]["updated_at" := Str(u2)];
    assert Field(t1, "completed_at") == Str(c1);
    assert ToggledRows(r1, id, c2, u2) == rows[i := t1][i := t2];
    assert t2 == t["updated_at" := Str(u2)] by {
      assert t["completed_at" := Null] == t;
    }
  }

  /** `PATCH /tasks/:id/complete`: 404 and no change for an unknown id;
      otherwise the task's completion is toggled through the store's update. */
  method ToggleComplete(db: Database, id: string, completedNow: Timestamp, updatedNow: Timestamp) returns (status: Status)
    requires ValidTasks(db.Rows(TasksTable))
    modifies db
    ensures ValidTasks(db.Rows(TasksTable))
    ensures !HasIdIn(old(db.Rows(TasksTable)), id) ==> status == NotFound && unchanged(db)
    ensures HasIdIn(old(db.Rows(TasksTable)), id) ==>
              && status == NoContent
              && db.tables == old(db.tables)[TasksTable := ToggledRows(old(db.Rows(TasksTable)), id, completedNow, updatedNow)]
              && db.persisted == old(db.persisted) + [db.tables]
  {
    var task := db.FindIn(TasksTable, id);
    if task.None? {
      return NotFound;
    }
    ToggleThroughUpdate(db.Rows(TasksTable), id, completedNow, updatedNow);
    ToggleKeepsValid(db.Rows(TasksTable), id, completedNow, updatedNow);
    db.Update(TasksTable, id, CompletionPatch(task.value, completedNow), updatedNow);
    status := NoContent;
  }

  // ---------------------------------------------------------------------------
  // POST /tasks/import

  /** The id and the two clock readings the import draws for one row. */
  datatype Fresh = Fresh(id: string, createdAt: Timestamp, updatedAt: Timestamp)

  /** `value || fallback` for a field of a parsed row. */
  function OrDefault(v: Value, fallback: string): (s: string)
    requires fallback != ""
    ensures s != ""
    ensures Truthy(v) ==> s == v.s
    ensures !Truthy(v) ==> s == fallback
  {
    if Truthy(v) then v.s else fallback
  }

  /** The task built from one parsed row: a blank title or description takes
      its default. */
  function ImportedTask(row: Record, f: Fresh): (t: Record)
    ensures WellFormedTask(t) && HasId(t, f.id) && t["completed_at"] == Null
    ensures Truthy(Field(row, "title")) ==> t["title"] == row["title"]
    ensures !Truthy(Field(row, "title")) ==> t["title"] == Str(DefaultTitle)
    ensures Truthy(Field(row, "description")) ==> t["description"] == row["description"]
    ensures !Truthy(Field(row, "description")) ==> t["description"] == Str(DefaultDescription)
    ensures t["created_at"] == Str(f.createdAt) && t["updated_at"] == Str(f.updatedAt)
  {
    NewTask(f.id, OrDefault(Field(row, "title"), DefaultTitle), OrDefault(Field(row, "description"), DefaultDescription),
            f.createdAt, f.updatedAt)
  }

  /** The generated ids are new to the table and pairwise distinct. */
  predicate FreshIds(drawn: seq<Fresh>, rows: seq<Record>) {
    && (forall k :: 0 <= k < |drawn| ==> !HasIdIn(rows, drawn[k].id))
    && (forall j, k :: 0 <= j < k < |drawn| ==> drawn[j].id != drawn[k].id)
  }

  /** Appending well-formed tasks under freshly drawn ids keeps the table valid. */
  lemma ValidAppendImported(rows: seq<Record>, tasks: seq<Record>, drawn: seq<Fresh>)
    requires ValidTasks(rows) && FreshIds(drawn, rows) && |tasks| == |drawn|
    requires forall k :: 0 <= k < |tasks| ==> WellFormedTask(tasks[k]) && HasId(tasks[k], drawn[k].id)
    ensures ValidTasks(rows + tasks)
  {
    var s := rows + tasks;
    assert forall j :: 0 <= j < |s| ==> s[j] == if j < |rows| then rows[j] else tasks[j - |rows|];
  }

  /** One task per parsed row, in row order. */
  function ImportedTasks(rows: seq<Record>, drawn: seq<Fresh>): (ts: seq<Record>)
    requires |drawn| == |rows|
    ensures |ts| == |rows|
  {
    seq(|rows|, k requires 0 <= k < |rows| => ImportedTask(rows[k], drawn[k]))
  }

  /** The `for await` loop that builds the local `tasks` array row by row. */
  method BuildImported(rows: seq<Record>, drawn: seq<Fresh>) returns (tasks: seq<Record>)
    requires |drawn| == |rows|
    ensures tasks == ImportedTasks(rows, drawn)
  {
    tasks := [];
    var i := 0;
    while i < |rows|
      invariant 0 <= i <= |rows|
      invariant tasks == ImportedTasks(rows[..i], drawn[..i])
    {
      tasks := tasks + [ImportedTask(rows[i], drawn[i])];
      i := i + 1;
    }
    assert rows[..i] == rows && drawn[..i] == drawn;
  }

  /** Inserts the built tasks one by one into the tasks table
      (`tasks.forEach(task => database.insert('tasks', task))`): they are
      appended in order, each insert persisting once. */
  method InsertEach(db: Database, tasks: seq<Record>)
    modifies db
    ensures tasks == [] ==> db.tables == old(db.tables) && db.persisted == old(db.persisted)
    ensures tasks != [] ==> db.tables == old(db.tables)[TasksTable := old(db.Rows(TasksTable)) + tasks]
    ensures |db.persisted| == |old(db.persisted)| + |tasks|
  {
    ghost var before := db.Rows(TasksTable);
    var j := 0;
    while j < |tasks|
      invariant 0 <= j <= |tasks|
      invariant db.Rows(TasksTable) == before + tasks[..j]
      invariant j == 0 ==> db.tables == old(db.tables) && db.persisted == old(db.persisted)
      invariant j > 0 ==> db.tables == old(db.tables)[TasksTable := before + tasks[..j]]
      invariant |db.persisted| == |old(db.persisted)| + j
    {
      assert before + tasks[..j + 1] == before + tasks[..j] + [tasks[j]];
      var _ := db.Insert(TasksTable, tasks[j]);
      j := j + 1;
    }
    assert tasks[..j] == tasks;
  }

  /** `POST /tasks/import`: `parsed` is the parser's rows, or None when the
      parser reports an error while it is iterated (500, nothing stored). Each
      row becomes a task; the tasks are appended after the existing ones in
      row order. */
  method ImportTasks(db: Database, parsed: Option<seq<Record>>, drawn: seq<Fresh>) returns (status: Status)
    requires ValidTasks(db.Rows(TasksTable))
    requires parsed.Some? ==> |drawn| == |parsed.value| && FreshIds(drawn, db.Rows(TasksTable))
    modifies db
    ensures ValidTasks(db.Rows(TasksTable))
    ensures parsed.None? ==> status == ServerError && unchanged(db)
    ensures parsed.Some? ==>
              && status == Created
              && db.Rows(TasksTable) == old(db.Rows(TasksTable)) + ImportedTasks(parsed.value, drawn)
              && (parsed.value == [] ==> db.tables == old(db.tables) && db.persisted == old(db.persisted))
              && (parsed.value != [] ==> db.tables == old(db.tables)[TasksTable := db.Rows(TasksTable)])
              && |db.persisted| == |old(db.persisted)| + |parsed.value|
  {
    if parsed.None? {
      return ServerError;
    }
    var tasks := BuildImported(parsed.value, drawn);
    ValidAppendImported(db.Rows(TasksTable), tasks, drawn);
    InsertEach(db, tasks);
    status := Created;
  }
}
