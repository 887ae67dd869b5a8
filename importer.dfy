/**
 * `uploadFile` and `runAllImports`: each import task reads its file,
 * optionally normalises the `date` field of every record, and writes the
 * records to its collection in batches of at most 499; tasks run in order
 * and a task whose file is missing is skipped.
 */
module Importer {
  import opened JsonValues
  import opened DateNormalizer
  import opened DocumentKeys
  import opened Batching
  import opened Firestore

  datatype ImportTask = ImportTask(filePath: string, collectionName: string, shouldConvertDate: bool)

  /** `IMPORT_TASKS`. */
  const ImportTasks: seq<ImportTask> := [
    ImportTask("./event_mock.json", "events", true),
    ImportTask("./MOCK_DATA.json", "users", false)]

  /** The files that exist, each with the array `JSON.parse` makes of its text. */
  type Files = map<string, seq<Record>>

  /** `{...item, date: convertDateString(item.date)}`. */
  function WithConvertedDate(r: Record): Record
  {
    r["date" := DateValue(ConvertDateString(Get(r, "date")))]
  }

  /** `data.map(...)` with the date rewrite. */
  function ConvertDates(rs: seq<Record>): (out: seq<Record>)
    ensures |out| == |rs|
    ensures forall i | 0 <= i < |rs| :: out[i].Keys == rs[i].Keys + {"date"}
    ensures forall i | 0 <= i < |rs| :: out[i]["date"] == DateValue(ConvertDateString(Get(rs[i], "date")))
    ensures forall i, f | 0 <= i < |rs| && f in rs[i] && f != "date" :: out[i][f] == rs[i][f]
    ensures forall i | 0 <= i < |rs| :: ChooseKey(out[i]) == ChooseKey(rs[i])
  {
    seq(|rs|, i requires 0 <= i < |rs| => WithConvertedDate(rs[i]))
  }

  /** A record whose date is absent or falsy gets `date: null`. */
  lemma FalsyDateBecomesNull(rs: seq<Record>, i: nat)
    requires i < |rs| && !Truthy(Get(rs[i], "date"))
    ensures ConvertDates(rs)[i]["date"] == JNull
  {
  }

  /** The date rewrite leaves the number of generated keys as it is. */
  lemma {:induction false} AutoCountSameKeys(rs: seq<Record>, out: seq<Record>)
    requires |out| == |rs|
    requires forall i | 0 <= i < |rs| :: ChooseKey(out[i]) == ChooseKey(rs[i])
    ensures AutoCount(out) == AutoCount(rs)
  {
    if rs != [] {
      AutoCountSameKeys(rs[..|rs| - 1], out[..|out| - 1]);
    }
  }

  /** Running the date rewrite over its own output changes nothing. */
  lemma ConvertDatesIdempotent(rs: seq<Record>)
    ensures ConvertDates(ConvertDates(rs)) == ConvertDates(rs)
  {
    var once := ConvertDates(rs);
    var twice := ConvertDates(once);
    forall i | 0 <= i < |rs|
      ensures twice[i] == once[i]
    {
      ConvertIdempotent(Get(rs[i], "date"));
      assert Get(once[i], "date") == Some(DateValue(ConvertDateString(Get(rs[i], "date"))));
      assert twice[i].Keys == once[i].Keys;
    }
  }

  /** The records a task uploads, when its file exists. */
  function Prepared(task: ImportTask, files: Files): seq<Record>
    requires task.filePath in files
  {
    if task.shouldConvertDate then ConvertDates(files[task.filePath]) else files[task.filePath]
  }

  /** The batches one task commits, generated keys starting at `next`. */
  function TaskCommits(task: ImportTask, files: Files, next: nat): seq<seq<Write>>
  {
    if task.filePath !in files then []
    else Chunks(Assign(task.collectionName, Prepared(task, files), next))
  }

  /** The generated keys one task uses. */
  function TaskAutoCount(task: ImportTask, files: Files): nat
  {
    if task.filePath !in files then 0 else AutoCount(Prepared(task, files))
  }

  /**
   * A task commits its records, each exactly once and in file order, with
   * the key the priority rule gives, generated keys distinct and taken from
   * `next` on, in ⌈n/499⌉ batches of 499 but the last, which is not empty.
   */
  lemma TaskCommitsShape(task: ImportTask, files: Files, next: nat)
    requires task.filePath in files
    ensures var data := Prepared(task, files);
            var cs := TaskCommits(task, files, next);
            var ws := Flatten(cs);
            && |ws| == |data| == |files[task.filePath]|
            && (forall i | 0 <= i < |data| :: ws[i].collection == task.collectionName && ws[i].doc == data[i])
            && (forall i | 0 <= i < |data| ::
                  match ChooseKey(data[i])
                  case UseField(v) => ws[i].key == Given(v)
                  case AutoId => ws[i].key.Generated?)
            && GeneratedDistinct(ws)
            && GeneratedWithin(ws, next, next + TaskAutoCount(task, files))
            && |cs| == (|data| + BatchLimit - 1) / BatchLimit
            && (forall j | 0 <= j < |cs| :: 0 < |cs[j]| <= BatchLimit)
            && (forall j | 0 <= j < |cs| - 1 :: |cs[j]| == BatchLimit)
  {
    var data := Prepared(task, files);
    var ws := Assign(task.collectionName, data, next);
    AssignWrites(task.collectionName, data, next);
    FlattenChunks(ws);
    ChunkCount(ws);
    ChunkSizes(ws);
  }

  /**
   * Tasks run one after another: each commits `commits(task, n)`, where `n`
   * is where the key source stands once the earlier tasks have taken their
   * `used(task)` generated keys.
   */
  function InOrder(tasks: seq<ImportTask>, commits: (ImportTask, nat) -> seq<seq<Write>>, used: ImportTask -> nat, next: nat): seq<seq<Write>>
  {
    if tasks == [] then []
    else
      var init := tasks[..|tasks| - 1];
      InOrder(init, commits, used, next) + commits(tasks[|tasks| - 1], next + UsedInOrder(init, used))
  }

  function UsedInOrder(tasks: seq<ImportTask>, used: ImportTask -> nat): nat
  {
    if tasks == [] then 0
    else UsedInOrder(tasks[..|tasks| - 1], used) + used(tasks[|tasks| - 1])
  }

  /** Running `a` then `b` commits `a`'s batches, then `b`'s with the key source where `a` left it. */
  lemma {:induction false} InOrderAppend(a: seq<ImportTask>, b: seq<ImportTask>, commits: (ImportTask, nat) -> seq<seq<Write>>, used: ImportTask -> nat, next: nat)
    ensures InOrder(a + b, commits, used, next)
            == InOrder(a, commits, used, next) + InOrder(b, commits, used, next + UsedInOrder(a, used))
    ensures UsedInOrder(a + b, used) == UsedInOrder(a, used) + UsedInOrder(b, used)
    decreases |b|
  {
    if b == [] {
      assert a + b == a;
    } else {
      var b' := b[..|b| - 1];
      assert (a + b)[..|a + b| - 1] == a + b';
      assert (a + b)[|a + b| - 1] == b[|b| - 1];
      InOrderAppend(a, b', commits, used, next);
    }
  }

  /** Running the first `i + 1` tasks is running the first `i`, then task `i`. */
  lemma InOrderStep(tasks: seq<ImportTask>, i: nat, commits: (ImportTask, nat) -> seq<seq<Write>>, used: ImportTask -> nat, next: nat)
    requires i < |tasks|
    ensures InOrder(tasks[..i + 1], commits, used, next)
            == InOrder(tasks[..i], commits, used, next) + commits(tasks[i], next + UsedInOrder(tasks[..i], used))
    ensures UsedInOrder(tasks[..i + 1], used) == UsedInOrder(tasks[..i], used) + used(tasks[i])
  {
    assert tasks[..i + 1][..i] == tasks[..i];
  }

  /** One task alone. */
  lemma InOrderSingle(x: ImportTask, commits: (ImportTask, nat) -> seq<seq<Write>>, used: ImportTask -> nat, next: nat)
    ensures InOrder([x], commits, used, next) == commits(x, next)
    ensures UsedInOrder([x], used) == used(x)
  {
    assert [x][..0] == [];
    assert InOrder([x], commits, used, next) == [] + commits(x, next + 0);
    assert UsedInOrder([x], used) == 0 + used(x);
  }

  /** Two tasks run in turn. */
  lemma InOrderPair(x: ImportTask, y: ImportTask, commits: (ImportTask, nat) -> seq<seq<Write>>, used: ImportTask -> nat, next: nat)
    ensures InOrder([x, y], commits, used, next) == commits(x, next) + commits(y, next + used(x))
    ensures UsedInOrder([x, y], used) == used(x) + used(y)
  {
    assert [x, y] == [x] + [y];
    InOrderAppend([x], [y], commits, used, next);
    InOrderSingle(x, commits, used, next);
    InOrderSingle(y, commits, used, next + used(x));
  }

  /** A task that commits nothing and uses no key can be dropped from the list. */
  lemma InOrderSkip(a: seq<ImportTask>, t: ImportTask, b: seq<ImportTask>, commits: (ImportTask, nat) -> seq<seq<Write>>, used: ImportTask -> nat, next: nat)
    requires forall n: nat :: commits(t, n) == []
    requires used(t) == 0
    ensures InOrder(a + [t] + b, commits, used, next) == InOrder(a + b, commits, used, next)
    ensures UsedInOrder(a + [t] + b, used) == UsedInOrder(a + b, used)
  {
    var m := next + UsedInOrder(a, used);
    InOrderSingle(t, commits, used, m);
    assert commits(t, m) == [];
    InOrderAppend(a, [t], commits, used, next);
    InOrderAppend(a + [t], b, commits, used, next);
    InOrderAppend(a, b, commits, used, next);
  }

  /** The batches of a task list, run in order, generated keys starting at `next`. */
  function Plan(tasks: seq<ImportTask>, files: Files, next: nat): seq<seq<Write>>
  {
    InOrder(tasks, CommitsOf(files), UsedOf(files), next)
  }

  function PlanAutoCount(tasks: seq<ImportTask>, files: Files): nat
  {
    UsedInOrder(tasks, UsedOf(files))
  }

  function CommitsOf(files: Files): (ImportTask, nat) -> seq<seq<Write>>
  {
    (t: ImportTask, n: nat) => TaskCommits(t, files, n)
  }

  function UsedOf(files: Files): ImportTask -> nat
  {
    t => TaskAutoCount(t, files)
  }

  /** Running `a` then `b` commits `a`'s batches, then `b`'s with the key source where `a` left it. */
  lemma PlanAppend(a: seq<ImportTask>, b: seq<ImportTask>, files: Files, next: nat)
    ensures Plan(a + b, files, next) == Plan(a, files, next) + Plan(b, files, next + PlanAutoCount(a, files))
    ensures PlanAutoCount(a + b, files) == PlanAutoCount(a, files) + PlanAutoCount(b, files)
  {
    InOrderAppend(a, b, CommitsOf(files), UsedOf(files), next);
  }

  /** One task alone commits its own batches and takes its own generated keys. */
  lemma PlanSingle(t: ImportTask, files: Files, next: nat)
    ensures Plan([t], files, next) == TaskCommits(t, files, next)
    ensures PlanAutoCount([t], files) == TaskAutoCount(t, files)
  {
    InOrderSingle(t, CommitsOf(files), UsedOf(files), next);
    assert CommitsOf(files)(t, next) == TaskCommits(t, files, next);
  }

  /** Running the first `i + 1` tasks is running the first `i`, then task `i`. */
  lemma PlanStep(tasks: seq<ImportTask>, i: nat, files: Files, next: nat)
    requires i < |tasks|
    ensures Plan(tasks[..i + 1], files, next)
            == Plan(tasks[..i], files, next) + TaskCommits(tasks[i], files, next + PlanAutoCount(tasks[..i], files))
    ensures PlanAutoCount(tasks[..i + 1], files) == PlanAutoCount(tasks[..i], files) + TaskAutoCount(tasks[i], files)
  {
    var commits, used := CommitsOf(files), UsedOf(files);
    InOrderStep(tasks, i, commits, used, next);
    var n := next + UsedInOrder(tasks[..i], used);
    assert commits(tasks[i], n) == TaskCommits(tasks[i], files, n);
  }

  /** The log after task `i` has run, given the log after the tasks before it. */
  lemma LogAfterStep(tasks: seq<ImportTask>, i: nat, files: Files, start: nat, base: seq<seq<Write>>, before: seq<seq<Write>>, after: seq<seq<Write>>)
    requires i < |tasks|
    requires before == base + Plan(tasks[..i], files, start)
    requires after == before + TaskCommits(tasks[i], files, start + PlanAutoCount(tasks[..i], files))
    ensures after == base + Plan(tasks[..i + 1], files, start)
  {
    PlanStep(tasks, i, files, start);
  }

  /** A task whose file is missing commits nothing, uses no key, and leaves the later tasks' batches as they were. */
  lemma SkipMissingFile(a: seq<ImportTask>, t: ImportTask, b: seq<ImportTask>, files: Files, next: nat)
    requires t.filePath !in files
    ensures Plan(a + [t] + b, files, next) == Plan(a + b, files, next)
    ensures PlanAutoCount(a + [t] + b, files) == PlanAutoCount(a + b, files)
  {
    InOrderSkip(a, t, b, CommitsOf(files), UsedOf(files), next);
  }

  /** The key-priority block of the upload loop: `item.id` if truthy, else `item.email` if truthy, else `colRef.doc()`. */
  method DocumentRef(db: Store, item: Record) returns (key: Key)
    modifies db
    ensures key == KeyFor(item, old(db.nextAuto))
    ensures db.nextAuto == old(db.nextAuto) + (if NeedsGeneratedKey(item) then 1 else 0)
    ensures db.log == old(db.log)
  {
    if Truthy(Get(item, "id")) {
      key := Given(item["id"]);
    } else if Truthy(Get(item, "email")) {
      key := Given(item["email"]);
    } else {
      key := db.NewDocumentKey();
    }
  }

  /**
   * The upload loop of `uploadFile`: every record is staged in the open
   * batch under its key, and the batch is committed whenever it holds 499
   * writes and once more at the end if it is not empty.
   */
  method UploadRecords(db: Store, collection: string, data: seq<Record>) returns (totalUploaded: nat)
    modifies db
    ensures totalUploaded == |data|
    ensures db.log == old(db.log) + Chunks(Assign(collection, data, old(db.nextAuto)))
    ensures db.nextAuto == old(db.nextAuto) + AutoCount(data)
  {
    ghost var start := db.nextAuto;
    ghost var ws := Assign(collection, data, start);
    var batch := db.NewBatch();
    var count := 0;
    totalUploaded := 0;
    ghost var full := 0;
    ghost var sent := 0;
    for i := 0 to |data|
      invariant totalUploaded == i && sent == BatchLimit * full && i == sent + count && count < BatchLimit
      invariant fresh(batch) && batch.db == db
      invariant db.nextAuto == start + AutoCount(data[..i])
      invariant db.log == old(db.log) + Chunks(ws[..sent])
      invariant batch.ops == ws[sent..i]
    {
      var item := data[i];
      var key := DocumentRef(db, item);
      AssignAt(collection, data, start, i);
      AutoCountStep(data, i);
      SliceSnoc(ws, sent, i);
      assert ws[i] == Write(collection, key, item);
      batch.Set(Write(collection, key, item));
      count := count + 1;
      totalUploaded := totalUploaded + 1;
      if count == BatchLimit {
        CloseBatch(old(db.log), ws, full, sent, i + 1);
        batch.Commit();
        batch := db.NewBatch();
        count := 0;
        full := full + 1;
        sent := i + 1;
      }
    }
    assert data[..|data|] == data;
    assert ws[..|data|] == ws;
    if count > 0 {
      CloseBatch(old(db.log), ws, full, sent, |data|);
      batch.Commit();
    }
  }

  /** The configured run: the events batches first, then the users batches with the key source where the events left it. */
  lemma ImportTasksOrder(files: Files, next: nat)
    ensures var events, users := ImportTasks[0], ImportTasks[1];
            && Plan(ImportTasks, files, next)
               == TaskCommits(events, files, next) + TaskCommits(users, files, next + TaskAutoCount(events, files))
            && PlanAutoCount(ImportTasks, files) == TaskAutoCount(events, files) + TaskAutoCount(users, files)
  {
    var events, users := ImportTasks[0], ImportTasks[1];
    assert ImportTasks == [events, users];
    var commits, used := CommitsOf(files), UsedOf(files);
    InOrderPair(events, users, commits, used, next);
    var n := next + used(events);
    assert commits(events, next) == TaskCommits(events, files, next);
    assert commits(users, n) == TaskCommits(users, files, n);
  }

  /** `uploadFile(task)`; `None` when the file does not exist, else `totalUploaded`. */
  method UploadFile(db: Store, task: ImportTask, files: Files) returns (uploaded: Option<nat>)
    modifies db
    ensures task.filePath !in files ==> uploaded == None
    ensures task.filePath in files ==> uploaded == Some(|files[task.filePath]|)
    ensures db.log == old(db.log) + TaskCommits(task, files, old(db.nextAuto))
    ensures db.nextAuto == old(db.nextAuto) + TaskAutoCount(task, files)
    ensures old(db.Valid()) ==> db.Valid()
  {
    if task.filePath !in files {
      return None;
    }
    var data := files[task.filePath];
    if task.shouldConvertDate {
      data := ConvertDates(data);
    }
    assert data == Prepared(task, files);
    ghost var start := db.nextAuto;
    var totalUploaded := UploadRecords(db, task.collectionName, data);
    AssignWrites(task.collectionName, data, start);
    if old(db.Valid()) {
      FreshAfterAppend(old(db.log), start, Assign(task.collectionName, data, start), AutoCount(data));
    }
    return Some(totalUploaded);
  }

  /** The task loop of `runAllImports`, over any task list. */
  method RunImports(db: Store, tasks: seq<ImportTask>, files: Files)
    modifies db
    ensures old(db.Valid()) ==> db.Valid()
    ensures db.log == old(db.log) + Plan(tasks, files, old(db.nextAuto))
    ensures db.nextAuto == old(db.nextAuto) + PlanAutoCount(tasks, files)
  {
    ghost var start := db.nextAuto;
    for i := 0 to |tasks|
      invariant old(db.Valid()) ==> db.Valid()
      invariant db.log == old(db.log) + Plan(tasks[..i], files, start)
      invariant db.nextAuto == start + PlanAutoCount(tasks[..i], files)
    {
      ghost var before := db.log;
      var uploaded := UploadFile(db, tasks[i], files);
      LogAfterStep(tasks, i, files, start, old(db.log), before, db.log);
      PlanStep(tasks, i, files, start);
    }
    assert tasks[..|tasks|] == tasks;
  }

  /** `runAllImports()`: the configured tasks, events first, then users. */
  method RunAllImports(db: Store, files: Files)
    modifies db
    ensures old(db.Valid()) ==> db.Valid()
    ensures db.log == old(db.log) + Plan(ImportTasks, files, old(db.nextAuto))
    ensures db.nextAuto == old(db.nextAuto) + PlanAutoCount(ImportTasks, files)
  {
    RunImports(db, ImportTasks, files);
  }
}
