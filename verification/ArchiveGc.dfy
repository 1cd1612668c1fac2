/**
  backend/core/gc.py, `archive_old_artifacts`: moving old artifact files into the archive while
  the version rows follow them.

  The file system is a map from paths to contents.  Which moves fail and the random suffixes
  are inputs; moving onto an existing file replaces it.
 */
module ArchiveGc {
  import opened Wrappers

  type Id = string
  type Content = string

  datatype Path = Path(dir: string, name: string)

  datatype Version = Version(path: Path, sizeBytes: Option<nat>, jobId: string)

  datatype Job = Job(done: bool, updatedAt: int)

  datatype Disk = Disk(files: map<Path, Content>, rows: map<Id, Version>)

  /** One fetched row. */
  datatype Item = Item(id: Id, path: Path, sizeBytes: Option<nat>, jobId: string)

  /** Destination root, random suffix of each version and the versions whose move raises. */
  datatype Env = Env(root: string, token: Id -> string, fails: set<Id>)

  datatype Progress = Progress(disk: Disk, filesMoved: nat, bytesMoved: nat, errors: nat)

  /** Position of the dot that starts the suffix, or the length when there is no suffix. */
  function SuffixAt(name: string): (i: nat)
    ensures i <= |name|
  {
    var dot := LastDot(name, |name|);
    if 0 < dot < |name| - 1 then dot else |name|
  }

  function LastDot(name: string, n: nat): (i: int)
    requires n <= |name|
    ensures -1 <= i < n
  {
    if n == 0 then -1 else if name[n - 1] == '.' then n - 1 else LastDot(name, n - 1)
  }

  function WithToken(name: string, token: string): string {
    name[..SuffixAt(name)] + "_" + token + name[SuffixAt(name)..]
  }

  function JobDir(root: string, jobId: string): string { root + "/" + jobId }

  function Destination(files: map<Path, Content>, item: Item, env: Env): Path {
    var dir := JobDir(env.root, item.jobId);
    if Path(dir, item.path.name) in files then Path(dir, WithToken(item.path.name, env.token(item.id)))
    else Path(dir, item.path.name)
  }

  function Move(files: map<Path, Content>, src: Path, dest: Path): map<Path, Content>
    requires src in files
  {
    (files - {src})[dest := files[src]]
  }

  predicate Moves(p: Progress, item: Item, env: Env) {
    item.path in p.disk.files && item.id !in env.fails
  }

  function ArchiveOne(p: Progress, item: Item, env: Env): Progress {
    var files, rows := p.disk.files, p.disk.rows;
    if item.path !in files then p
    else if item.id in env.fails then p.(errors := p.errors + 1)
    else
      var dest := Destination(files, item, env);
      Progress(
        Disk(Move(files, item.path, dest),
             if item.id in rows then rows[item.id := rows[item.id].(path := dest)] else rows),
        p.filesMoved + 1,
        p.bytesMoved + if item.sizeBytes.Some? then item.sizeBytes.value else 0,
        p.errors)
  }

  function ArchiveAll(p: Progress, items: seq<Item>, env: Env): Progress
    decreases items
  {
    if items == [] then p else ArchiveAll(ArchiveOne(p, items[0], env), items[1..], env)
  }

  predicate Eligible(jobs: map<string, Job>, row: Version, cutoff: int) {
    row.jobId in jobs && jobs[row.jobId].done && jobs[row.jobId].updatedAt < cutoff
  }

  /** The result set of the query, in any order, read before anything moves. */
  ghost predicate Fetched(items: seq<Item>, rows: map<Id, Version>, jobs: map<string, Job>, cutoff: int) {
    && Current(items, rows)
    && forall id :: id in rows ==> (Selected(items, id) <==> Eligible(jobs, rows[id], cutoff))
  }

  predicate Selected(items: seq<Item>, id: Id) {
    exists i :: 0 <= i < |items| && items[i].id == id
  }

  /** The items are distinct rows and say what those rows say. */
  ghost predicate Current(items: seq<Item>, rows: map<Id, Version>) {
    && (forall i :: 0 <= i < |items| ==>
          && items[i].id in rows && items[i].path == rows[items[i].id].path
          && items[i].jobId == rows[items[i].id].jobId && items[i].sizeBytes == rows[items[i].id].sizeBytes)
    && (forall i, j :: 0 <= i < j < |items| ==> items[i].id != items[j].id)
  }

  // ---------------------------------------------------------------- the class

  class GarbageCollector {
    var files: map<Path, Content>
    var rows: map<Id, Version>

    ghost function State(): Disk
      reads this
    {
      Disk(files, rows)
    }

    constructor (files: map<Path, Content>, rows: map<Id, Version>)
      ensures State() == Disk(files, rows)
    {
      this.files, this.rows := files, rows;
    }

    method ArchiveOldArtifacts(items: seq<Item>, env: Env) returns (filesMoved: nat, bytesMoved: nat, errors: nat)
      modifies this
      ensures Progress(State(), filesMoved, bytesMoved, errors)
              == ArchiveAll(Progress(old(State()), 0, 0, 0), items, env)
    {
      filesMoved, bytesMoved, errors := 0, 0, 0;
      for i := 0 to |items|
        invariant ArchiveAll(Progress(State(), filesMoved, bytesMoved, errors), items[i..], env)
                  == ArchiveAll(Progress(old(State()), 0, 0, 0), items, env)
      {
        var item := items[i];
        assert items[i..][1..] == items[i + 1..];
        if item.path !in files {
          continue;
        }
        var dest := Path(JobDir(env.root, item.jobId), item.path.name);
        if dest in files {
          dest := Path(dest.dir, WithToken(item.path.name, env.token(item.id)));
        }
        if item.id in env.fails {
          errors := errors + 1;
        } else {
          files := Move(files, item.path, dest);
          filesMoved := filesMoved + 1;
          bytesMoved := bytesMoved + if item.sizeBytes.Some? then item.sizeBytes.value else 0;
          if item.id in rows {
            rows := rows[item.id := rows[item.id].(path := dest)];
          }
        }
      }
    }
  }

  // -------------------------------------------------------------- properties

  /** These rows have existing files, no two of them the same one. */
  ghost predicate Live(d: Disk, ids: set<Id>) {
    && (forall id :: id in ids ==> id in d.rows && d.rows[id].path in d.files)
    && (forall a, b :: a in ids && b in ids && a != b ==> d.rows[a].path != d.rows[b].path)
  }

  function ContentOf(d: Disk, id: Id): Content
    requires id in d.rows && d.rows[id].path in d.files
  {
    d.files[d.rows[id].path]
  }

  /** The random names are unused when they are needed. */
  predicate TokensFree(p: Progress, items: seq<Item>, env: Env)
    decreases items
  {
    items != [] ==>
      && (Moves(p, items[0], env) ==> Destination(p.disk.files, items[0], env) !in p.disk.files)
      && TokensFree(ArchiveOne(p, items[0], env), items[1..], env)
  }

  /** A single move loses no file exactly when its destination is free. */
  lemma MoveLosesNothingIff(files: map<Path, Content>, src: Path, dest: Path)
    requires src in files && src != dest
    ensures |Move(files, src, dest)| == |files| <==> dest !in files
  {
    var rest := files - {src};
    assert rest.Keys == files.Keys - {src};
    assert Move(files, src, dest).Keys == rest.Keys + {dest};
    assert |rest.Keys| == |files| - 1;
    if dest in files {
      assert rest.Keys + {dest} == rest.Keys;
    }
  }

  /** Every live row keeps its content; everything that does not belong to the item stays put. */
  ghost predicate Preserves(before: Disk, after: Disk, ids: set<Id>)
    requires Live(before, ids)
  {
    && Live(after, ids)
    && (forall id :: id in ids ==> ContentOf(after, id) == ContentOf(before, id))
    && (forall id :: id in ids ==>
          after.rows[id].jobId == before.rows[id].jobId && after.rows[id].sizeBytes == before.rows[id].sizeBytes)
    && |after.files| == |before.files|
    && after.rows.Keys == before.rows.Keys
  }

  lemma StepPreserves(p: Progress, item: Item, env: Env, ids: set<Id>)
    requires Live(p.disk, ids) && item.id in ids && item.path == p.disk.rows[item.id].path
    requires Moves(p, item, env) ==> Destination(p.disk.files, item, env) !in p.disk.files
    ensures var after := ArchiveOne(p, item, env).disk;
            && Preserves(p.disk, after, ids)
            && (forall id :: id in p.disk.rows && id != item.id ==> after.rows[id] == p.disk.rows[id])
            && (forall q :: q in p.disk.files && q != item.path ==>
                  q in after.files && after.files[q] == p.disk.files[q])
  {
    if Moves(p, item, env) {
      MoveLosesNothingIff(p.disk.files, item.path, Destination(p.disk.files, item, env));
    }
  }

  /** The fetched rows are live ones and rows whose file is missing. */
  ghost predicate Within(items: seq<Item>, files: map<Path, Content>, ids: set<Id>) {
    forall i :: 0 <= i < |items| ==> items[i].id in ids || items[i].path !in files
  }

  /** How many of the fetched rows have their file. */
  function Present(files: map<Path, Content>, items: seq<Item>): nat {
    if items == [] then 0 else (if items[0].path in files then 1 else 0) + Present(files, items[1..])
  }

  /** The random names are unused, and no destination is where a later item's missing file should be. */
  predicate Clear(p: Progress, items: seq<Item>, env: Env)
    decreases items
  {
    items != [] ==>
      && (Moves(p, items[0], env) ==>
            && Destination(p.disk.files, items[0], env) !in p.disk.files
            && forall i :: 1 <= i < |items| ==> items[i].path != Destination(p.disk.files, items[0], env))
      && Clear(ArchiveOne(p, items[0], env), items[1..], env)
  }

  lemma {:induction false} PresentAgrees(a: map<Path, Content>, b: map<Path, Content>, items: seq<Item>)
    requires forall i :: 0 <= i < |items| ==> (items[i].path in a <==> items[i].path in b)
    ensures Present(a, items) == Present(b, items)
  {
    if items != [] {
      assert forall i :: 0 <= i < |items| - 1 ==> items[1..][i] == items[i + 1];
      PresentAgrees(a, b, items[1..]);
    }
  }

  lemma RestIsCurrent(p: Progress, items: seq<Item>, env: Env)
    requires items != [] && Current(items, p.disk.rows)
    ensures Current(items[1..], ArchiveOne(p, items[0], env).disk.rows) && !Selected(items[1..], items[0].id)
  {
    assert forall i :: 0 <= i < |items| - 1 ==> items[1..][i] == items[i + 1];
  }

  lemma RestIsWithin(p: Progress, items: seq<Item>, env: Env, ids: set<Id>)
    requires items != [] && Live(p.disk, ids) && Current(items, p.disk.rows)
    requires Within(items, p.disk.files, ids) && Clear(p, items, env)
    ensures var files := ArchiveOne(p, items[0], env).disk.files;
            && Within(items[1..], files, ids)
            && Present(p.disk.files, items[1..]) == Present(files, items[1..])
  {
    var files := ArchiveOne(p, items[0], env).disk.files;
    var rest := items[1..];
    assert forall i :: 0 <= i < |rest| ==> rest[i] == items[i + 1];
    forall i | 0 <= i < |rest| ensures rest[i].path in p.disk.files <==> rest[i].path in files {
      assert items[i + 1].id != items[0].id;
    }
    PresentAgrees(p.disk.files, files, rest);
  }

  lemma RestStaysCurrent(p: Progress, items: seq<Item>, env: Env, ids: set<Id>)
    requires items != [] && Live(p.disk, ids) && Current(items, p.disk.rows)
    requires Within(items, p.disk.files, ids) && Clear(p, items, env)
    ensures var next := ArchiveOne(p, items[0], env);
            && Preserves(p.disk, next.disk, ids)
            && Current(items[1..], next.disk.rows) && Within(items[1..], next.disk.files, ids)
            && !Selected(items[1..], items[0].id)
            && Present(p.disk.files, items[1..]) == Present(next.disk.files, items[1..])
  {
    RestIsCurrent(p, items, env);
    RestIsWithin(p, items, env, ids);
    if items[0].path in p.disk.files {
      StepPreserves(p, items[0], env, ids);
    }
  }

  /**
    One run: every row that had a file of its own still points at that content, no file is lost,
    and every fetched row whose file exists is moved or reported.
   */
  lemma {:induction false} ArchiveKeepsContents(p: Progress, items: seq<Item>, env: Env, ids: set<Id>)
    requires Live(p.disk, ids) && Current(items, p.disk.rows)
    requires Within(items, p.disk.files, ids) && Clear(p, items, env)
    ensures Preserves(p.disk, ArchiveAll(p, items, env).disk, ids)
    ensures ArchiveAll(p, items, env).filesMoved + ArchiveAll(p, items, env).errors
            == p.filesMoved + p.errors + Present(p.disk.files, items)
    decreases items
  {
    if items != [] {
      RestStaysCurrent(p, items, env, ids);
      ArchiveKeepsContents(ArchiveOne(p, items[0], env), items[1..], env, ids);
    }
  }

  /** Rows that were not selected are left exactly as they were. */
  lemma {:induction false} OtherRowsUnchanged(p: Progress, items: seq<Item>, env: Env, id: Id)
    requires id in p.disk.rows && !Selected(items, id)
    ensures var after := ArchiveAll(p, items, env).disk;
            id in after.rows && after.rows[id] == p.disk.rows[id]
    decreases items
  {
    if items != [] {
      assert items[0].id != id;
      assert forall i :: 0 <= i < |items| - 1 ==> items[1..][i] == items[i + 1];
      OtherRowsUnchanged(ArchiveOne(p, items[0], env), items[1..], env, id);
    }
  }

  /** Files that no selected row points to stay where they are, with their content. */
  lemma {:induction false} OtherFilesUnchanged(p: Progress, items: seq<Item>, env: Env, q: Path)
    requires q in p.disk.files && TokensFree(p, items, env)
    requires forall i :: 0 <= i < |items| ==> items[i].path != q
    ensures var after := ArchiveAll(p, items, env).disk;
            q in after.files && after.files[q] == p.disk.files[q]
    decreases items
  {
    if items != [] {
      assert forall i :: 0 <= i < |items| - 1 ==> items[1..][i] == items[i + 1];
      OtherFilesUnchanged(ArchiveOne(p, items[0], env), items[1..], env, q);
    }
  }

  /** The job is known, done, and was last updated before the cutoff. */
  predicate IsOld(jobs: map<string, Job>, jobId: string, cutoff: int) {
    jobId in jobs && jobs[jobId].done && jobs[jobId].updatedAt < cutoff
  }

  /** What a run over the result of the query does to the whole table. */
  lemma ArchiveRun(d: Disk, items: seq<Item>, jobs: map<string, Job>, cutoff: int, env: Env, ids: set<Id>)
    requires Fetched(items, d.rows, jobs, cutoff) && Live(d, ids)
    requires Within(items, d.files, ids) && Clear(Progress(d, 0, 0, 0), items, env)
    ensures var after := ArchiveAll(Progress(d, 0, 0, 0), items, env);
            && Preserves(d, after.disk, ids)
            && after.filesMoved + after.errors == Present(d.files, items)
            && (forall id :: id in d.rows && !IsOld(jobs, d.rows[id].jobId, cutoff) ==>
                  after.disk.rows[id] == d.rows[id])
            && (forall id :: id in ids && id !in env.fails && IsOld(jobs, d.rows[id].jobId, cutoff) ==>
                  after.disk.rows[id].path.dir == env.root + "/" + d.rows[id].jobId)
  {
    var p := Progress(d, 0, 0, 0);
    ArchiveKeepsContents(p, items, env, ids);
    forall id | id in ids && id !in env.fails && IsOld(jobs, d.rows[id].jobId, cutoff)
      ensures ArchiveAll(p, items, env).disk.rows[id].path.dir == env.root + "/" + d.rows[id].jobId
    {
      assert Selected(items, id);
      var k :| 0 <= k < |items| && items[k].id == id;
      ArchivedIntoJobDir(p, items, env, ids, k);
    }
    forall id | id in d.rows && !Eligible(jobs, d.rows[id], cutoff)
      ensures ArchiveAll(p, items, env).disk.rows[id] == d.rows[id]
    {
      OtherRowsUnchanged(p, items, env, id);
    }
  }

  /** A selected row that has its file, and whose move does not fail, ends up in the directory of its job. */
  lemma {:induction false} ArchivedIntoJobDir(p: Progress, items: seq<Item>, env: Env, ids: set<Id>, k: nat)
    requires Live(p.disk, ids) && Current(items, p.disk.rows)
    requires Within(items, p.disk.files, ids) && Clear(p, items, env)
    requires k < |items| && items[k].path in p.disk.files && items[k].id !in env.fails
    ensures var after := ArchiveAll(p, items, env).disk;
            && items[k].id in after.rows && after.rows[items[k].id].path.dir == env.root + "/" + items[k].jobId
            && after.rows[items[k].id].path.name in {items[k].path.name,
                                                     WithToken(items[k].path.name, env.token(items[k].id))}
    decreases items
  {
    var next := ArchiveOne(p, items[0], env);
    RestStaysCurrent(p, items, env, ids);
    if k > 0 {
      assert items[1..][k - 1] == items[k] && items[k].id != items[0].id;
      ArchivedIntoJobDir(next, items[1..], env, ids, k - 1);
    } else {
      OtherRowsUnchanged(next, items[1..], env, items[0].id);
    }
  }

  /** Any number of runs, each with its own selection, over rows that are live at the start. */
  datatype RunInput = RunInput(items: seq<Item>, env: Env)

  function AfterRuns(d: Disk, runs: seq<RunInput>): Disk
    decreases runs
  {
    if runs == [] then d
    else AfterRuns(ArchiveAll(Progress(d, 0, 0, 0), runs[0].items, runs[0].env).disk, runs[1..])
  }

  ghost predicate GoodRuns(d: Disk, runs: seq<RunInput>, ids: set<Id>)
    decreases runs
  {
    runs != [] ==>
      var p := Progress(d, 0, 0, 0);
      && Current(runs[0].items, d.rows) && Within(runs[0].items, d.files, ids)
      && Clear(p, runs[0].items, runs[0].env)
      && GoodRuns(ArchiveAll(p, runs[0].items, runs[0].env).disk, runs[1..], ids)
  }

  lemma {:induction false} RunsKeepContents(d: Disk, runs: seq<RunInput>, ids: set<Id>)
    requires Live(d, ids) && GoodRuns(d, runs, ids)
    ensures Preserves(d, AfterRuns(d, runs), ids)
    decreases runs
  {
    if runs != [] {
      var p := Progress(d, 0, 0, 0);
      ArchiveKeepsContents(p, runs[0].items, runs[0].env, ids);
      RunsKeepContents(ArchiveAll(p, runs[0].items, runs[0].env).disk, runs[1..], ids);
    }
  }

  /** A file that is already in the archive takes the collision branch and is renamed again. */
  lemma RearchivingRenames(files: map<Path, Content>, item: Item, env: Env)
    requires item.path in files && item.path.dir == JobDir(env.root, item.jobId)
    ensures Destination(files, item, env) == Path(item.path.dir, WithToken(item.path.name, env.token(item.id)))
    ensures Destination(files, item, env) != item.path
  {
    assert item.path == Path(JobDir(env.root, item.jobId), item.path.name);
    assert |WithToken(item.path.name, env.token(item.id))| > |item.path.name|;
  }

  // ------------------------------------------------------------ shared paths

  predicate HasFile(d: Disk, id: Id) { id in d.rows && d.rows[id].path in d.files }

  /** Every row that had a file still has one, with the content it had. */
  ghost predicate KeepsFiles(before: Disk, after: Disk) {
    forall id :: HasFile(before, id) ==> HasFile(after, id) && ContentOf(after, id) == ContentOf(before, id)
  }

  /** No destination is an existing file or the path of any row. */
  ghost predicate Apart(p: Progress, items: seq<Item>, env: Env)
    decreases items
  {
    items != [] ==>
      && (Moves(p, items[0], env) ==>
            var dest := Destination(p.disk.files, items[0], env);
            dest !in p.disk.files && forall id :: id in p.disk.rows ==> p.disk.rows[id].path != dest)
      && Apart(ArchiveOne(p, items[0], env), items[1..], env)
  }

  ghost predicate Alone(d: Disk, item: Item) {
    forall id :: id in d.rows && id != item.id ==> d.rows[id].path != item.path
  }

  /** No other row, selected or not, has the path of an item that is going to move. */
  ghost predicate Unshared(d: Disk, items: seq<Item>, env: Env) {
    forall i :: 0 <= i < |items| && items[i].path in d.files && items[i].id !in env.fails ==> Alone(d, items[i])
  }

  ghost predicate Says(d: Disk, item: Item) { item.id in d.rows && d.rows[item.id].path == item.path }

  /** One move to a free destination: no row loses its file exactly when no other row shares it. */
  lemma MoveKeepsFilesIff(p: Progress, item: Item, env: Env)
    requires Says(p.disk, item) && Moves(p, item, env)
    requires Destination(p.disk.files, item, env) !in p.disk.files
    ensures KeepsFiles(p.disk, ArchiveOne(p, item, env).disk) <==> Alone(p.disk, item)
  {
    var after := ArchiveOne(p, item, env).disk;
    if id :| id in p.disk.rows && id != item.id && p.disk.rows[id].path == item.path {
      assert HasFile(p.disk, id) && !HasFile(after, id);
    }
  }

  /** A row without a file is skipped and never finds one. */
  lemma {:induction false} StaysDangling(p: Progress, items: seq<Item>, env: Env, id: Id)
    requires Current(items, p.disk.rows) && Apart(p, items, env)
    requires id in p.disk.rows && p.disk.rows[id].path !in p.disk.files
    ensures var after := ArchiveAll(p, items, env).disk;
            id in after.rows && after.rows[id] == p.disk.rows[id] && !HasFile(after, id)
    decreases items
  {
    if items != [] {
      RestIsCurrent(p, items, env);
      StaysDangling(ArchiveOne(p, items[0], env), items[1..], env, id);
    }
  }

  /** When the first item shares its path with nobody, the rest of the run is judged as before. */
  lemma AfterUnshared(p: Progress, items: seq<Item>, env: Env)
    requires items != [] && Current(items, p.disk.rows) && Apart(p, items, env)
    requires Moves(p, items[0], env) && Alone(p.disk, items[0])
    ensures var next := ArchiveOne(p, items[0], env).disk;
            && Current(items[1..], next.rows)
            && (Unshared(next, items[1..], env) <==> Unshared(p.disk, items, env))
            && (forall id :: HasFile(next, id) ==> HasFile(p.disk, id) && ContentOf(next, id) == ContentOf(p.disk, id))
            && KeepsFiles(p.disk, next)
  {
    RestIsCurrent(p, items, env);
    MoveKeepsFilesIff(p, items[0], env);
    var next := ArchiveOne(p, items[0], env).disk;
    assert forall i :: 0 <= i < |items| - 1 ==> items[1..][i] == items[i + 1];
    forall i | 1 <= i < |items|
      ensures items[i].path in next.files <==> items[i].path in p.disk.files
      ensures Alone(next, items[i]) <==> Alone(p.disk, items[i])
    {
      assert items[i].id != items[0].id;
      AloneAfter(p, items[0], items[i], env);
    }
  }

  lemma AloneAfter(p: Progress, moved: Item, other: Item, env: Env)
    requires Says(p.disk, moved) && Says(p.disk, other) && moved.id != other.id && moved.path != other.path
    requires Moves(p, moved, env) && Destination(p.disk.files, moved, env) != other.path
    ensures Alone(ArchiveOne(p, moved, env).disk, other) <==> Alone(p.disk, other)
  {
    var rows, after := p.disk.rows, ArchiveOne(p, moved, env).disk.rows;
    assert after.Keys == rows.Keys;
    assert forall id :: id in rows ==> (after[id].path == other.path <==> rows[id].path == other.path);
  }

  /**
    A whole run, with destinations of their own: every row that had a file keeps it exactly when
    no moved item shares its path with another row, whether that row was selected or not.
   */
  lemma {:induction false} RunKeepsFilesIff(p: Progress, items: seq<Item>, env: Env)
    requires Current(items, p.disk.rows) && Apart(p, items, env)
    ensures KeepsFiles(p.disk, ArchiveAll(p, items, env).disk) <==> Unshared(p.disk, items, env)
    decreases items
  {
    if items != [] {
      var next := ArchiveOne(p, items[0], env);
      if !Moves(p, items[0], env) {
        RestIsCurrent(p, items, env);
        RunKeepsFilesIff(next, items[1..], env);
        assert forall i :: 0 <= i < |items| - 1 ==> items[1..][i] == items[i + 1];
        assert Unshared(p.disk, items, env) <==> Unshared(p.disk, items[1..], env);
      } else if Alone(p.disk, items[0]) {
        AfterUnshared(p, items, env);
        RunKeepsFilesIff(next, items[1..], env);
      } else {
        var id :| id in p.disk.rows && id != items[0].id && p.disk.rows[id].path == items[0].path;
        RestIsCurrent(p, items, env);
        StaysDangling(next, items[1..], env, id);
        assert HasFile(p.disk, id);
      }
    }
  }

  /** The first item with this path whose move does not fail. */
  ghost predicate IsFirstMover(items: seq<Item>, env: Env, q: Path, k: nat) {
    && k < |items| && items[k].path == q && items[k].id !in env.fails
    && forall i :: 0 <= i < k ==> items[i].path != q || items[i].id in env.fails
  }

  /** Of all rows with one path, exactly the first one moved keeps the file; the others dangle. */
  lemma {:induction false} FirstMoverTakesFile(p: Progress, items: seq<Item>, env: Env, q: Path, k: nat, id: Id)
    requires Current(items, p.disk.rows) && Apart(p, items, env)
    requires q in p.disk.files && IsFirstMover(items, env, q, k)
    requires id in p.disk.rows && p.disk.rows[id].path == q
    ensures var after := ArchiveAll(p, items, env).disk;
            && (HasFile(after, id) <==> id == items[k].id)
            && (id == items[k].id ==> ContentOf(after, id) == p.disk.files[q])
    decreases items
  {
    var next := ArchiveOne(p, items[0], env);
    RestIsCurrent(p, items, env);
    assert forall i :: 0 <= i < |items| - 1 ==> items[1..][i] == items[i + 1];
    if k > 0 {
      FirstMoverTakesFile(next, items[1..], env, q, k - 1, id);
    } else if id == items[0].id {
      var dest := Destination(p.disk.files, items[0], env);
      OtherRowsUnchanged(next, items[1..], env, id);
      ApartIsFree(next, items[1..], env);
      OtherFilesUnchanged(next, items[1..], env, dest);
    } else {
      StaysDangling(next, items[1..], env, id);
    }
  }

  lemma {:induction false} ApartIsFree(p: Progress, items: seq<Item>, env: Env)
    requires Apart(p, items, env)
    ensures TokensFree(p, items, env)
    decreases items
  {
    if items != [] {
      ApartIsFree(ArchiveOne(p, items[0], env), items[1..], env);
    }
  }

  /**
    What a destination at the path of a row without a file leads to: that row adopts the file, and
    if it is itself moved later in the run, the row that owned the file is left without.
   */
  lemma AdoptedFileIsTakenAway(p: Progress, items: seq<Item>, env: Env, k: nat)
    requires items != [] && Current(items, p.disk.rows) && Moves(p, items[0], env)
    requires var dest := Destination(p.disk.files, items[0], env);
             dest !in p.disk.files && IsFirstMover(items[1..], env, dest, k)
    requires Apart(ArchiveOne(p, items[0], env), items[1..], env)
    ensures var next, after := ArchiveOne(p, items[0], env).disk, ArchiveAll(p, items, env).disk;
            var adopter := items[k + 1].id;
            && !HasFile(p.disk, adopter) && HasFile(next, adopter)
            && ContentOf(next, adopter) == p.disk.files[items[0].path]
            && HasFile(after, adopter) && !HasFile(after, items[0].id)
  {
    var dest := Destination(p.disk.files, items[0], env);
    var next := ArchiveOne(p, items[0], env);
    RestIsCurrent(p, items, env);
    assert items[1..][k] == items[k + 1] && items[k + 1].id != items[0].id;
    FirstMoverTakesFile(next, items[1..], env, dest, k, items[0].id);
    FirstMoverTakesFile(next, items[1..], env, dest, k, items[k + 1].id);
  }

  // ------------------------------------------------------ counts, places, names

  /** The fetched rows whose file exists and whose move does or does not fail, and their bytes. */
  function Succeeding(files: map<Path, Content>, items: seq<Item>, env: Env): nat {
    if items == [] then 0
    else (if items[0].path in files && items[0].id !in env.fails then 1 else 0) + Succeeding(files, items[1..], env)
  }

  function Failing(files: map<Path, Content>, items: seq<Item>, env: Env): nat {
    if items == [] then 0
    else (if items[0].path in files && items[0].id in env.fails then 1 else 0) + Failing(files, items[1..], env)
  }

  function SucceedingBytes(files: map<Path, Content>, items: seq<Item>, env: Env): nat {
    if items == [] then 0
    else
      (if items[0].path in files && items[0].id !in env.fails && items[0].sizeBytes.Some?
       then items[0].sizeBytes.value else 0)
      + SucceedingBytes(files, items[1..], env)
  }

  lemma {:induction false} CountsAgree(a: map<Path, Content>, b: map<Path, Content>, items: seq<Item>, env: Env)
    requires forall i :: 0 <= i < |items| ==> (items[i].path in a <==> items[i].path in b)
    ensures Succeeding(a, items, env) == Succeeding(b, items, env) && Failing(a, items, env) == Failing(b, items, env)
    ensures SucceedingBytes(a, items, env) == SucceedingBytes(b, items, env)
  {
    if items != [] {
      assert forall i :: 0 <= i < |items| - 1 ==> items[1..][i] == items[i + 1];
      CountsAgree(a, b, items[1..], env);
    }
  }

  lemma RestIsPresent(p: Progress, items: seq<Item>, env: Env, ids: set<Id>)
    requires items != [] && Live(p.disk, ids) && Current(items, p.disk.rows)
    requires Within(items, p.disk.files, ids) && Clear(p, items, env)
    ensures var files := ArchiveOne(p, items[0], env).disk.files;
            forall i :: 0 <= i < |items| - 1 ==> (items[1..][i].path in p.disk.files <==> items[1..][i].path in files)
  {
    var files := ArchiveOne(p, items[0], env).disk.files;
    forall i | 0 <= i < |items| - 1 ensures items[1..][i].path in p.disk.files <==> items[1..][i].path in files {
      assert items[1..][i] == items[i + 1] && items[i + 1].id != items[0].id;
    }
  }

  /** What a run reports: the moves that succeeded, their bytes, and the moves that failed. */
  lemma {:induction false} ArchiveCounts(p: Progress, items: seq<Item>, env: Env, ids: set<Id>)
    requires Live(p.disk, ids) && Current(items, p.disk.rows)
    requires Within(items, p.disk.files, ids) && Clear(p, items, env)
    ensures var after := ArchiveAll(p, items, env);
            && after.filesMoved == p.filesMoved + Succeeding(p.disk.files, items, env)
            && after.errors == p.errors + Failing(p.disk.files, items, env)
            && after.bytesMoved == p.bytesMoved + SucceedingBytes(p.disk.files, items, env)
    decreases items
  {
    if items != [] {
      var next := ArchiveOne(p, items[0], env);
      RestStaysCurrent(p, items, env, ids);
      RestIsPresent(p, items, env, ids);
      CountsAgree(p.disk.files, next.disk.files, items[1..], env);
      ArchiveCounts(next, items[1..], env, ids);
    }
  }

  /** A row whose move fails keeps its path and its file. */
  lemma {:induction false} FailedStays(p: Progress, items: seq<Item>, env: Env, ids: set<Id>, id: Id)
    requires Live(p.disk, ids) && Current(items, p.disk.rows)
    requires Within(items, p.disk.files, ids) && Clear(p, items, env)
    requires id in ids && id in env.fails
    ensures var after := ArchiveAll(p, items, env).disk;
            id in after.rows && after.rows[id] == p.disk.rows[id] && after.rows[id].path in after.files
    decreases items
  {
    if items != [] {
      RestStaysCurrent(p, items, env, ids);
      FailedStays(ArchiveOne(p, items[0], env), items[1..], env, ids, id);
    }
  }

  /** Each job has an archive directory of its own, below the root. */
  lemma JobDirsDiffer(root: string, a: string, b: string)
    ensures JobDir(root, a) == JobDir(root, b) <==> a == b
    ensures root + "/" <= JobDir(root, a)
  {
    var head := root + "/";
    assert JobDir(root, a) == head + a && JobDir(root, b) == head + b;
    assert JobDir(root, a)[|head|..] == a && JobDir(root, b)[|head|..] == b;
  }

  lemma {:induction false} LastDotAfter(stem: string, rest: string, n: nat)
    requires |stem| <= n <= |stem + "." + rest| && '.' !in rest
    ensures n > |stem| ==> LastDot(stem + "." + rest, n) == |stem|
  {
    var name := stem + "." + rest;
    if n > |stem| + 1 {
      assert name[n - 1] == rest[n - 2 - |stem|];
      LastDotAfter(stem, rest, n - 1);
    } else if n == |stem| + 1 {
      assert name[|stem|] == '.';
    }
  }

  lemma {:induction false} NoDot(name: string, n: nat)
    requires n <= |name| && '.' !in name
    ensures LastDot(name, n) == -1
  {
    if n > 0 {
      NoDot(name, n - 1);
    }
  }

  /** A colliding name gets the random token before its suffix, or at its end when it has none. */
  lemma TokenBeforeSuffix(stem: string, suffix: string, token: string)
    requires '.' !in suffix
    ensures stem != "" && suffix != "" ==> WithToken(stem + "." + suffix, token) == stem + "_" + token + "." + suffix
    ensures WithToken(suffix, token) == suffix + "_" + token
    ensures WithToken("." + suffix, token) == "." + suffix + "_" + token
    ensures WithToken(stem + ".", token) == stem + "." + "_" + token
  {
    WholeNameIsStem(suffix, token);
    LastDotAfter("", suffix, |"" + "." + suffix|);
    assert "" + "." + suffix == "." + suffix;
    WholeNameIsStem("." + suffix, token);
    LastDotAfter(stem, "", |stem + "." + ""|);
    assert stem + "." + "" == stem + ".";
    WholeNameIsStem(stem + ".", token);
    var name := stem + "." + suffix;
    LastDotAfter(stem, suffix, |name|);
    NoDot(suffix, |suffix|);
    assert name[..|stem|] == stem && name[|stem|..] == "." + suffix;
    if stem != "" && suffix != "" {
      assert stem + "_" + token + ("." + suffix) == stem + "_" + token + "." + suffix;
    }
  }

  lemma WholeNameIsStem(name: string, token: string)
    ensures SuffixAt(name) == |name| ==> WithToken(name, token) == name + "_" + token
  {
    assert name[..|name|] == name && name[|name|..] == "" && name + "_" + token + "" == name + "_" + token;
  }

  /** A file keeps its name in the archive exactly when that name is free there. */
  lemma FreeNameKept(files: map<Path, Content>, item: Item, env: Env)
    ensures var kept := Path(env.root + "/" + item.jobId, item.path.name);
            Destination(files, item, env) == kept <==> kept !in files
  {
    assert |WithToken(item.path.name, env.token(item.id))| > |item.path.name|;
  }
}
