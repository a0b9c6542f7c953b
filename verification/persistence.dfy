/** `tasks.json` as the store reads and writes it: the raw records
    `json.load` returns, the backfill `load_tasks` applies to old-format
    records, its fall-backs for a missing or empty file, and the encoding
    `save_tasks` writes. The file itself is a parameter: `None` when it does
    not exist, otherwise its decoded top-level object. */
module Persistence {
  import opened Tasks
  import opened Categories
  import opened TaskStore

  /** A task record as found in the file. Each field that an older version
      may not have written is optional: `created` is `created_date`,
      `legacyDate` the old `date` key, and `completedAt` is `None` when the
      `completed_date` key is missing and `Some(None)` when it is null. */
  datatype RawTask = RawTask(
    text: string,
    completed: bool,
    created: Option<string>,
    legacyDate: Option<string>,
    completedAt: Option<Option<string>>)

  /** One key of the file's top-level object with its list of records. */
  datatype RawCategory = RawCategory(name: string, tasks: seq<RawTask>)

  /** A JSON object holds each key once. */
  predicate DistinctKeys(data: seq<RawCategory>)
  {
    forall i, j :: 0 <= i < j < |data| ==> data[i].name != data[j].name
  }

  /** A record written with every field present is one the backfill keeps
      as it is. */
  predicate Complete(t: RawTask)
  {
    t.created.Some? && t.completedAt.Some?
  }

  /** The backfill of one record: a missing `created_date` is taken from
      the old `date` key, or else from the clock reading `now`; a missing
      `completed_date` becomes the creation date for a completed task and
      null otherwise. Fields that are present are kept. */
  function Backfill(t: RawTask, now: string): (r: Task)
    ensures r.text == t.text && r.completed == t.completed
    ensures t.created.Some? ==> r.created == t.created.value
    ensures t.created.None? ==> r.created == (if t.legacyDate.Some? then t.legacyDate.value else now)
    ensures t.completedAt.Some? ==> r.completedAt == t.completedAt.value
    ensures t.completedAt.None? ==> Consistent(r)
    ensures t.completedAt.None? && t.completed ==> r.completedAt == Some(r.created)
  {
    var created := match t.created
      case Some(c) => c
      case None => (match t.legacyDate case Some(d) => d case None => now);
    var completedAt := match t.completedAt
      case Some(c) => c
      case None => if t.completed then Some(created) else None;
    Task(t.text, t.completed, created, completedAt)
  }

  /** How `json.dump` writes a record the store holds: every field present. */
  function Encode(t: Task): RawTask
  {
    RawTask(t.text, t.completed, Some(t.created), None, Some(t.completedAt))
  }

  /** The backfill leaves a fully written record exactly as it was saved. */
  lemma BackfillEncode(t: Task, now: string)
    ensures Complete(Encode(t))
    ensures Backfill(Encode(t), now) == t
  {
  }

  /** A record that already had both dates is read back the same whatever
      the clock says; the clock only matters for records with neither a
      creation date nor an old `date` key. */
  lemma BackfillClock(t: RawTask, now1: string, now2: string)
    ensures t.created.Some? || t.legacyDate.Some? ==> Backfill(t, now1) == Backfill(t, now2)
    ensures t.created.None? && t.legacyDate.None? && now1 != now2 ==>
      Backfill(t, now1) != Backfill(t, now2)
  {
    if t.created.None? && t.legacyDate.None? && now1 != now2 {
      assert Backfill(t, now1).created != Backfill(t, now2).created;
    }
  }

  /** The category entries `load_tasks` keeps: the file's keys in order,
      each list backfilled record by record. */
  function Decode(data: seq<RawCategory>, now: string): (r: seq<Category>)
    ensures |r| == |data|
    ensures forall i :: 0 <= i < |data| ==>
      && r[i].name == data[i].name
      && |r[i].tasks| == |data[i].tasks|
      && forall k :: 0 <= k < |data[i].tasks| ==> r[i].tasks[k] == Backfill(data[i].tasks[k], now)
  {
    seq(|data|, i requires 0 <= i < |data| =>
      Category(data[i].name, seq(|data[i].tasks|, k requires 0 <= k < |data[i].tasks| =>
        Backfill(data[i].tasks[k], now))))
  }

  /** `save_tasks`: the dict as `json.dump` writes it, key by key. */
  function Save(cs: seq<Category>): (r: seq<RawCategory>)
    ensures |r| == |cs|
    ensures forall i :: 0 <= i < |cs| ==>
      && r[i].name == cs[i].name
      && |r[i].tasks| == |cs[i].tasks|
      && forall k :: 0 <= k < |cs[i].tasks| ==> Complete(r[i].tasks[k])
  {
    seq(|cs|, i requires 0 <= i < |cs| =>
      RawCategory(cs[i].name, seq(|cs[i].tasks|, k requires 0 <= k < |cs[i].tasks| =>
        Encode(cs[i].tasks[k]))))
  }

  /** `load_tasks`, given the name `prior` that was current before it ran.
      A missing file seeds the four defaults, with "人" as the second key as
      the handler writes it; an empty object seeds the usual defaults. Any
      other object is kept, backfilled, and `prior` stays current when it is
      one of its keys, the first key becoming current otherwise. */
  function Load(prior: string, file: Option<seq<RawCategory>>, now: string): (r: Store)
    requires file.Some? ==> DistinctKeys(file.value)
    ensures Valid(r)
    ensures file.None? ==> Names(r.categories) == [Work, "人", Study, Other] && r.current == Work
    ensures file.None? || file.value == [] ==>
      r.current == Work && forall i :: 0 <= i < |r.categories| ==> r.categories[i].tasks == []
    ensures file.Some? && file.value == [] ==> r == Store(Defaults, Work)
    ensures file.Some? && file.value != [] ==>
      && r.categories == Decode(file.value, now)
      && (prior in Names(r.categories) ==> r.current == prior)
      && (prior !in Names(r.categories) ==> r.current == file.value[0].name)
  {
    match file
    case None =>
      var cs := Seed("人");
      assert Names(cs) == [Work, "人", Study, Other];
      Store(cs, Work)
    case Some(data) =>
      var cs := Decode(data, now);
      if cs == [] then
        assert Names(Defaults) == [Work, Personal, Study, Other];
        Store(Defaults, Work)
      else
        assert Names(cs)[0] == cs[0].name;
        Store(cs, if prior in Names(cs) then prior else cs[0].name)
  }

  /** At start-up the prior current category is "工作". */
  function Startup(file: Option<seq<RawCategory>>, now: string): (r: Store)
    requires file.Some? ==> DistinctKeys(file.value)
    ensures Valid(r)
    ensures file.Some? && Work in Names(Decode(file.value, now)) ==> r.current == Work
  {
    Load(Work, file, now)
  }

  /** Writing the store and reading it back gives the same store, whatever
      the clock says while reading. */
  lemma LoadSave(s: Store, now: string)
    requires Valid(s)
    ensures DistinctKeys(Save(s.categories))
    ensures Load(s.current, Some(Save(s.categories)), now) == s
  {
    var data := Save(s.categories);
    var cs := Decode(data, now);
    forall i | 0 <= i < |cs| ensures cs[i] == s.categories[i] {
      forall k | 0 <= k < |cs[i].tasks| ensures cs[i].tasks[k] == s.categories[i].tasks[k] {
        BackfillEncode(s.categories[i].tasks[k], now);
      }
    }
    assert cs == s.categories;
  }

  /** Every record in the file that has a `completed_date` key obeys the
      completion-date rule. */
  predicate FileConsistent(data: seq<RawCategory>)
  {
    forall i, k :: 0 <= i < |data| && 0 <= k < |data[i].tasks| && data[i].tasks[k].completedAt.Some? ==>
      (data[i].tasks[k].completed <==> data[i].tasks[k].completedAt.value.Some?)
  }

  /** The backfill makes every old-format record obey the completion-date
      rule, so a loaded store obeys it exactly when the records that already
      had the key did. */
  lemma LoadConsistent(prior: string, file: Option<seq<RawCategory>>, now: string)
    requires file.Some? ==> DistinctKeys(file.value)
    ensures file.None? || FileConsistent(file.value) ==> TasksConsistent(Load(prior, file, now))
    ensures file.Some? && file.value != [] && TasksConsistent(Load(prior, file, now)) ==>
      FileConsistent(file.value)
  {
    var r := Load(prior, file, now);
    if file.Some? && file.value != [] {
      var data := file.value;
      if FileConsistent(data) {
        forall i | 0 <= i < |r.categories| ensures AllConsistent(r.categories[i].tasks) {
          forall u | u in r.categories[i].tasks ensures Consistent(u) {
            var k :| 0 <= k < |r.categories[i].tasks| && r.categories[i].tasks[k] == u;
            assert u == Backfill(data[i].tasks[k], now);
          }
        }
      }
      if TasksConsistent(r) {
        forall i, k | 0 <= i < |data| && 0 <= k < |data[i].tasks| && data[i].tasks[k].completedAt.Some?
          ensures data[i].tasks[k].completed <==> data[i].tasks[k].completedAt.value.Some?
        {
          assert r.categories[i].tasks[k] in r.categories[i].tasks;
        }
      }
    }
  }

  /** Saving what was loaded writes every record in full, so a second load
      of that file changes nothing. */
  lemma LoadSaveLoad(prior: string, file: Option<seq<RawCategory>>, now1: string, now2: string)
    requires file.Some? ==> DistinctKeys(file.value)
    ensures var s := Load(prior, file, now1);
      Load(s.current, Some(Save(s.categories)), now2) == s
  {
    LoadSave(Load(prior, file, now1), now2);
  }
}
