/** The associative table of kevlar.db.js (lines 65-96; the same code is
    bundled at kevlar.js:247-278): writes are staged in `pending_changes`,
    a per-key timer in `timeouts` debounces them, and the timer's `commit`
    persists the staged value through a temporary file and a rename.

    The timer is not modelled as a clock: a key in `timers` has an armed
    one-shot timer, and `Commit(name)` is the moment it fires. The commit runs
    as one atomic step, although the source clears its in-memory state
    before the asynchronous write and rename complete. */
module Associative {
  import opened Wrappers
  import opened Disk
  import opened Shard

  /** What `read_contents` produces. `Pending`: the staged value, returned
      synchronously (the callback is not called, and `find` discards it);
      `Delivered`: the callback receives the parsed file contents; `Thrown`:
      the read or `JSON.parse` failed and the error is raised. */
  datatype ReadOutcome<V> = Pending(value: V) | Delivered(value: V) | Thrown

  function TableDir(db: string, table: string): string
  {
    db + "/" + table
  }

  function ShardDir(db: string, table: string, name: string): string
  {
    TableDir(db, table) + "/" + PrefixDirectoryFor(name)
  }

  /** `filename` in `write_file_contents`: where the record for `name` lives. */
  function FilePath(db: string, table: string, name: string): string
  {
    ShardDir(db, table, name) + "/" + name
  }

  /** `tempfile`: the record's path followed by '+'. */
  function TempPath(db: string, table: string, name: string): (p: string)
    ensures p != FilePath(db, table, name)
  {
    FilePath(db, table, name) + "+"
  }

  /** A temporary file can be another key's record. `x` and `x+` both end
      in a character that is not numeric, so both live in shard "0", and the
      temporary file of `x` is the record of `x+`. A commit of `x` writes
      over that record and then renames it away, so `x+` loses its record. */
  lemma TempPathIsNeighbourRecord(files: map<string, string>, db: string, table: string, data: string)
    ensures TempPath(db, table, "x") == FilePath(db, table, "x+")
    ensures FilePath(db, table, "x+")
            !in (files - {TempPath(db, table, "x")})[FilePath(db, table, "x") := data]
  {
    NonNumericEndingShard("x");
    NonNumericEndingShard("x+");
    assert FilePath(db, table, "x") != FilePath(db, table, "x+") by {
      assert |FilePath(db, table, "x")| < |FilePath(db, table, "x+")|;
    }
  }

  /** The file map after a temporary file has been renamed over its target. */
  lemma ReplaceFacts(files: map<string, string>, temp: string, target: string, data: string)
    requires temp != target
    ensures target in (files - {temp})[target := data]
    ensures (files - {temp})[target := data][target] == data
    ensures temp !in (files - {temp})[target := data]
  {
  }

  /** Writing the temporary file and renaming it over the target leaves the
      map that dropping any old temporary file and writing the target
      directly would. */
  lemma WriteThenRename(files: map<string, string>, temp: string, target: string, data: string)
    ensures (files[temp := data] - {temp})[target := data] == (files - {temp})[target := data]
  {
  }

  class Table<V> {
    const disk: FileSystem
    const db: string
    const table: string
    /** `JSON.stringify` and `JSON.parse` (None when parsing throws), which
        the model treats as opaque. */
    const stringify: V -> string
    const parse: string -> Option<V>
    /** `pending_changes`: the staged value of each key written since its last commit. */
    var pending: map<string, V>
    /** The keys of `timeouts`: those with an armed commit timer. */
    var timers: set<string>

    /** A key is staged exactly when its timer is armed, so each staged value
        has one commit coming and no timer fires for a key with nothing staged. */
    ghost predicate Valid()
      reads this
    {
      pending.Keys == timers
    }

    /** `associative_generator_for(db)(table)`: creates the table directory
        (`ensure_directory_sync`) and starts with nothing staged. */
    constructor (disk: FileSystem, db: string, table: string,
                 stringify: V -> string, parse: string -> Option<V>)
      modifies disk
      ensures Valid() && pending == map[] && timers == {}
      ensures this.disk == disk && this.db == db && this.table == table
      ensures this.stringify == stringify && this.parse == parse
      ensures disk.dirs == old(disk.dirs) + {TableDir(db, table)}
      ensures disk.files == old(disk.files)
    {
      this.disk := disk;
      this.db := db;
      this.table := table;
      this.stringify := stringify;
      this.parse := parse;
      pending := map[];
      timers := {};
      new;
      disk.EnsureDirectory(TableDir(db, table));
    }

    /** `schedule_commit_for(name)`: arms a timer unless one is armed already,
        so there is never more than one per key and arming twice is arming once. */
    method ScheduleCommitFor(name: string)
      modifies this`timers
      ensures timers == old(timers) + {name}
    {
      if name !in timers {
        timers := timers + {name};
      }
    }

    /** `set_contents(name, value)`, which the table itself (`result(name,
        value)`) calls: stages the value, overwriting any value staged for the
        same key before its timer fired, and arms the key's timer. Other keys
        keep their staged values and timers. */
    method SetContents(name: string, value: V)
      requires Valid()
      modifies this`pending, this`timers
      ensures Valid()
      ensures pending == old(pending)[name := value]
      ensures timers == old(timers) + {name}
      ensures name in old(timers) ==> timers == old(timers)
    {
      pending := pending[name := value];
      ScheduleCommitFor(name);
    }

    /** `with_prefix(name, cc)`: makes sure the key's shard directory exists
        and hands its name on. */
    method WithPrefix(name: string) returns (dir: string)
      modifies disk
      ensures dir == PrefixDirectoryFor(name)
      ensures disk.dirs == old(disk.dirs) + {ShardDir(db, table, name)}
      ensures disk.files == old(disk.files)
    {
      dir := PrefixDirectoryFor(name);
      disk.EnsureDirectory(TableDir(db, table) + "/" + dir);
    }

    /** `write_file_contents(name, v)`: writes the JSON text to `name+` in the
        shard directory and renames it over `name`. The record then holds
        exactly that text, the temporary file is gone, and every other file
        is as it was. */
    method WriteFileContents(name: string, v: V)
      modifies disk
      ensures disk.files
           == (old(disk.files) - {TempPath(db, table, name)})[FilePath(db, table, name) := stringify(v)]
      ensures disk.dirs == old(disk.dirs) + {ShardDir(db, table, name)}
    {
      var prefix := WithPrefix(name);
      var filename := db + "/" + table + "/" + prefix + "/" + name;
      var tempfile := filename + "+";
      assert filename == FilePath(db, table, name);
      assert tempfile == TempPath(db, table, name);
      ghost var before := disk.files;
      disk.WriteFile(tempfile, stringify(v));
      var ok := disk.Rename(tempfile, filename);
      WriteThenRename(before, tempfile, filename, stringify(v));
    }

    /** `commit(name)`, run when the key's timer fires: persists the value
        staged at that moment, then deletes the key's timer and staged value,
        leaving every other key alone. Afterwards the record holds exactly the
        staged value's JSON text and no temporary file remains. */
    method Commit(name: string)
      requires Valid() && name in timers
      modifies this`pending, this`timers, disk
      ensures Valid()
      ensures pending == old(pending) - {name}
      ensures timers == old(timers) - {name}
      ensures disk.files
           == (old(disk.files) - {TempPath(db, table, name)})[FilePath(db, table, name) := stringify(old(pending)[name])]
      ensures disk.files[FilePath(db, table, name)] == stringify(old(pending)[name])
      ensures TempPath(db, table, name) !in disk.files
      ensures disk.dirs == old(disk.dirs) + {ShardDir(db, table, name)}
    {
      var v := pending[name];
      ghost var target, temp := FilePath(db, table, name), TempPath(db, table, name);
      WriteFileContents(name, v);
      ReplaceFacts(old(disk.files), temp, target, stringify(v));
      timers := timers - {name};
      pending := pending - {name};
    }

    /** `read_contents(name, f)`: a staged value is returned at once and no
        file is touched; otherwise the shard directory is ensured and the
        record is read and parsed, and a missing or unparsable record raises. */
    method ReadContents(name: string) returns (r: ReadOutcome<V>)
      modifies disk
      ensures name in pending ==> r == Pending(pending[name]) && unchanged(disk)
      ensures name !in pending ==>
        && disk.dirs == old(disk.dirs) + {ShardDir(db, table, name)}
        && disk.files == old(disk.files)
        && r == (var path := FilePath(db, table, name);
                 if path !in disk.files then Thrown
                 else match parse(disk.files[path])
                      case Some(v) => Delivered(v)
                      case None => Thrown)
    {
      if name in pending {
        return Pending(pending[name]);
      }
      var prefix := WithPrefix(name);
      var data := disk.ReadFile(db + "/" + table + "/" + prefix + "/" + name);
      if data.None? {
        return Thrown;
      }
      match parse(data.value)
      case Some(v) => r := Delivered(v);
      case None => r := Thrown;
    }
  }

  /** Two writes to one key inside the debounce window: a read in between
      sees the latest value without touching the disk (read-your-writes), one
      timer is armed, and its firing persists only the second value. */
  method LastWriteWins<V>(t: Table<V>, name: string, v1: V, v2: V)
    requires t.Valid()
    modifies t`pending, t`timers, t.disk
    ensures t.Valid() && name !in t.pending && name !in t.timers
    ensures FilePath(t.db, t.table, name) in t.disk.files
    ensures t.disk.files[FilePath(t.db, t.table, name)] == t.stringify(v2)
  {
    t.SetContents(name, v1);
    var r1 := t.ReadContents(name);
    assert r1 == Pending(v1);
    t.SetContents(name, v2);
    assert t.timers == old(t.timers) + {name};
    var r2 := t.ReadContents(name);
    assert r2 == Pending(v2);
    t.Commit(name);
  }

  /** After a commit, a table opened afresh over the same directory reads the
      value back from disk, provided `JSON.parse` inverts `JSON.stringify` on it. */
  method Durability<V>(t: Table<V>, name: string, v: V) returns (r: ReadOutcome<V>)
    requires t.Valid()
    requires t.parse(t.stringify(v)) == Some(v)
    modifies t`pending, t`timers, t.disk
    ensures r == Delivered(v)
  {
    t.SetContents(name, v);
    t.Commit(name);
    var reopened := new Table(t.disk, t.db, t.table, t.stringify, t.parse);
    r := reopened.ReadContents(name);
  }
}
