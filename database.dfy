/** `database(name)` of kevlar.db.js (lines 59-65, 98, 102; kevlar.js:241-245):
    makes sure the database directory exists and hands out the three
    collection generators. Each generator call builds a collection with its
    own staged state over the shared disk; nothing is cached per table. */
module Database {
  import opened Wrappers
  import opened Disk
  import opened Associative
  import opened AppendLog
  import opened HourlyLog

  class Db {
    const disk: FileSystem
    const name: string

    /** `ensure_directory_sync(name) -returning- {...}`. */
    constructor (disk: FileSystem, name: string)
      modifies disk
      ensures this.disk == disk && this.name == name
      ensures disk.dirs == old(disk.dirs) + {name}
      ensures disk.files == old(disk.files)
    {
      this.disk := disk;
      this.name := name;
      new;
      disk.EnsureDirectory(name);
    }

    /** `associative(table)`: a fresh table under `name/table`. */
    method AssociativeTable<V>(table: string, stringify: V -> string, parse: string -> Option<V>)
      returns (t: Table<V>)
      modifies disk
      ensures fresh(t) && t.Valid() && t.pending == map[] && t.timers == {}
      ensures t.disk == disk && t.db == name && t.table == table
      ensures disk.dirs == old(disk.dirs) + {name + "/" + table}
      ensures disk.files == old(disk.files)
    {
      t := new Table(disk, name, table, stringify, parse);
    }

    /** `log(table)`: a fresh append log under `name/table`. */
    method LogTable<V(!new)>(table: string, stringify: V -> string) returns (l: Log<V>)
      requires forall v :: '\n' !in stringify(v)
      modifies disk
      ensures fresh(l) && l.Valid() && l.queues == map[] && l.timers == {}
      ensures l.disk == disk && l.db == name && l.table == table
      ensures disk.dirs == old(disk.dirs) + {name + "/" + table}
      ensures disk.files == old(disk.files)
    {
      l := new Log(disk, name, table, stringify);
    }

    /** `hourly_log(table)`: a fresh hourly log over a fresh append log. */
    method HourlyTable<V(!new)>(table: string, stringify: V -> string) returns (h: Hourly<V>)
      requires forall v :: '\n' !in stringify(v)
      modifies disk
      ensures fresh(h) && fresh(h.log) && h.log.Valid() && h.log.queues == map[] && h.log.timers == {}
      ensures h.log.disk == disk && h.log.db == name && h.log.table == table
      ensures disk.dirs == old(disk.dirs) + {name + "/" + table}
      ensures disk.files == old(disk.files)
    {
      h := new Hourly(disk, name, table, stringify);
    }
  }

  /** Two tables of the same name from one database share the disk but not
      their staged writes: a write staged in one is not pending in the
      other. */
  method TablesDoNotShareState(db: Db, table: string, key: string, v: int)
    returns (inFirst: bool, inSecond: bool)
    modifies db.disk
    ensures inFirst && !inSecond
  {
    var s := (x: int) => "";
    var p := (x: string) => None;
    var t1 := db.AssociativeTable(table, s, p);
    var t2 := db.AssociativeTable(table, s, p);
    t1.SetContents(key, v);
    inFirst, inSecond := key in t1.pending, key in t2.pending;
  }
}
