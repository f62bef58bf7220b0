/** The append log of kevlar.db.js (lines 102-126; bundled again at
    kevlar.js:284-308): each record is JSON-encoded and pushed onto its
    bucket's queue in `queues`, a per-bucket timer in `timeouts` debounces the
    flush, and the timer's `commit` appends the queue, one record per line,
    to the bucket's file. Reading streams the file and rebuilds its lines
    from chunks that may cut a line anywhere (`each_line`).

    As for the associative table, a bucket in `timers` has an armed timer and
    `Commit(bucket)` is the moment it fires, run as one atomic step. */
module AppendLog {
  import opened Wrappers
  import opened Disk
  import opened Newlines

  /** What `find(bucket, each)` comes to. `Visited`: `each` is called on
      these lines, in order. `StreamErrorThrown`: the read stream emits
      'error', for which `each_line` registers no listener, so Node raises it
      as an uncaught exception. */
  datatype FindOutcome = Visited(lines: seq<string>) | StreamErrorThrown

  /** `'#{db}/#{table}/#{bucket}'`: the file of one bucket. */
  function BucketPath(db: string, table: string, bucket: string): string
  {
    db + "/" + table + "/" + bucket
  }

  /** `each_line(stream, f)`: `chunks` are the strings the stream's 'data'
      events deliver, in order, and `emitted` the arguments of the calls to
      `f`, in order. Each chunk is split at its newlines; the first piece
      completes the fragment left over from the previous chunk, the middle
      pieces are whole lines, and the last piece is kept as the new fragment.
      At 'end' the fragment is emitted when it is not empty. When every chunk
      holds a newline, the result is exactly the lines of the whole text, so
      it does not depend on where the stream cut it. */
  method EachLine(chunks: seq<string>) returns (emitted: seq<string>)
    requires forall i | 0 <= i < |chunks| :: '\n' in chunks[i]
    ensures emitted == Lines(Concat(chunks))
  {
    var partial := "";
    emitted := [];
    var i := 0;
    while i < |chunks|
      invariant 0 <= i <= |chunks|
      invariant Split(Concat(chunks[..i])) == emitted + [partial]
    {
      var ps := Split(chunks[i]);
      SplitPieces(chunks[i]);
      ghost var before := Concat(chunks[..i]);
      assert chunks[..i + 1][..i] == chunks[..i];
      assert Concat(chunks[..i + 1]) == before + chunks[i];
      SplitAppend(before, chunks[i]);
      LineStep(emitted, partial, ps, Split(before), Split(before + chunks[i]));
      emitted := emitted + [partial + ps[0]] + ps[1..|ps| - 1];
      partial := ps[|ps| - 1];
      i := i + 1;
    }
    assert chunks[..i] == chunks;
    if |partial| > 0 {
      emitted := emitted + [partial];
    }
  }

  /** Sequence bookkeeping for one 'data' event of `EachLine`. */
  lemma LineStep(emitted: seq<string>, partial: string, ps: seq<string>,
                 before: seq<string>, after: seq<string>)
    requires |ps| > 1
    requires before == emitted + [partial]
    requires after == before[..|before| - 1] + [Last(before) + ps[0]] + ps[1..]
    ensures after == emitted + [partial + ps[0]] + ps[1..|ps| - 1] + [ps[|ps| - 1]]
  {
    assert before[..|before| - 1] == emitted;
    assert ps[1..] == ps[1..|ps| - 1] + [ps[|ps| - 1]];
  }

  /** A bucket file that holds newline-terminated lines and then receives a
      commit of queue `q` reads back as the old lines followed by `q`, in
      push order: the append neither loses nor reorders nor merges lines. */
  lemma CommitReadsBack(old_lines: seq<string>, q: seq<string>)
    requires NoNewlines(old_lines) && NoNewlines(q) && q != []
    ensures Lines(Unlines(old_lines) + Join(q) + "\n") == old_lines + q
  {
    JoinNewlineIsUnlines(q);
    UnlinesAppend(old_lines, q);
    assert Unlines(old_lines) + Join(q) + "\n" == Unlines(old_lines + q);
    assert NoNewlines(old_lines + q) by {
      forall i | 0 <= i < |old_lines + q| ensures '\n' !in (old_lines + q)[i] {
        if i >= |old_lines| {
          assert (old_lines + q)[i] == q[i - |old_lines|];
        }
      }
    }
    LinesUnlines(old_lines + q);
  }

  class Log<V(!new)> {
    const disk: FileSystem
    const db: string
    const table: string
    /** `JSON.stringify`, opaque; its output never holds a raw newline. */
    const stringify: V -> string
    /** `queues`: the lines pushed to each bucket since its last commit. */
    var queues: map<string, seq<string>>
    /** The keys of `timeouts`: buckets with an armed commit timer. */
    var timers: set<string>

    /** A bucket has a queue exactly when its timer is armed; every queue
        holds at least one line and no line holds a newline. */
    ghost predicate Valid()
      reads this
    {
      && queues.Keys == timers
      && (forall b | b in queues :: queues[b] != [] && NoNewlines(queues[b]))
      && (forall v :: '\n' !in stringify(v))
    }

    /** `log_generator_for(db)(table)`: creates the table directory and starts
        with no queues and no timers. */
    constructor (disk: FileSystem, db: string, table: string, stringify: V -> string)
      requires forall v :: '\n' !in stringify(v)
      modifies disk
      ensures Valid() && queues == map[] && timers == {}
      ensures this.disk == disk && this.db == db && this.table == table
      ensures this.stringify == stringify
      ensures disk.dirs == old(disk.dirs) + {db + "/" + table}
      ensures disk.files == old(disk.files)
    {
      this.disk := disk;
      this.db := db;
      this.table := table;
      this.stringify := stringify;
      queues := map[];
      timers := {};
      new;
      disk.EnsureDirectory(db + "/" + table);
    }

    /** `queue_for(bucket)`: the bucket's queue, created empty when absent. */
    method QueueFor(bucket: string) returns (q: seq<string>)
      modifies this`queues
      ensures bucket in queues && q == queues[bucket]
      ensures queues == if bucket in old(queues) then old(queues) else old(queues)[bucket := []]
    {
      if bucket !in queues {
        queues := queues[bucket := []];
      }
      q := queues[bucket];
    }

    /** `schedule_commit_for(bucket)`: arms a timer unless one is armed. */
    method ScheduleCommitFor(bucket: string)
      modifies this`timers
      ensures timers == old(timers) + {bucket}
    {
      if bucket !in timers {
        timers := timers + {bucket};
      }
    }

    /** `append_to_bucket(bucket, line)`: pushes the line at the end of the
        bucket's queue, keeping every line pushed before it, and arms the
        bucket's timer. Other buckets are untouched. */
    method AppendToBucket(bucket: string, line: string)
      requires Valid() && '\n' !in line
      modifies this`queues, this`timers
      ensures Valid()
      ensures queues == old(queues)[bucket := (if bucket in old(queues) then old(queues)[bucket] else []) + [line]]
      ensures timers == old(timers) + {bucket}
    {
      var q := QueueFor(bucket);
      queues := queues[bucket := q + [line]];
      ScheduleCommitFor(bucket);
    }

    /** `result(bucket, stuff)`: appends the record's JSON text. */
    method Append(bucket: string, stuff: V)
      requires Valid()
      modifies this`queues, this`timers
      ensures Valid()
      ensures queues == old(queues)[bucket := (if bucket in old(queues) then old(queues)[bucket] else []) + [stringify(stuff)]]
      ensures timers == old(timers) + {bucket}
    {
      AppendToBucket(bucket, stringify(stuff));
    }

    /** `write_each_queue_item_for(b)`: appends `queue.join('\n') + '\n'` to the
        bucket's file, which keeps its old contents as a prefix. */
    method WriteEachQueueItemFor(b: string)
      requires b in queues
      modifies disk
      ensures disk.files == old(disk.files)[BucketPath(db, table, b) :=
                Contents(old(disk.files), BucketPath(db, table, b)) + (Join(old(queues[b])) + "\n")]
      ensures disk.dirs == old(disk.dirs)
    {
      disk.AppendFile(BucketPath(db, table, b), Join(queues[b]) + "\n");
    }

    /** `commit(bucket)`, run when the bucket's timer fires: appends the
        queued lines, newline-terminated, after the file's old contents, then
        deletes the bucket's queue and timer. No other file, queue or timer
        changes, and every queue left is still non-empty. */
    method Commit(bucket: string)
      requires Valid() && bucket in timers
      modifies this`queues, this`timers, disk
      ensures Valid()
      ensures queues == old(queues) - {bucket}
      ensures timers == old(timers) - {bucket}
      ensures disk.files == old(disk.files)[BucketPath(db, table, bucket) :=
                Contents(old(disk.files), BucketPath(db, table, bucket)) + Unlines(old(queues)[bucket])]
      ensures disk.dirs == old(disk.dirs)
    {
      var q := queues[bucket];
      WriteEachQueueItemFor(bucket);
      JoinNewlineIsUnlines(q);
      queues := queues - {bucket};
      timers := timers - {bucket};
    }

    /** `find(bucket, each)`, through `read_bucket_contents`: streams the
        bucket's file into `each_line`. `chunks` is how the stream cuts the
        file. When the file is missing the stream's unhandled 'error' is
        raised; otherwise the callback sees the file's lines in order. */
    method Find(bucket: string, chunks: seq<string>) returns (r: FindOutcome)
      requires forall i | 0 <= i < |chunks| :: '\n' in chunks[i]
      requires BucketPath(db, table, bucket) in disk.files ==>
               Concat(chunks) == disk.files[BucketPath(db, table, bucket)]
      ensures r.StreamErrorThrown? <==> BucketPath(db, table, bucket) !in disk.files
      ensures r.Visited? ==> r.lines == Lines(disk.files[BucketPath(db, table, bucket)])
    {
      var data := disk.ReadFile(db + "/" + table + "/" + bucket);
      if data.None? {
        return StreamErrorThrown;
      }
      var lines := EachLine(chunks);
      return Visited(lines);
    }
  }

  /** Records appended before one flush come back in append order, after the
      lines already in the file, and nothing else is read back. */
  method AppendThenFind<V(!new)>(log: Log<V>, bucket: string, a: V, b: V,
                           old_lines: seq<string>, chunks: seq<string>)
    returns (visited: FindOutcome)
    requires log.Valid() && bucket !in log.queues && NoNewlines(old_lines)
    requires Contents(log.disk.files, BucketPath(log.db, log.table, bucket)) == Unlines(old_lines)
    requires forall i | 0 <= i < |chunks| :: '\n' in chunks[i]
    requires Concat(chunks) == Unlines(old_lines + [log.stringify(a), log.stringify(b)])
    modifies log`queues, log`timers, log.disk
    ensures visited == Visited(old_lines + [log.stringify(a), log.stringify(b)])
  {
    ghost var q := [log.stringify(a), log.stringify(b)];
    log.Append(bucket, a);
    log.Append(bucket, b);
    assert log.queues[bucket] == q;
    log.Commit(bucket);
    ghost var path := BucketPath(log.db, log.table, bucket);
    UnlinesAppend(old_lines, q);
    assert log.disk.files[path] == Concat(chunks);
    visited := log.Find(bucket, chunks);
    assert NoNewlines(old_lines + q) by {
      forall i | 0 <= i < |old_lines + q| ensures '\n' !in (old_lines + q)[i] {
        if i >= |old_lines| {
          assert (old_lines + q)[i] == q[i - |old_lines|];
        }
      }
    }
    LinesUnlines(old_lines + q);
  }
}
