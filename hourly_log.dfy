/** The hourly log of kevlar.db.js (lines 98-101; kevlar.js:280-283): an
    append log over the same table whose bucket key is derived from the
    clock at each call, `YYYY.MMDD.HH00`. The clock reading (`new Date()`) is
    a parameter. As the code is written, the `DD` field is `getDay()`, the
    day of the WEEK (0-6), not the day of the month. */
module HourlyLog {
  import opened Wrappers
  import opened Radix
  import opened Disk
  import opened Newlines
  import opened AppendLog

  /** The fields of a `Date` the key reads: `getFullYear()`, `getMonth()`
      (0-11), `getDay()` (0-6, the weekday) and `getHours()` (0-23). */
  datatype Clock = Clock(year: int, month: nat, weekday: nat, hours: nat)

  ghost predicate ValidClock(c: Clock)
  {
    c.month < 12 && c.weekday < 7 && c.hours < 24
  }

  /** `n(x) = x < 10 ? '0#{x}' : x`: two decimal digits for 0..99. */
  function N(x: nat): string
  {
    if x < 10 then "0" + Decimal(x) else Decimal(x)
  }

  lemma NDigits(x: nat)
    requires x < 100
    ensures |N(x)| == 2 && FromRadix(N(x), 10) == x
  {
    FromToRadix(x, 10);
    if x < 10 {
      assert N(x) == ['0', DigitChar(x)];
      DigitValueOfChar(x);
      assert N(x)[..1] == "0";
    } else {
      assert ToRadix(x, 10) == ToRadix(x / 10, 10) + [DigitChar(x % 10)];
    }
  }

  /** The bucket key `now()` computes for a clock reading. */
  function Now(c: Clock): string
  {
    Key(Decimal(c.year), N(c.month + 1), N(c.weekday), N(c.hours))
  }

  lemma NowIsKey(c: Clock)
    ensures Now(c) == Key(Decimal(c.year), N(c.month + 1), N(c.weekday), N(c.hours))
  {
  }

  /** `y.ab.h00`: the key from its year and its three two-digit fields. */
  function Key(y: string, a: string, b: string, h: string): string
  {
    y + "." + a + b + "." + h + "00"
  }

  /** Where the fields sit in `y.ab.h00` when the fields are two characters wide. */
  lemma KeyShape(y: string, a: string, b: string, h: string)
    requires |a| == 2 && |b| == 2 && |h| == 2
    ensures var key := Key(y, a, b, h);
      && |key| == |y| + 10
      && key[..|y|] == y
      && key[|y|] == '.' && key[|y| + 5] == '.'
      && key[|y| + 1..|y| + 3] == a
      && key[|y| + 3..|y| + 5] == b
      && key[|y| + 6..|y| + 8] == h
      && key[|y| + 8..] == "00"
  {
    var t := "." + a + b + "." + h + "00";
    var key := Key(y, a, b, h);
    assert key == y + t;
    assert t[1..3] == a && t[3..5] == b && t[6..8] == h && t[8..] == "00";
    assert key[|y| + 1..|y| + 3] == t[1..3];
    assert key[|y| + 3..|y| + 5] == t[3..5];
    assert key[|y| + 6..|y| + 8] == t[6..8];
    assert key[|y| + 8..] == t[8..];
  }

  /** Equal keys have equal fields. */
  lemma KeyInjective(y1: string, a1: string, b1: string, h1: string,
                     y2: string, a2: string, b2: string, h2: string)
    requires |a1| == |b1| == |h1| == 2 && |a2| == |b2| == |h2| == 2
    requires Key(y1, a1, b1, h1) == Key(y2, a2, b2, h2)
    ensures y1 == y2 && a1 == a2 && b1 == b2 && h1 == h2
  {
    KeyShape(y1, a1, b1, h1);
    KeyShape(y2, a2, b2, h2);
  }

  /** Two keys that differ only in the hour agree before and after it. */
  lemma KeyOutsideHour(y: string, a: string, b: string, h1: string, h2: string)
    requires |a| == |b| == |h1| == |h2| == 2
    ensures Key(y, a, b, h1)[..|y| + 6] == Key(y, a, b, h2)[..|y| + 6]
    ensures Key(y, a, b, h1)[|y| + 8..] == Key(y, a, b, h2)[|y| + 8..]
  {
    var day := y + "." + a + b + ".";
    assert Key(y, a, b, h1) == day + h1 + "00" && Key(y, a, b, h2) == day + h2 + "00";
    HourAfterDay(day, h1);
    HourAfterDay(day, h2);
  }

  lemma HourAfterDay(day: string, h: string)
    requires |h| == 2
    ensures (day + h + "00")[..|day|] == day && (day + h + "00")[|day| + 2..] == "00"
  {
  }

  /** `n` is one-to-one on 0..99. */
  lemma NInjective(x1: nat, x2: nat)
    requires x1 < 100 && x2 < 100 && N(x1) == N(x2)
    ensures x1 == x2
  {
    NDigits(x1);
    NDigits(x2);
  }

  /** The month, weekday and hour of a clock reading are two digits wide. */
  lemma FieldWidths(c: Clock)
    requires ValidClock(c)
    ensures |N(c.month + 1)| == 2 && |N(c.weekday)| == 2 && |N(c.hours)| == 2
  {
    NDigits(c.month + 1);
    NDigits(c.weekday);
    NDigits(c.hours);
  }

  /** The key is `y.ab.h00` built from the year and three two-digit fields
      that read back as month + 1, weekday and hour (`KeyShape` says where
      each sits). */
  lemma NowShape(c: Clock)
    requires ValidClock(c)
    ensures Now(c) == Key(Decimal(c.year), N(c.month + 1), N(c.weekday), N(c.hours))
    ensures |N(c.month + 1)| == 2 && FromRadix(N(c.month + 1), 10) == c.month + 1
    ensures |N(c.weekday)| == 2 && FromRadix(N(c.weekday), 10) == c.weekday
    ensures |N(c.hours)| == 2 && FromRadix(N(c.hours), 10) == c.hours
  {
    NowIsKey(c);
    NDigits(c.month + 1);
    NDigits(c.weekday);
    NDigits(c.hours);
  }

  /** Distinct clock readings, as far as the key's fields go, give distinct
      keys: the key determines year, month, weekday and hour. */
  lemma NowInjective(c1: Clock, c2: Clock)
    requires ValidClock(c1) && ValidClock(c2)
    requires Now(c1) == Now(c2)
    ensures c1 == c2
  {
    FieldWidths(c1);
    FieldWidths(c2);
    NowIsKey(c1);
    NowIsKey(c2);
    KeyInjective(Decimal(c1.year), N(c1.month + 1), N(c1.weekday), N(c1.hours),
                 Decimal(c2.year), N(c2.month + 1), N(c2.weekday), N(c2.hours));
    DecimalInjective(c1.year, c2.year);
    NInjective(c1.month + 1, c2.month + 1);
    NInjective(c1.weekday, c2.weekday);
    NInjective(c1.hours, c2.hours);
  }

  /** Two readings in different hours of the same day give keys built from
      the same year, month and weekday fields (so, by `KeyOutsideHour`, they
      agree before and after the hour), and the keys differ. */
  lemma OnlyHourDiffers(c: Clock, h: nat)
    requires ValidClock(c) && h < 24 && h != c.hours
    ensures var y, a, b := Decimal(c.year), N(c.month + 1), N(c.weekday);
      && Now(c) == Key(y, a, b, N(c.hours))
      && Now(c.(hours := h)) == Key(y, a, b, N(h))
    ensures Now(c) != Now(c.(hours := h))
  {
    var c' := c.(hours := h);
    NowIsKey(c);
    NowIsKey(c');
    if Now(c) == Now(c') {
      NowInjective(c, c');
    }
  }

  class Hourly<V(!new)> {
    /** `log_generator_for(db)(table)`, made afresh for this hourly log. */
    const log: Log<V>

    /** `hourly_log_generator_for(db)(table)`. */
    constructor (disk: FileSystem, db: string, table: string, stringify: V -> string)
      requires forall v :: '\n' !in stringify(v)
      modifies disk
      ensures fresh(log) && log.Valid() && log.queues == map[] && log.timers == {}
      ensures log.disk == disk && log.db == db && log.table == table && log.stringify == stringify
      ensures disk.dirs == old(disk.dirs) + {db + "/" + table}
      ensures disk.files == old(disk.files)
    {
      log := new Log(disk, db, table, stringify);
    }

    /** `given [thing] [log(now(), thing)]`: appends the record to the bucket
        of the hour the clock reads. */
    method Record(clock: Clock, thing: V)
      requires log.Valid()
      modifies log`queues, log`timers
      ensures log.Valid()
      ensures log.queues == old(log.queues)[Now(clock) :=
                (if Now(clock) in old(log.queues) then old(log.queues)[Now(clock)] else [])
                + [log.stringify(thing)]]
      ensures log.timers == old(log.timers) + {Now(clock)}
    {
      log.Append(Now(clock), thing);
    }

    /** `find(bucket, f)`: delegates to the wrapped log. */
    method Find(bucket: string, chunks: seq<string>) returns (r: FindOutcome)
      requires forall i | 0 <= i < |chunks| :: '\n' in chunks[i]
      requires BucketPath(log.db, log.table, bucket) in log.disk.files ==>
               Concat(chunks) == log.disk.files[BucketPath(log.db, log.table, bucket)]
      ensures r.StreamErrorThrown? <==> BucketPath(log.db, log.table, bucket) !in log.disk.files
      ensures r.Visited? ==> r.lines == Lines(log.disk.files[BucketPath(log.db, log.table, bucket)])
    {
      r := log.Find(bucket, chunks);
    }
  }
}
