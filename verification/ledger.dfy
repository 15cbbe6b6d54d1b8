/** The device ledger of src/database/db.js: the `device_status` table, keyed
    by serial number, with a modification flag, the time of the last
    modification and the time the row was created. The SQLite engine is
    replaced by a map; `CURRENT_TIMESTAMP` is the `now` argument. */
module DeviceLedger {
  import opened Wrappers
  import opened Text
  import opened Seqs

  /** A timestamp; larger is later. */
  type Time = nat

  /** A row of `device_status` without its key `sn`. `modifyFlag` is the
      INTEGER column (0 until the device is modified, then 1). */
  datatype Row = Row(modifyFlag: int, modifyTime: Option<Time>, createdAt: Time)

  /** A row as `SELECT *` returns it. */
  datatype Device = Device(sn: string, modifyFlag: int, modifyTime: Option<Time>, createdAt: Time)

  /** The table: the primary key `sn` maps to the rest of its row. */
  type Table = map<string, Row>

  function RowOf(d: Device): Row
  {
    Row(d.modifyFlag, d.modifyTime, d.createdAt)
  }

  function SnsOf(devices: seq<Device>): (sns: seq<string>)
    ensures |sns| == |devices|
    ensures forall k :: 0 <= k < |devices| ==> sns[k] == devices[k].sn
  {
    seq(|devices|, k requires 0 <= k < |devices| => devices[k].sn)
  }

  /** The row a fresh insert creates: `modify_flag` defaults to 0,
      `modify_time` is NULL and `created_at` is the insertion time. */
  function FreshRow(now: Time): Row
  {
    Row(0, None, now)
  }

  /** Every row is either unmodified without a time or modified with one. */
  ghost predicate WellFormed(t: Table)
  {
    forall sn :: sn in t ==>
      (t[sn].modifyFlag == 0 && t[sn].modifyTime.None?) ||
      (t[sn].modifyFlag == 1 && t[sn].modifyTime.Some?)
  }

  /** No row has disappeared and no set flag has been cleared. */
  ghost predicate FlagsKept(t: Table, t': Table)
  {
    forall sn :: sn in t ==> sn in t' && (t[sn].modifyFlag == 1 ==> t'[sn].modifyFlag == 1)
  }

  // ---------------------------------------------------------------------
  // Seed parsing: split into lines, trim each, drop the blank ones

  function TrimAll(lines: seq<string>): (r: seq<string>)
    ensures |r| == |lines|
    ensures forall k :: 0 <= k < |lines| ==> r[k] == JsTrim(lines[k])
  {
    seq(|lines|, k requires 0 <= k < |lines| => JsTrim(lines[k]))
  }

  /** JavaScript truthiness of a string. */
  function NotEmpty(s: string): bool
  {
    s != ""
  }

  /** The serials of the seed file's content, in file order. */
  function ParseSeed(content: string): (r: seq<string>)
    ensures forall sn :: sn in r ==> sn != ""
  {
    Filter(TrimAll(Split(content, '\n')), NotEmpty)
  }

  /** Each seed entry is non-empty and has no surrounding white space; a
      string is an entry exactly when it is the non-empty trim of some line;
      and the entries keep the order of the lines. */
  lemma ParseSeedSpec(content: string)
    ensures forall sn :: sn in ParseSeed(content) ==> sn != "" && JsTrim(sn) == sn
    ensures forall x :: x in ParseSeed(content) <==> x != "" && x in TrimAll(Split(content, '\n'))
    ensures Subseq(ParseSeed(content), TrimAll(Split(content, '\n')))
  {
    SeedEntries(Split(content, '\n'));
  }

  lemma SeedEntries(lines: seq<string>)
    ensures forall sn :: sn in Filter(TrimAll(lines), NotEmpty) ==> sn != "" && JsTrim(sn) == sn
    ensures forall x :: x in Filter(TrimAll(lines), NotEmpty) <==> x != "" && x in TrimAll(lines)
    ensures Subseq(Filter(TrimAll(lines), NotEmpty), TrimAll(lines))
  {
    var trimmed := TrimAll(lines);
    forall sn | sn in Filter(trimmed, NotEmpty)
      ensures sn != "" && JsTrim(sn) == sn
    {
      var k :| 0 <= k < |lines| && trimmed[k] == sn;
      TrimIdempotent(lines[k], IsJsSpace);
    }
    FilterSubseq(trimmed, NotEmpty);
  }

  /** A file written as lines separated by '\n' seeds exactly the trimmed,
      non-blank lines, in order: parsing undoes writing the file. */
  lemma ParseSeedOfLines(lines: seq<string>)
    requires |lines| >= 1
    requires forall k :: 0 <= k < |lines| ==> '\n' !in lines[k]
    ensures ParseSeed(Join(lines, '\n')) == Filter(TrimAll(lines), NotEmpty)
  {
    SplitJoin(lines, '\n');
  }

  // ---------------------------------------------------------------------
  // Insert-or-ignore of one serial

  function InsertOrIgnore(t: Table, sn: string, now: Time): (r: Table)
    ensures r.Keys == t.Keys + {sn}
    ensures forall o :: o in t ==> r[o] == t[o]
    ensures sn !in t ==> r[sn] == FreshRow(now)
  {
    if sn in t then t else t[sn := FreshRow(now)]
  }

  /** The table after running the insert statement for each serial in turn. */
  function Imported(t: Table, sns: seq<string>, now: Time): (r: Table)
    ensures r.Keys == t.Keys + (set sn | sn in sns)
    ensures forall sn :: sn in t ==> r[sn] == t[sn]
    ensures forall sn :: sn in r && sn !in t ==> r[sn] == FreshRow(now)
  {
    if sns == [] then t
    else
      var init := sns[..|sns| - 1];
      assert (set sn | sn in sns) == (set sn | sn in init) + {sns[|sns| - 1]};
      InsertOrIgnore(Imported(t, init, now), sns[|sns| - 1], now)
  }

  /** Importing the same list again (at any later time) changes nothing. */
  lemma ImportIdempotent(t: Table, sns: seq<string>, now: Time, later: Time)
    ensures Imported(Imported(t, sns, now), sns, later) == Imported(t, sns, now)
  {
    var once := Imported(t, sns, now);
    var twice := Imported(once, sns, later);
    assert twice.Keys == once.Keys;
  }

  /** Importing keeps every existing row, well-formedness and set flags. */
  lemma ImportKeepsRows(t: Table, sns: seq<string>, now: Time)
    requires WellFormed(t)
    ensures WellFormed(Imported(t, sns, now))
    ensures FlagsKept(t, Imported(t, sns, now))
    ensures forall sn :: sn in Imported(t, sns, now) && sn !in t ==>
      Imported(t, sns, now)[sn].modifyFlag == 0
  {
  }

  // ---------------------------------------------------------------------
  // Mark as modified: set the flag and the modification time of one row

  function Mark(t: Table, sn: string, now: Time): (r: Table)
    ensures r.Keys == t.Keys
  {
    if sn in t then t[sn := t[sn].(modifyFlag := 1, modifyTime := Some(now))] else t
  }

  /** The update touches the row of `sn` only: it sets its flag and time and
      keeps its creation time; no other row changes and no row is added. */
  lemma MarkTouchesOnlyItsRow(t: Table, sn: string, now: Time)
    ensures Mark(t, sn, now).Keys == t.Keys
    ensures forall o :: o in t && o != sn ==> Mark(t, sn, now)[o] == t[o]
    ensures sn in t ==> Mark(t, sn, now)[sn] == Row(1, Some(now), t[sn].createdAt)
  {
  }

  /** Marking a serial that has no row is a silent no-op. */
  lemma MarkMissingIsNoop(t: Table, sn: string, now: Time)
    requires sn !in t
    ensures Mark(t, sn, now) == t
  {
  }

  /** Marking never clears a flag and keeps the table well-formed. */
  lemma MarkKeepsFlags(t: Table, sn: string, now: Time)
    requires WellFormed(t)
    ensures WellFormed(Mark(t, sn, now))
    ensures FlagsKept(t, Mark(t, sn, now))
  {
  }

  /** Marking an already modified serial again overwrites its
      `modify_time`: the last mark's time wins, not the first. */
  lemma MarkOverwritesTime(t: Table, sn: string, first: Time, second: Time)
    requires sn in t
    ensures Mark(Mark(t, sn, first), sn, second)[sn].modifyTime == Some(second)
    ensures Mark(Mark(t, sn, first), sn, second)[sn].modifyFlag == 1
  {
  }

  // ---------------------------------------------------------------------
  // SELECT queries

  /** `devices` is the result of `SELECT * ... ORDER BY created_at DESC`:
      every row exactly once, newest first. Rows with equal `created_at`
      may come in any order. */
  ghost predicate IsListing(t: Table, devices: seq<Device>)
  {
    && |devices| == |t.Keys|
    && NoDups(SnsOf(devices))
    && (forall k :: 0 <= k < |devices| ==> devices[k].sn in t && RowOf(devices[k]) == t[devices[k].sn])
    && (forall sn :: sn in t ==> sn in SnsOf(devices))
    && (forall i, j :: 0 <= i < j < |devices| ==> devices[i].createdAt >= devices[j].createdAt)
  }

  /** `sn` is a row of `rest` created no earlier than any other row of `rest`. */
  predicate IsLatest(t: Table, rest: set<string>, sn: string)
    requires rest <= t.Keys
  {
    sn in rest && forall o :: o in rest ==> t[o].createdAt <= t[sn].createdAt
  }

  lemma LatestExists(t: Table, rest: set<string>)
    requires rest <= t.Keys && rest != {}
    ensures exists sn :: IsLatest(t, rest, sn)
    decreases rest
  {
    var x :| x in rest;
    if rest != {x} {
      LatestExists(t, rest - {x});
      var y :| IsLatest(t, rest - {x}, y);
      if t[x].createdAt <= t[y].createdAt {
        assert IsLatest(t, rest, y);
      } else {
        assert IsLatest(t, rest, x);
      }
    } else {
      assert IsLatest(t, rest, x);
    }
  }

  /** Part way through the listing: `devices` are the rows taken so far,
      each once, and `rest` the rows still to take. */
  ghost predicate Taken(t: Table, rest: set<string>, devices: seq<Device>)
  {
    && rest <= t.Keys
    && |devices| + |rest| == |t.Keys|
    && (forall k :: 0 <= k < |devices| ==>
          devices[k].sn in t && devices[k].sn !in rest && RowOf(devices[k]) == t[devices[k].sn])
    && NoDups(SnsOf(devices))
    && (forall sn :: sn in t ==> sn in rest || sn in SnsOf(devices))
  }

  /** The rows taken are newest first, and no remaining row is newer than
      a row already taken. */
  ghost predicate TakenInOrder(t: Table, rest: set<string>, devices: seq<Device>)
    requires rest <= t.Keys
  {
    && (forall i, j :: 0 <= i < j < |devices| ==> devices[i].createdAt >= devices[j].createdAt)
    && (forall k, sn :: 0 <= k < |devices| && sn in rest ==> devices[k].createdAt >= t[sn].createdAt)
  }

  function DeviceAt(t: Table, sn: string): (d: Device)
    requires sn in t
    ensures d.sn == sn && RowOf(d) == t[sn]
  {
    Device(sn, t[sn].modifyFlag, t[sn].modifyTime, t[sn].createdAt)
  }

  lemma TakeOne(t: Table, rest: set<string>, devices: seq<Device>, sn: string)
    requires Taken(t, rest, devices) && sn in rest
    ensures Taken(t, rest - {sn}, devices + [DeviceAt(t, sn)])
  {
    var taken := devices + [DeviceAt(t, sn)];
    assert |rest - {sn}| == |rest| - 1;
    assert sn !in SnsOf(devices) by {
      forall k | 0 <= k < |devices|
        ensures SnsOf(devices)[k] != sn
      {
        assert devices[k].sn !in rest;
      }
    }
    assert SnsOf(taken) == SnsOf(devices) + [sn];
  }

  /** Taking a newest remaining row keeps the order. */
  lemma TakeLatest(t: Table, rest: set<string>, devices: seq<Device>, sn: string)
    requires rest <= t.Keys && TakenInOrder(t, rest, devices) && IsLatest(t, rest, sn)
    ensures TakenInOrder(t, rest - {sn}, devices + [DeviceAt(t, sn)])
  {
  }

  class Ledger {
    var table: Table

    ghost predicate Valid()
      reads this
    {
      WellFormed(table)
    }

    /** `CREATE TABLE IF NOT EXISTS device_status`, on a new database. */
    constructor ()
      ensures Valid() && table == map[]
    {
      table := map[];
    }

    /** `importInitialData`: `content` is the seed file's text, `None` when
        the file cannot be read (the error is logged and nothing happens). */
    method ImportInitialData(content: Option<string>, now: Time)
      requires Valid()
      modifies this
      ensures Valid()
      ensures content.None? ==> table == old(table)
      ensures content.Some? ==> table == Imported(old(table), ParseSeed(content.value), now)
    {
      if content.Some? {
        var snList := ParseSeed(content.value);
        InsertEach(snList, now);
      }
    }

    /** The prepared `INSERT OR IGNORE` run once per serial, in list order. */
    method InsertEach(snList: seq<string>, now: Time)
      requires Valid()
      modifies this
      ensures Valid()
      ensures table == Imported(old(table), snList, now)
    {
      for i := 0 to |snList|
        invariant table == Imported(old(table), snList[..i], now)
      {
        assert snList[..i + 1][..i] == snList[..i];
        table := InsertOrIgnore(table, snList[i], now);
      }
      assert snList[..|snList|] == snList;
      ImportKeepsRows(old(table), snList, now);
    }

    /** `markModified(sn)`. */
    method MarkModified(sn: string, now: Time)
      requires Valid()
      modifies this
      ensures Valid()
      ensures table == Mark(old(table), sn, now)
    {
      if sn in table {
        table := table[sn := table[sn].(modifyFlag := 1, modifyTime := Some(now))];
      }
      MarkKeepsFlags(old(table), sn, now);
    }

    /** `getAllDevices`: every row, newest `created_at` first. The sort is
        done by the database engine; the loop here picks a newest remaining
        row each time. */
    method AllDevices() returns (devices: seq<Device>)
      ensures IsListing(table, devices)
    {
      var rest := table.Keys;
      devices := [];
      while rest != {}
        invariant rest <= table.Keys
        invariant Taken(table, rest, devices) && TakenInOrder(table, rest, devices)
        decreases |rest|
      {
        LatestExists(table, rest);
        var sn :| IsLatest(table, rest, sn);
        var d := DeviceAt(table, sn);
        TakeOne(table, rest, devices, sn);
        TakeLatest(table, rest, devices, sn);
        devices := devices + [d];
        rest := rest - {sn};
      }
    }

    /** `getUnmodifiedDevices`: the serials whose flag is 0, each once, in
        no particular order. */
    method UnmodifiedDevices() returns (sns: seq<string>)
      ensures NoDups(sns)
      ensures forall sn :: sn in sns <==> sn in table && table[sn].modifyFlag == 0
    {
      var rest := table.Keys;
      sns := [];
      while rest != {}
        invariant rest <= table.Keys
        invariant NoDups(sns)
        invariant forall sn :: sn in sns ==> sn !in rest
        invariant forall sn :: sn in sns <==> sn in table && sn !in rest && table[sn].modifyFlag == 0
        decreases |rest|
      {
        var sn :| sn in rest;
        if table[sn].modifyFlag == 0 {
          sns := sns + [sn];
        }
        rest := rest - {sn};
      }
    }
  }
}
