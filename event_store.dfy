/** The `events` table of `calendar.db` (app.py:24-28), held in memory:
    `id INTEGER PRIMARY KEY AUTOINCREMENT, description TEXT NOT NULL,
    event_time TEXT NOT NULL`, with the three statements the calendar runs on
    it (INSERT, SELECT ... ORDER BY event_time, DELETE ... WHERE id = ?) and
    the `CREATE TABLE IF NOT EXISTS` of `init_db`. */
module EventStore {
  import opened PyStrings
  import opened EventTime

  datatype Event = Event(id: int, description: string, eventTime: string)

  /** SQLite binds a Python `int` only when it fits a signed 64-bit INTEGER;
      otherwise the driver raises `OverflowError` before the statement runs. */
  predicate IsSqliteInteger(n: int) {
    -0x8000_0000_0000_0000 <= n <= 0x7FFF_FFFF_FFFF_FFFF
  }

  // ---------------------------------------------------------------------------
  // ORDER BY event_time: SQLite's BINARY collation on TEXT
  // ---------------------------------------------------------------------------

  /** `a <= b` under BINARY collation: the UTF-8 bytes compared with memcmp,
      a proper prefix first. UTF-8 keeps code point order, so comparing
      characters gives the same answer. */
  predicate TextLe(a: string, b: string) {
    a == [] || (b != [] && (a[0] < b[0] || (a[0] == b[0] && TextLe(a[1..], b[1..]))))
  }

  lemma {:induction false} TextLeTotal(a: string, b: string)
    ensures TextLe(a, b) || TextLe(b, a)
  {
    if a != [] && b != [] && a[0] == b[0] {
      TextLeTotal(a[1..], b[1..]);
    }
  }

  lemma {:induction false} TextLeTrans(a: string, b: string, c: string)
    requires TextLe(a, b) && TextLe(b, c)
    ensures TextLe(a, c)
  {
    if a != [] && a[0] == b[0] && b[0] == c[0] {
      TextLeTrans(a[1..], b[1..], c[1..]);
    }
  }

  lemma {:induction false} TextLeAntisym(a: string, b: string)
    requires TextLe(a, b) && TextLe(b, a)
    ensures a == b
  {
    if a != [] {
      TextLeAntisym(a[1..], b[1..]);
      assert a == [a[0]] + a[1..] && b == [b[0]] + b[1..];
    }
  }

  /** Comparing two texts that start with parts of the same length: the first
      parts decide unless they are equal. */
  lemma {:induction false} TextLeConcat(x1: string, y1: string, x2: string, y2: string)
    requires |x1| == |x2|
    ensures TextLe(x1 + y1, x2 + y2) <==> if x1 == x2 then TextLe(y1, y2) else TextLe(x1, x2)
  {
    if x1 != [] {
      assert (x1 + y1)[1..] == x1[1..] + y1 && (x2 + y2)[1..] == x2[1..] + y2;
      TextLeConcat(x1[1..], y1, x2[1..], y2);
      if x1[0] == x2[0] {
        assert x1 == x2 <==> x1[1..] == x2[1..] by {
          assert x1 == [x1[0]] + x1[1..] && x2 == [x2[0]] + x2[1..];
        }
      }
    } else {
      assert x1 + y1 == y1 && x2 + y2 == y2;
    }
  }

  /** Zero-padded numbers of one width compare as text the way they compare as numbers. */
  lemma {:induction false} PadOrder(a: nat, b: nat, w: nat)
    requires a < Pow10(w) && b < Pow10(w)
    ensures Pad(a, w) == Pad(b, w) <==> a == b
    ensures TextLe(Pad(a, w), Pad(b, w)) <==> a <= b
  {
    if w > 0 {
      PadOrder(a / 10, b / 10, w - 1);
      var ca, cb := DigitChar(a % 10), DigitChar(b % 10);
      TextLeConcat(Pad(a / 10, w - 1), [ca], Pad(b / 10, w - 1), [cb]);
      assert Pad(a, w) == Pad(b, w) <==> Pad(a / 10, w - 1) == Pad(b / 10, w - 1) && ca == cb by {
        if Pad(a, w) == Pad(b, w) {
          assert Pad(a, w)[..w - 1] == Pad(a / 10, w - 1) && Pad(b, w)[..w - 1] == Pad(b / 10, w - 1);
          assert Pad(a, w)[w - 1] == ca && Pad(b, w)[w - 1] == cb;
        }
      }
      assert ca == cb <==> a % 10 == b % 10;
      assert TextLe([ca], [cb]) <==> a % 10 <= b % 10;
    }
  }

  /** Chronological order of two dates and times. */
  predicate ChronoLe(a: DateTime, b: DateTime) {
    a.year < b.year || (a.year == b.year &&
    (a.month < b.month || (a.month == b.month &&
    (a.day < b.day || (a.day == b.day &&
    (a.hour < b.hour || (a.hour == b.hour && a.minute <= b.minute)))))))
  }

  /** On canonical `YYYY-MM-DD HH:MM` texts, text order is chronological order. */
  lemma CanonicalOrderIsChronological(a: DateTime, b: DateTime)
    requires IsValidDateTime(a) && IsValidDateTime(b)
    ensures TextLe(Format(a), Format(b)) <==> ChronoLe(a, b)
  {
    PadOrder(a.year, b.year, 4);
    PadOrder(a.month, b.month, 2);
    PadOrder(a.day, b.day, 2);
    PadOrder(a.hour, b.hour, 2);
    PadOrder(a.minute, b.minute, 2);
    var rmA, rmB := ":" + Pad(a.minute, 2), ":" + Pad(b.minute, 2);
    var rhA, rhB := Pad(a.hour, 2) + rmA, Pad(b.hour, 2) + rmB;
    var rsA, rsB := " " + rhA, " " + rhB;
    var rdA, rdB := Pad(a.day, 2) + rsA, Pad(b.day, 2) + rsB;
    var rd2A, rd2B := "-" + rdA, "-" + rdB;
    var roA, roB := Pad(a.month, 2) + rd2A, Pad(b.month, 2) + rd2B;
    var ro2A, ro2B := "-" + roA, "-" + roB;
    assert Format(a) == Pad(a.year, 4) + ro2A && Format(b) == Pad(b.year, 4) + ro2B;
    TextLeConcat(Pad(a.year, 4), ro2A, Pad(b.year, 4), ro2B);
    TextLeConcat("-", roA, "-", roB);
    TextLeConcat(Pad(a.month, 2), rd2A, Pad(b.month, 2), rd2B);
    TextLeConcat("-", rdA, "-", rdB);
    TextLeConcat(Pad(a.day, 2), rsA, Pad(b.day, 2), rsB);
    TextLeConcat(" ", rhA, " ", rhB);
    TextLeConcat(Pad(a.hour, 2), rmA, Pad(b.hour, 2), rmB);
    TextLeConcat(":", Pad(a.minute, 2), ":", Pad(b.minute, 2));
  }

  /** Texts the time check accepts need not be canonical, and then text order is
      not chronological: "2024-10-01 10:00" sorts before "2024-9-01 10:00" although
      September comes first. */
  lemma NonCanonicalOrderIsNotChronological()
    ensures ParseEventTime("2024-10-01 10:00") == Some(DateTime(2024, 10, 1, 10, 0))
    ensures ParseEventTime("2024-9-01 10:00") == Some(DateTime(2024, 9, 1, 10, 0))
    ensures ChronoLe(DateTime(2024, 9, 1, 10, 0), DateTime(2024, 10, 1, 10, 0))
    ensures !ChronoLe(DateTime(2024, 10, 1, 10, 0), DateTime(2024, 9, 1, 10, 0))
    ensures TextLe("2024-10-01 10:00", "2024-9-01 10:00") && !TextLe("2024-9-01 10:00", "2024-10-01 10:00")
  {
    ParseOctober();
    ParseSeptember();
    MonthTextOrder("2024-10-01 10:00", "2024-9-01 10:00");
  }

  /** The texts agree up to the month, where `1` sorts before `9`. */
  lemma MonthTextOrder(t: string, u: string)
    requires t == "2024-10-01 10:00" && u == "2024-9-01 10:00"
    ensures TextLe(t, u) && !TextLe(u, t)
  {
    assert t[..5] == u[..5] && t[5] < u[5];
    FirstDifference(t, u, 5);
  }

  /** Texts that agree before position `k` and differ there are ordered by
      the characters at `k`. */
  lemma {:induction false} FirstDifference(a: string, b: string, k: nat)
    requires k < |a| && k < |b| && a[..k] == b[..k] && a[k] < b[k]
    ensures TextLe(a, b) && !TextLe(b, a)
  {
    if k > 0 {
      assert a[0] == a[..k][0] == b[..k][0] == b[0];
      assert a[1..][..k - 1] == a[..k][1..] == b[..k][1..] == b[1..][..k - 1];
      FirstDifference(a[1..], b[1..], k - 1);
    }
  }

  // ---------------------------------------------------------------------------
  // The result of SELECT * FROM events ORDER BY event_time
  // ---------------------------------------------------------------------------

  predicate SortedByTime(es: seq<Event>) {
    forall i, j :: 0 <= i < j < |es| ==> TextLe(es[i].eventTime, es[j].eventTime)
  }

  /** A possible answer of the SELECT: the stored records, each once, in
      non-decreasing `event_time` order. SQLite leaves the order of equal
      times open, so this is a relation and not a function. */
  ghost predicate IsTimeOrdering(listing: seq<Event>, rows: seq<Event>) {
    SortedByTime(listing) && multiset(listing) == multiset(rows)
  }

  function InsertByTime(e: Event, es: seq<Event>): (r: seq<Event>)
    ensures multiset(r) == multiset(es) + multiset{e}
  {
    if es == [] then [e]
    else if TextLe(e.eventTime, es[0].eventTime) then [e] + es
    else
      assert es == [es[0]] + es[1..];
      [es[0]] + InsertByTime(e, es[1..])
  }

  /** One concrete ordering, an insertion sort, standing for SQLite's sorter. */
  function SortByTime(es: seq<Event>): (r: seq<Event>)
    ensures multiset(r) == multiset(es)
  {
    if es == [] then []
    else
      assert es == [es[0]] + es[1..];
      InsertByTime(es[0], SortByTime(es[1..]))
  }

  lemma {:induction false} InsertByTimeSorted(e: Event, es: seq<Event>)
    requires SortedByTime(es)
    ensures SortedByTime(InsertByTime(e, es))
  {
    if es == [] {
    } else if TextLe(e.eventTime, es[0].eventTime) {
      forall j | 0 < j < |es| ensures TextLe(e.eventTime, es[j].eventTime) {
        TextLeTrans(e.eventTime, es[0].eventTime, es[j].eventTime);
      }
    } else {
      TextLeTotal(e.eventTime, es[0].eventTime);
      var rest := InsertByTime(e, es[1..]);
      InsertByTimeSorted(e, es[1..]);
      forall k | 0 <= k < |rest| ensures TextLe(es[0].eventTime, rest[k].eventTime) {
        assert rest[k] in multiset(rest);
        if rest[k] != e {
          assert rest[k] in multiset(es[1..]);
          var j :| 0 <= j < |es[1..]| && es[1..][j] == rest[k];
          assert es[j + 1] == rest[k];
        }
      }
    }
  }

  lemma {:induction false} SortByTimeSorted(es: seq<Event>)
    ensures SortedByTime(SortByTime(es))
  {
    if es != [] {
      SortByTimeSorted(es[1..]);
      InsertByTimeSorted(es[0], SortByTime(es[1..]));
    }
  }

  /** A record is listed exactly when it is stored. */
  lemma ListingMembers(listing: seq<Event>, rows: seq<Event>, e: Event)
    requires IsTimeOrdering(listing, rows)
    ensures e in listing <==> e in rows
  {
    assert e in listing <==> e in multiset(listing);
    assert e in rows <==> e in multiset(rows);
  }

  /** `rows` without the records whose id is `id`, in their stored order. */
  function WithoutId(rows: seq<Event>, id: int): (r: seq<Event>)
    ensures |r| <= |rows|
    ensures forall e :: e in r <==> e in rows && e.id != id
  {
    if rows == [] then []
    else if rows[0].id == id then WithoutId(rows[1..], id)
    else [rows[0]] + WithoutId(rows[1..], id)
  }

  // ---------------------------------------------------------------------------
  // The table
  // ---------------------------------------------------------------------------

  /** The rows' ids ascend strictly in row order, as AUTOINCREMENT issues them. */
  ghost predicate IdsAscending(rows: seq<Event>) {
    forall j, k :: 0 <= j < k < |rows| ==> rows[j].id < rows[k].id
  }

  /** Ids strictly increase along the stored order (the rowid order of an
      AUTOINCREMENT table) and lie below the next id to be assigned. */
  ghost predicate IdsBelow(rows: seq<Event>, nextId: int) {
    && IdsAscending(rows)
    && (forall k :: 0 <= k < |rows| ==> 1 <= rows[k].id < nextId)
  }

  /** The state of `calendar.db` as far as the calendar uses it. */
  class CalendarDb {
    /** Whether the `events` table exists. */
    var hasTable: bool
    /** The records of `events`, in rowid order. */
    var rows: seq<Event>
    /** One more than the largest id ever assigned (SQLite's `sqlite_sequence`). */
    var nextId: int
    /** Every id ever assigned, including those of deleted records. */
    ghost var issued: set<int>

    ghost predicate Valid()
      reads this
    {
      && 1 <= nextId
      && IdsBelow(rows, nextId)
      && (forall i :: i in issued ==> 1 <= i < nextId)
      && (forall k :: 0 <= k < |rows| ==> rows[k].id in issued)
      && (!hasTable ==> rows == [] && issued == {} && nextId == 1)
    }

    /** A `calendar.db` file in which no table has been created yet. */
    constructor ()
      ensures Valid() && !hasTable && rows == [] && nextId == 1 && issued == {}
    {
      hasTable := false;
      rows := [];
      nextId := 1;
      issued := {};
    }

    /** `init_db`: CREATE TABLE IF NOT EXISTS. The first call creates an empty
        table; every later call leaves the records and the id counter alone. */
    method InitDb()
      requires Valid()
      modifies this
      ensures Valid() && hasTable
      ensures old(hasTable) ==> rows == old(rows) && nextId == old(nextId) && issued == old(issued)
      ensures !old(hasTable) ==> rows == [] && nextId == 1 && issued == {}
    {
      hasTable := true;
    }

    /** INSERT INTO events (description, event_time) VALUES (?, ?). The new
        record goes last and gets an id never assigned before, larger than
        every id in the table; nothing else changes. */
    method Insert(description: string, eventTime: string) returns (id: int)
      requires Valid() && hasTable
      modifies this
      ensures Valid() && hasTable
      ensures id == old(nextId) && id !in old(issued)
      ensures forall k :: 0 <= k < |old(rows)| ==> old(rows)[k].id < id
      ensures rows == old(rows) + [Event(id, description, eventTime)]
      ensures nextId == id + 1 && issued == old(issued) + {id}
    {
      id := nextId;
      rows := rows + [Event(id, description, eventTime)];
      nextId := nextId + 1;
      issued := issued + {id};
    }

    /** DELETE FROM events WHERE id = ?. Removes every record with that id and
        no other; an absent id is no error. An id outside SQLite's integer
        range fails to bind, and then nothing changes. Ids are never handed out
        again. */
    method Delete(id: int) returns (ok: bool)
      requires Valid() && hasTable
      modifies this
      ensures Valid() && hasTable
      ensures ok <==> IsSqliteInteger(id)
      ensures rows == if ok then WithoutId(old(rows), id) else old(rows)
      ensures nextId == old(nextId) && issued == old(issued)
    {
      ok := IsSqliteInteger(id);
      if ok {
        var before := rows;
        rows := WithoutId(rows, id);
        WithoutIdAscending(before, id);
        forall k | 0 <= k < |rows| ensures rows[k].id in issued && 1 <= rows[k].id < nextId {
          assert rows[k] in before;
        }
      }
    }

    /** SELECT * FROM events ORDER BY event_time: every stored record once,
        ordered by its time text. Reads the table and changes nothing. */
    method ListByTime() returns (listing: seq<Event>)
      requires Valid() && hasTable
      ensures IsTimeOrdering(listing, rows)
    {
      listing := SortByTime(rows);
      SortByTimeSorted(rows);
    }
  }

  ghost predicate HasId(rows: seq<Event>, id: int) {
    exists k :: 0 <= k < |rows| && rows[k].id == id
  }

  /** Deleting an absent id changes nothing. */
  lemma {:induction false} WithoutAbsentId(rows: seq<Event>, id: int)
    requires !HasId(rows, id)
    ensures WithoutId(rows, id) == rows
  {
    if rows != [] {
      assert rows[0].id != id;
      assert !HasId(rows[1..], id) by {
        forall k | 0 <= k < |rows[1..]| ensures rows[1..][k].id != id {
          assert rows[1..][k] == rows[k + 1];
        }
      }
      WithoutAbsentId(rows[1..], id);
      assert rows == [rows[0]] + rows[1..];
    }
  }

  /** Ids are unique, so a delete removes one record when the id is stored
      and none otherwise. */
  lemma {:induction false} WithoutIdRemovesAtMostOne(rows: seq<Event>, id: int)
    requires IdsAscending(rows)
    ensures |WithoutId(rows, id)| == if HasId(rows, id) then |rows| - 1 else |rows|
  {
    if !HasId(rows, id) {
      WithoutAbsentId(rows, id);
    } else {
      var tail := rows[1..];
      TailAscending(rows);
      if rows[0].id == id {
        assert !HasId(tail, id) by {
          forall k | 0 <= k < |tail| ensures tail[k].id != id {
            assert tail[k] == rows[k + 1];
          }
        }
        WithoutAbsentId(tail, id);
      } else {
        var k :| 0 <= k < |rows| && rows[k].id == id;
        assert tail[k - 1] == rows[k];
        WithoutIdRemovesAtMostOne(tail, id);
      }
    }
  }

  /** Removing rows keeps the ids of the remaining rows ascending. */
  lemma {:induction false} WithoutIdAscending(rows: seq<Event>, id: int)
    requires IdsAscending(rows)
    ensures IdsAscending(WithoutId(rows, id))
  {
    if rows != [] {
      var tail := rows[1..];
      TailAscending(rows);
      WithoutIdAscending(tail, id);
      if rows[0].id != id {
        var rest := WithoutId(tail, id);
        forall e | e in rest ensures rows[0].id < e.id {
          var b :| 0 <= b < |tail| && tail[b] == e;
          assert rows[b + 1] == e;
        }
        ConsAscending(rows[0], rest);
      }
    }
  }

  lemma TailAscending(rows: seq<Event>)
    requires rows != [] && IdsAscending(rows)
    ensures IdsAscending(rows[1..])
  {
    var tail := rows[1..];
    forall a, b | 0 <= a < b < |tail| ensures tail[a].id < tail[b].id {
      assert tail[a] == rows[a + 1] && tail[b] == rows[b + 1];
    }
  }

  lemma ConsAscending(x: Event, rest: seq<Event>)
    requires IdsAscending(rest)
    requires forall e | e in rest :: x.id < e.id
    ensures IdsAscending([x] + rest)
  {
    var r := [x] + rest;
    forall a, b | 0 <= a < b < |r| ensures r[a].id < r[b].id {
      assert r[b] == rest[b - 1] && rest[b - 1] in rest;
      if a > 0 {
        assert r[a] == rest[a - 1];
      }
    }
  }

}
