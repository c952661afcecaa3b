/** `handle_calendar_command` (app.py:76-126): the three calendar commands,
    their parsing, their effect on the `events` table and the text sent back. */
module Calendar {
  import opened PyStrings
  import opened EventTime
  import opened EventStore

  // ---------------------------------------------------------------------------
  // Command keywords and replies
  // ---------------------------------------------------------------------------

  const AddPrefix: string := "add event:"
  const ViewPrefix: string := "view events"
  const DeletePrefix: string := "delete event:"

  const AddUsageMessage: string := "⚠️ Error: Use format -> add event: Description, YYYY-MM-DD HH:MM"
  const DeleteUsageMessage: string := "⚠️ Error: Use format -> delete event: ID"
  const ListingHeader: string := "**📅 Your Scheduled Events:**\n\n"
  const NoEventsMessage: string := "📭 No upcoming events found."
  const HelpMessage: string :=
    "📌 **Commands Available:**\n" +
    "- `add event: Description, YYYY-MM-DD HH:MM`\n" +
    "- `view events`\n" +
    "- `delete event: ID`"

  function AddedMessage(description: string, eventTime: string): string {
    "✅ Event '" + description + "' added for " + eventTime + "."
  }

  function DeletedMessage(id: int): string {
    "🗑️ Event with ID " + IntToString(id) + " deleted."
  }

  /** One line of the listing: `📝 {id}: {description} at {event_time}`. */
  function EventLine(e: Event): string {
    "📝 " + IntToString(e.id) + ": " + e.description + " at " + e.eventTime
  }

  function EventLines(listing: seq<Event>): (r: seq<string>)
    ensures |r| == |listing|
    ensures forall k :: 0 <= k < |listing| ==> r[k] == EventLine(listing[k])
  {
    if listing == [] then [] else [EventLine(listing[0])] + EventLines(listing[1..])
  }

  /** The reply to `view events` for a listing: the empty-calendar notice
      exactly when nothing is stored, and otherwise a text holding every
      record's line. */
  function ViewResponse(listing: seq<Event>): (r: string)
    ensures listing == [] <==> r == NoEventsMessage
    ensures forall k :: 0 <= k < |listing| ==> Contains(r, EventLine(listing[k]))
  {
    if listing == [] then NoEventsMessage
    else
      var body := Join(EventLines(listing), "\n");
      var r := ListingHeader + body;
      assert r[0] != NoEventsMessage[0];
      forall k | 0 <= k < |listing| ensures Contains(r, EventLine(listing[k])) {
        JoinContainsEach(EventLines(listing), "\n", k);
        ContainsAfter(ListingHeader, body, EventLine(listing[k]));
      }
      r
  }

  // ---------------------------------------------------------------------------
  // Parsing the user's text
  // ---------------------------------------------------------------------------

  /** What the handler decides to do with a text, before it touches the table. */
  datatype Command =
    | AddEvent(description: string, eventTime: string)
    | AddUsage
    | ViewEvents
    | DeleteEvent(id: int)
    | DeleteUsage
    | Help

  predicate IsStripped(s: string) {
    s != [] ==> !IsSpace(s[0]) && !IsSpace(s[|s| - 1])
  }

  lemma StripIsStripped(s: string)
    ensures IsStripped(Strip(s))
  {
  }

  /** The `add event:` branch up to the INSERT (app.py:83-87): strip the rest,
      split it at its first comma, strip both halves and check the time with
      strptime. Any failure is the usage hint. An accepted command has a
      description without commas or surrounding whitespace, and a time
      strptime accepts. */
  function ParseAdd(rest: string): (r: Command)
    ensures r.AddEvent? || r.AddUsage?
    ensures r.AddEvent? ==> ',' in rest
    ensures r.AddEvent? ==> ',' !in r.description && IsStripped(r.description)
    ensures r.AddEvent? ==> IsValidEventTime(r.eventTime)
    ensures ',' !in rest ==> r == AddUsage
  {
    var content := Strip(rest);
    StripKeepsOut(rest, ',');
    match SplitOnce(content, ',')
    case None => AddUsage
    case Some((a, b)) =>
      var description := Strip(a);
      StripKeepsOut(a, ',');
      StripIsStripped(a);
      var eventTime := Strip(b);
      if IsValidEventTime(eventTime) then AddEvent(description, eventTime) else AddUsage
  }

  /** A command that may reach the INSERT carries a description without
      commas or surrounding whitespace and a time strptime accepts. */
  predicate IsStorable(c: Command) {
    c.AddEvent? ==> ',' !in c.description && IsStripped(c.description) && IsValidEventTime(c.eventTime)
  }

  /** The `delete event:` branch up to the DELETE (app.py:113): `int()` of
      the stripped rest, or the usage hint when it is not an integer. What it
      accepts and refuses is stated by DeletePaddedInteger, DeleteNeedsInteger
      and DeleteNeedsArgument below. */
  function ParseDelete(rest: string): (r: Command)
    ensures r.DeleteEvent? || r.DeleteUsage?
  {
    match ParseInt(Strip(rest))
    case None => DeleteUsage
    case Some(n) => DeleteEvent(n)
  }

  /** The branch `handle_calendar_command` takes (app.py:78-121). The keyword
      is matched on the lower-cased, stripped text, but the argument is cut
      from the original text at the keyword's length. */
  function ParseCommand(userInput: string): (r: Command)
    ensures IsStorable(r)
  {
    var key := Strip(Lower(userInput));
    if StartsWith(key, AddPrefix) then ParseAdd(Drop(userInput, |AddPrefix|))
    else if StartsWith(key, ViewPrefix) then ViewEvents
    else if StartsWith(key, DeletePrefix) then ParseDelete(Drop(userInput, |DeletePrefix|))
    else Help
  }

  // ---------------------------------------------------------------------------
  // Executing a command
  // ---------------------------------------------------------------------------

  /** The table before and after a command, and the reply, as app.py:89-125
      describe them: an add appends one record with the next id; a view changes
      nothing and lists the records in time order; a delete in SQLite's integer
      range removes the matching records and confirms, one out of range is the
      usage hint; every other case changes nothing. */
  ghost predicate Outcome(c: Command, rows: seq<Event>, nextId: int,
                          rows': seq<Event>, nextId': int, response: string)
  {
    match c
    case AddEvent(d, t) =>
      && rows' == rows + [Event(nextId, d, t)] && nextId' == nextId + 1
      && response == AddedMessage(d, t)
    case ViewEvents =>
      && rows' == rows && nextId' == nextId
      && exists listing :: IsTimeOrdering(listing, rows) && response == ViewResponse(listing)
    case DeleteEvent(n) =>
      && nextId' == nextId
      && (if IsSqliteInteger(n)
          then rows' == WithoutId(rows, n) && response == DeletedMessage(n)
          else rows' == rows && response == DeleteUsageMessage)
    case AddUsage => rows' == rows && nextId' == nextId && response == AddUsageMessage
    case DeleteUsage => rows' == rows && nextId' == nextId && response == DeleteUsageMessage
    case Help => rows' == rows && nextId' == nextId && response == HelpMessage
  }

  /** `handle_calendar_command(user_input)` against an initialised database. */
  method HandleCalendarCommand(db: CalendarDb, userInput: string) returns (response: string)
    requires db.Valid() && db.hasTable
    modifies db
    ensures db.Valid() && db.hasTable
    ensures Outcome(ParseCommand(userInput), old(db.rows), old(db.nextId), db.rows, db.nextId, response)
    ensures ParseCommand(userInput).AddEvent? ==> db.issued == old(db.issued) + {old(db.nextId)}
    ensures !ParseCommand(userInput).AddEvent? ==> db.issued == old(db.issued)
  {
    match ParseCommand(userInput)
    case AddEvent(d, t) =>
      var _ := db.Insert(d, t);
      response := AddedMessage(d, t);
    case AddUsage =>
      response := AddUsageMessage;
    case ViewEvents =>
      var listing := db.ListByTime();
      response := ViewResponse(listing);
    case DeleteEvent(n) =>
      var ok := db.Delete(n);
      response := if ok then DeletedMessage(n) else DeleteUsageMessage;
    case DeleteUsage =>
      response := DeleteUsageMessage;
    case Help =>
      response := HelpMessage;
  }

  // ---------------------------------------------------------------------------
  // Properties
  // ---------------------------------------------------------------------------

  /** Every stored description is free of commas and of surrounding
      whitespace, and every stored time is one strptime accepts. */
  ghost predicate WellFormedRows(rows: seq<Event>) {
    forall k :: 0 <= k < |rows| ==>
      ',' !in rows[k].description && IsStripped(rows[k].description) && IsValidEventTime(rows[k].eventTime)
  }

  /** No command can store a record the add branch would have refused. */
  lemma CommandsKeepRowsWellFormed(c: Command, rows: seq<Event>, nextId: int,
                                   rows': seq<Event>, nextId': int, response: string)
    requires IsStorable(c) && WellFormedRows(rows)
    requires Outcome(c, rows, nextId, rows', nextId', response)
    ensures WellFormedRows(rows')
  {
    match c
    case AddEvent(d, t) =>
      assert rows' == rows + [Event(nextId, d, t)];
    case DeleteEvent(n) =>
      forall k | 0 <= k < |rows'| ensures
        ',' !in rows'[k].description && IsStripped(rows'[k].description) && IsValidEventTime(rows'[k].eventTime)
      {
        assert rows'[k] in rows;
      }
    case _ =>
  }

  /** Only an accepted add and an in-range delete change the table; the
      id counter moves only on an add, by one. */
  lemma OnlyAddAndDeleteChangeTable(c: Command, rows: seq<Event>, nextId: int,
                                    rows': seq<Event>, nextId': int, response: string)
    requires Outcome(c, rows, nextId, rows', nextId', response)
    ensures !c.AddEvent? && !c.DeleteEvent? ==> rows' == rows
    ensures c.AddEvent? <==> nextId' == nextId + 1
    ensures !c.AddEvent? ==> nextId' == nextId
    ensures c.AddEvent? ==> |rows'| == |rows| + 1 && rows'[|rows|].id == nextId
    ensures c.DeleteEvent? ==> |rows'| <= |rows|
  {
  }

  /** A delete leaves exactly the records with other ids. */
  lemma DeleteRemovesExactlyThatId(n: int, rows: seq<Event>, nextId: int,
                                   rows': seq<Event>, nextId': int, response: string)
    requires Outcome(DeleteEvent(n), rows, nextId, rows', nextId', response)
    ensures forall e :: e in rows' <==> e in rows && (e.id != n || !IsSqliteInteger(n))
    ensures response == DeletedMessage(n) <==> IsSqliteInteger(n)
    ensures IdsAscending(rows) && IsSqliteInteger(n) ==>
      |rows'| == if HasId(rows, n) then |rows| - 1 else |rows|
  {
    if !IsSqliteInteger(n) {
      assert DeletedMessage(n)[0] != DeleteUsageMessage[0];
    } else if IdsAscending(rows) {
      WithoutIdRemovesAtMostOne(rows, n);
    }
  }

  /** A view answers with the empty-calendar notice exactly when nothing is
      stored, and otherwise with a line for every stored record. */
  lemma ViewShowsEveryRecord(rows: seq<Event>, nextId: int,
                             rows': seq<Event>, nextId': int, response: string)
    requires Outcome(ViewEvents, rows, nextId, rows', nextId', response)
    ensures rows == [] <==> response == NoEventsMessage
    ensures forall e :: e in rows ==> Contains(response, EventLine(e))
  {
    var listing :| IsTimeOrdering(listing, rows) && response == ViewResponse(listing);
    forall e | e in rows ensures Contains(response, EventLine(e)) {
      ListingMembers(listing, rows, e);
      var k :| 0 <= k < |listing| && listing[k] == e;
    }
    if rows == [] {
      assert multiset(listing) == multiset{};
    } else {
      assert rows[0] in multiset(listing);
    }
  }

  /** A keyword at the very start of the text selects its branch. */
  lemma KeywordAtStart(u: string, p: string, rest: string)
    requires u == p + rest && p != [] && IsLowerCase(p)
    requires !IsSpace(p[0]) && !IsSpace(p[|p| - 1])
    ensures StartsWith(Strip(Lower(u)), p)
    ensures Drop(u, |p|) == rest
  {
    LowerKeepsPrefix(u, p);
    StripKeepsPrefix(Lower(u), p);
  }

  /** Text that begins with `add event:` goes to the add branch with the
      rest of the text, whatever follows. */
  lemma AddKeywordSelectsAdd(rest: string)
    ensures ParseCommand(AddPrefix + rest) == ParseAdd(rest)
  {
    KeywordAtStart(AddPrefix + rest, AddPrefix, rest);
  }

  /** Text that begins with `view events` lists the events. */
  lemma ViewKeywordSelectsView(rest: string)
    ensures ParseCommand(ViewPrefix + rest) == ViewEvents
  {
    var u := ViewPrefix + rest;
    KeywordAtStart(u, ViewPrefix, rest);
    var key := Strip(Lower(u));
    assert key[0] == 'v';
    FirstCharDiffers(key, AddPrefix);
  }

  /** Text that begins with `delete event:` goes to the delete branch with
      the rest of the text, whatever follows. */
  lemma DeleteKeywordSelectsDelete(rest: string)
    ensures ParseCommand(DeletePrefix + rest) == ParseDelete(rest)
  {
    var u := DeletePrefix + rest;
    KeywordAtStart(u, DeletePrefix, rest);
    var key := Strip(Lower(u));
    assert key[0] == 'd';
    FirstCharDiffers(key, AddPrefix);
    FirstCharDiffers(key, ViewPrefix);
  }

  /** The text after `add event:` as the help text shows it. */
  lemma ParseAddOf(d: string, t: string)
    requires ',' !in d && IsStripped(d)
    requires IsValidEventTime(t)
    ensures ParseAdd(" " + d + ", " + t) == AddEvent(d, t)
  {
    var m := d + [','] + (" " + t);
    assert " " + d + ", " + t == " " + m;
    ValidTimeEnds(t);
    assert m[0] == if d == [] then ',' else d[0];
    assert m[|m| - 1] == t[|t| - 1];
    StripOneBlank(m);
    SplitOnceOf(d, ',', " " + t);
    StripIdle(d);
    StripOneBlank(t);
  }

  /** Writing an add command the way the help text shows it gives back the
      description and the time: `add event: d, t` stores `d` and `t` when `d`
      has no comma and no surrounding whitespace and `t` is a valid time. */
  lemma AddCommandRoundTrip(d: string, t: string)
    requires ',' !in d && IsStripped(d)
    requires IsValidEventTime(t)
    ensures ParseCommand(AddPrefix + " " + d + ", " + t) == AddEvent(d, t)
  {
    var rest := " " + d + ", " + t;
    CommandShape(AddPrefix, d, t);
    AddKeywordSelectsAdd(rest);
    ParseAddOf(d, t);
  }

  lemma CommandShape(k: string, d: string, t: string)
    ensures k + " " + d + ", " + t == k + (" " + d + ", " + t)
  {
  }

  /** `delete event: n` asks for the deletion of `n`, for every integer `n`. */
  lemma DeleteCommandRoundTrip(n: int)
    ensures ParseCommand(DeletePrefix + " " + IntToString(n)) == DeleteEvent(n)
  {
    var rest := " " + IntToString(n);
    assert DeletePrefix + " " + IntToString(n) == DeletePrefix + rest;
    DeleteKeywordSelectsDelete(rest);
    ParseDeleteOf(n);
  }

  lemma ParseDeleteOf(n: int)
    ensures ParseDelete(" " + IntToString(n)) == DeleteEvent(n)
  {
    assert " " + IntToString(n) == " " + IntToString(n) + [];
    DeletePaddedInteger(" ", n, []);
  }

  /** The add argument is split at its first comma: the description is the
      stripped text before it and the time the stripped text after it, and
      the command is the usage hint exactly when strptime refuses that time.
      With the postcondition of `ParseAdd` for arguments without a comma,
      this decides every argument. */
  lemma ParseAddSplitsAtFirstComma(a: string, b: string)
    requires ',' !in a
    ensures ParseAdd(a + "," + b) ==
      if IsValidEventTime(Strip(b)) then AddEvent(Strip(a), Strip(b)) else AddUsage
  {
    var x, y := TrimLeft(a), TrimRight(b);
    assert a + "," + b == a + [','] + b;
    StripAroundSeparator(a, ',', b);
    SliceChars(a, |a| - |x|, |a|);
    assert ',' !in x;
    SplitOnceOf(x, ',', y);
    StripAfterTrimLeft(a);
    StripAfterTrimRight(b);
  }

  /** `delete event:` followed by `str(n)` with any whitespace around it
      deletes `n`. */
  lemma DeletePaddedInteger(p: string, n: int, q: string)
    requires AllSpace(p) && AllSpace(q)
    ensures ParseDelete(p + IntToString(n) + q) == DeleteEvent(n)
  {
    var s := IntToString(n);
    assert !IsSpace(s[0]) && !IsSpace(s[|s| - 1]);
    StripAround(p, s, q);
    ParseIntToString(n);
  }

  /** A delete argument that holds a character `int()` never accepts, at
      position `i` of the stripped text, is the usage hint. */
  lemma DeleteNeedsInteger(rest: string, i: nat)
    requires i < |Strip(rest)|
    requires !IsDigit(Strip(rest)[i]) && Strip(rest)[i] != '_'
    requires i == 0 ==> Strip(rest)[i] != '+' && Strip(rest)[i] != '-'
    ensures ParseDelete(rest) == DeleteUsage
  {
    ParseIntCharset(Strip(rest));
  }

  /** A delete argument that is empty or only whitespace is the usage hint. */
  lemma DeleteNeedsArgument(ws: string)
    requires AllSpace(ws)
    ensures ParseDelete(ws) == DeleteUsage
  {
    assert ws == ws + [] + [];
    StripAround(ws, [], []);
  }

  /** The keyword is found after stripping, but the argument is cut from the
      unstripped text at the keyword's length: one blank in front of
      `add event:` moves the cut one place left, onto the colon. */
  lemma LeadingBlankShiftsCut(rest: string)
    ensures ParseCommand(" " + AddPrefix + rest) == ParseAdd(":" + rest)
  {
    BlankBeforeKeyword(" " + AddPrefix + rest, rest);
  }

  lemma BlankBeforeKeyword(u: string, rest: string)
    requires u == " " + AddPrefix + rest
    ensures StartsWith(Strip(Lower(u)), AddPrefix)
    ensures Drop(u, |AddPrefix|) == ":" + rest
  {
    var v := AddPrefix + rest;
    assert u == " " + v;
    ColonAfterKeyword(v, rest);
    assert u[|AddPrefix|..] == v[|AddPrefix| - 1..];
    LowerConcat(" ", v);
    assert Lower(" ") == " ";
    StripSkipsSpace(' ', Lower(v));
    AddKeywordFound(rest);
  }

  lemma ColonAfterKeyword(v: string, rest: string)
    requires v == AddPrefix + rest
    ensures v[|AddPrefix| - 1..] == ":" + rest
  {
    assert AddPrefix[|AddPrefix| - 1..] == ":";
  }

  lemma AddKeywordFound(rest: string)
    ensures StartsWith(Strip(Lower(AddPrefix + rest)), AddPrefix)
  {
    KeywordAtStart(AddPrefix + rest, AddPrefix, rest);
  }

  /** So `␣add event: d, t` stores the description `": " + d`. */
  lemma LeadingBlankShiftsArgument(d: string, t: string)
    requires ',' !in d && d != [] && IsStripped(d)
    requires IsValidEventTime(t)
    ensures ParseCommand(" " + AddPrefix + " " + d + ", " + t) == AddEvent(": " + d, t)
  {
    var rest := " " + d + ", " + t;
    ArgumentShape(AddPrefix, d, t);
    LeadingBlankShiftsCut(rest);
    ParseAddAfterColon(d, t);
  }

  /** The text of LeadingBlankShiftsArgument regrouped around its argument. */
  lemma ArgumentShape(k: string, d: string, t: string)
    ensures " " + k + " " + d + ", " + t == " " + k + (" " + d + ", " + t)
    ensures ":" + (" " + d + ", " + t) == ": " + d + ", " + t
  {
  }

  lemma ParseAddAfterColon(d: string, t: string)
    requires ',' !in d && d != [] && IsStripped(d)
    requires IsValidEventTime(t)
    ensures ParseAdd(": " + d + ", " + t) == AddEvent(": " + d, t)
  {
    ValidTimeEnds(t);
    SplitAfterColon(d, t);
  }

  /** The string steps of ParseAddAfterColon. */
  lemma SplitAfterColon(d: string, t: string)
    requires ',' !in d && d != [] && IsStripped(d)
    requires t != [] && !IsSpace(t[0]) && !IsSpace(t[|t| - 1])
    ensures Strip(": " + d + ", " + t) == ": " + d + ", " + t
    ensures SplitOnce(": " + d + ", " + t, ',') == Some((": " + d, " " + t))
    ensures Strip(": " + d) == ": " + d && Strip(" " + t) == t
  {
    var desc := ": " + d;
    var m := desc + [','] + (" " + t);
    assert ": " + d + ", " + t == m;
    assert m[|m| - 1] == t[|t| - 1];
    assert desc[|desc| - 1] == d[|d| - 1];
    assert ',' !in desc by {
      assert desc == [':', ' '] + d;
    }
    SplitOnceOf(desc, ',', " " + t);
    StripIdle(m);
    StripIdle(desc);
    StripOneBlank(t);
  }
}
