/** The top level of the assistant (app.py:133-158): which branch a text
    takes, and the one branch that reaches the calendar. */
module Router {
  import opened PyStrings
  import opened EventStore
  import opened Calendar

  const ItineraryPhrase: string := "give me an itinerary for"
  const DestinationError: string := "⚠️ Please provide a valid destination."
  const Guidance: string :=
    "I can help with **itineraries, restaurant recommendations, and calendar management**. " +
    "Use keywords like 'itinerary', 'restaurant', or 'add event:'."

  /** The branch a text takes. */
  datatype Intent =
    | NoInput
    | Itinerary(destination: string)
    | InvalidDestination
    | Recommendation(request: string)
    | CalendarCommand(input: string)
    | Unknown

  predicate MentionsItinerary(lower: string) {
    Contains(lower, "itinerary") || Contains(lower, "trip plan")
  }

  predicate MentionsRecommendation(lower: string) {
    Contains(lower, "restaurant") || Contains(lower, "activity")
  }

  predicate HasCalendarPrefix(lower: string) {
    StartsWith(lower, AddPrefix) || StartsWith(lower, ViewPrefix) || StartsWith(lower, DeletePrefix)
  }

  /** `user_input.replace("give me an itinerary for", "").strip()`. */
  function Destination(userInput: string): (r: string)
    ensures IsStripped(r)
    ensures !Contains(userInput, ItineraryPhrase) ==> r == Strip(userInput)
  {
    Strip(RemoveAll(userInput, ItineraryPhrase))
  }

  /** The branches of app.py:133-158, first match first. The keyword tests
      look at the lower-cased text without stripping it; the destination is
      taken from the original text. */
  function Classify(userInput: string): (r: Intent)
    ensures r.Itinerary? ==> r.destination != [] && IsStripped(r.destination)
    ensures r.Recommendation? ==> r.request == userInput
    ensures r.CalendarCommand? ==> r.input == userInput
  {
    if userInput == [] then NoInput
    else
      var lower := Lower(userInput);
      if MentionsItinerary(lower) then
        var destination := Destination(userInput);
        if destination != [] then Itinerary(destination) else InvalidDestination
      else if MentionsRecommendation(lower) then Recommendation(userInput)
      else if HasCalendarPrefix(lower) then CalendarCommand(userInput)
      else Unknown
  }

  /** What the page shows. The text the language model generates is not part
      of this model: an itinerary or recommendation reply records what the
      model is asked about. */
  datatype Reply =
    | Blank
    | ItineraryReply(destination: string)
    | ErrorReply(message: string)
    | RecommendationReply(request: string)
    | CalendarReply(response: string)
    | WarningReply(message: string)

  /** One run of the script for one input: `init_db()` (app.py:32), then the
      branch the input takes. Creating the table changes no record and no id,
      so only a calendar command changes the table; every other branch leaves
      it as it was. */
  method ProcessInput(db: CalendarDb, userInput: string) returns (reply: Reply)
    requires db.Valid()
    modifies db
    ensures db.Valid() && db.hasTable
    ensures !Classify(userInput).CalendarCommand? ==>
      db.rows == old(db.rows) && db.nextId == old(db.nextId) && db.issued == old(db.issued)
    ensures Classify(userInput).CalendarCommand? ==>
      db.issued == if ParseCommand(userInput).AddEvent? then old(db.issued) + {old(db.nextId)} else old(db.issued)
    ensures match Classify(userInput)
      case NoInput => reply == Blank
      case Itinerary(d) => reply == ItineraryReply(d)
      case InvalidDestination => reply == ErrorReply(DestinationError)
      case Recommendation(q) => reply == RecommendationReply(q)
      case Unknown => reply == WarningReply(Guidance)
      case CalendarCommand(u) =>
        reply.CalendarReply? &&
        Outcome(ParseCommand(u), old(db.rows), old(db.nextId), db.rows, db.nextId, reply.response)
  {
    db.InitDb();
    match Classify(userInput)
    case NoInput =>
      reply := Blank;
    case Itinerary(d) =>
      reply := ItineraryReply(d);
    case InvalidDestination =>
      reply := ErrorReply(DestinationError);
    case Recommendation(q) =>
      reply := RecommendationReply(q);
    case Unknown =>
      reply := WarningReply(Guidance);
    case CalendarCommand(u) =>
      var response := HandleCalendarCommand(db, u);
      reply := CalendarReply(response);
  }

  // ---------------------------------------------------------------------------
  // Properties
  // ---------------------------------------------------------------------------

  /** Text the router sends to the calendar starts with its keyword, so the
      handler's stripped keyword test agrees with the router's unstripped one
      and its argument is cut right after the keyword. */
  lemma RoutedCommandIsAligned(u: string)
    requires Classify(u).CalendarCommand?
    ensures StartsWith(Lower(u), AddPrefix) ==> ParseCommand(u) == ParseAdd(u[|AddPrefix|..])
    ensures !StartsWith(Lower(u), AddPrefix) && StartsWith(Lower(u), ViewPrefix) ==>
      ParseCommand(u) == ViewEvents
    ensures !StartsWith(Lower(u), AddPrefix) && !StartsWith(Lower(u), ViewPrefix) ==>
      StartsWith(Lower(u), DeletePrefix) && ParseCommand(u) == ParseDelete(u[|DeletePrefix|..])
    ensures ParseCommand(u) != Help
  {
    assert HasCalendarPrefix(Lower(u));
    KeyAgrees(u);
  }

  /** For text with a keyword at its very start, stripping does not change
      which keyword is found. */
  lemma KeyAgrees(u: string)
    requires HasCalendarPrefix(Lower(u))
    ensures StartsWith(Strip(Lower(u)), AddPrefix) <==> StartsWith(Lower(u), AddPrefix)
    ensures StartsWith(Strip(Lower(u)), ViewPrefix) <==> StartsWith(Lower(u), ViewPrefix)
    ensures StartsWith(Strip(Lower(u)), DeletePrefix) <==> StartsWith(Lower(u), DeletePrefix)
  {
    KeyAgreesOn(Lower(u));
  }

  lemma KeyAgreesOn(lower: string)
    requires HasCalendarPrefix(lower)
    ensures StartsWith(Strip(lower), AddPrefix) <==> StartsWith(lower, AddPrefix)
    ensures StartsWith(Strip(lower), ViewPrefix) <==> StartsWith(lower, ViewPrefix)
    ensures StartsWith(Strip(lower), DeletePrefix) <==> StartsWith(lower, DeletePrefix)
  {
    KeywordStart(lower);
    StripPrefixIff(lower, AddPrefix);
    StripPrefixIff(lower, ViewPrefix);
    StripPrefixIff(lower, DeletePrefix);
  }

  /** Text with a command prefix starts with a letter. */
  lemma KeywordStart(lower: string)
    requires HasCalendarPrefix(lower)
    ensures lower != [] && !IsSpace(lower[0])
  {
    if StartsWith(lower, AddPrefix) {
      FirstOfPrefix(lower, AddPrefix);
    } else if StartsWith(lower, ViewPrefix) {
      FirstOfPrefix(lower, ViewPrefix);
    } else {
      FirstOfPrefix(lower, DeletePrefix);
    }
  }

  /** "itinerary" or "trip plan" anywhere wins over every other keyword. */
  lemma ItineraryWins(u: string)
    requires MentionsItinerary(Lower(u))
    ensures Classify(u) == Itinerary(Destination(u)) || Classify(u) == InvalidDestination
    ensures Destination(u) == [] <==> Classify(u) == InvalidDestination
  {
    NothingInEmpty("itinerary");
    NothingInEmpty("trip plan");
    assert |Lower(u)| == |u|;
    assert u != [];
  }

  /** The phrase followed by a destination gives that destination. */
  lemma ItineraryRequest(d: string)
    requires d != [] && IsStripped(d) && !Contains(d, ItineraryPhrase)
    ensures Classify(ItineraryPhrase + " " + d) == Itinerary(d)
  {
    var u := ItineraryPhrase + " " + d;
    ItineraryMentioned(" " + d);
    assert u == ItineraryPhrase + (" " + d);
    RemoveAllLeading(ItineraryPhrase, " " + d);
    assert !StartsWith(" " + d, ItineraryPhrase) by {
      FirstCharDiffers(" " + d, ItineraryPhrase);
    }
    assert (" " + d)[1..] == d;
    assert !Contains(" " + d, ItineraryPhrase);
    StripOneBlank(d);
  }

  /** The phrase with nothing but whitespace after it has no destination. */
  lemma EmptyDestination(ws: string)
    requires AllSpace(ws)
    ensures Classify(ItineraryPhrase + ws) == InvalidDestination
  {
    ItineraryMentioned(ws);
    RemoveAllLeading(ItineraryPhrase, ws);
    assert ItineraryPhrase[0] !in ws;
    ContainedChars(ws, ItineraryPhrase, 0);
    assert ws == ws + [] + [];
    StripAround(ws, [], []);
  }

  /** The removed phrase is lower-case only: a capitalised request keeps it
      as part of the destination. */
  lemma CapitalisedPhraseIsKept(d: string)
    requires d != [] && IsStripped(d) && !Contains(d, ItineraryPhrase)
    ensures Classify("Give me an itinerary for " + d) == Itinerary("Give me an itinerary for " + d)
  {
    var pre := "Give me an itinerary for ";
    var u := pre + d;
    CapitalisedMentions(pre, d);
    CapitalisedLacksPhrase(pre, d);
    assert u[|u| - 1] == d[|d| - 1];
    StripIdle(u);
  }

  lemma CapitalisedMentions(pre: string, d: string)
    requires pre == "Give me an itinerary for "
    ensures Contains(Lower(pre + d), "itinerary")
  {
    assert Lower(pre + d)[11..20] == "itinerary";
    OccursAtContains(Lower(pre + d), "itinerary", 11);
  }

  lemma CapitalisedLacksPhrase(pre: string, d: string)
    requires pre == "Give me an itinerary for " && !Contains(d, ItineraryPhrase)
    ensures !Contains(pre + d, ItineraryPhrase)
  {
    assert ItineraryPhrase[0] !in pre;
    ContainsPastPrefix(pre, d, ItineraryPhrase);
  }

  /** The keyword tests come before the prefix test: text that starts with
      `add event:` but mentions a restaurant or an activity, and no
      itinerary, is a recommendation request. */
  lemma RecommendationBeatsCalendar(rest: string)
    requires MentionsRecommendation(Lower(rest))
    requires !MentionsItinerary(Lower(AddPrefix + rest))
    ensures HasCalendarPrefix(Lower(AddPrefix + rest))
    ensures Classify(AddPrefix + rest) == Recommendation(AddPrefix + rest)
  {
    var u := AddPrefix + rest;
    LowerKeepsPrefix(u, AddPrefix);
    assert Lower(u) == Lower(AddPrefix) + Lower(rest);
    if Contains(Lower(rest), "restaurant") {
      ContainsAfter(Lower(AddPrefix), Lower(rest), "restaurant");
    } else {
      ContainsAfter(Lower(AddPrefix), Lower(rest), "activity");
    }
  }

  /** The warning is the answer exactly to a non-empty text with none of the
      keywords and no command prefix. */
  lemma GuidanceIsTheFallback(u: string)
    ensures Classify(u) == Unknown <==>
      u != [] && !MentionsItinerary(Lower(u)) && !MentionsRecommendation(Lower(u)) &&
      !HasCalendarPrefix(Lower(u))
  {
  }

  /** For instance `add event: restaurant, 2024-01-01 10:00`. */
  lemma RestaurantBeatsCalendar(u: string)
    requires u == "add event: restaurant, 2024-01-01 10:00"
    ensures Classify(u) == Recommendation(u)
  {
    var k, b := "restaurant", ", 2024-01-01 10:00";
    ExamplePieces(u, k, b);
    ExampleHasNoItinerary(AddPrefix + " ", k, b);
    ExampleMentionsRestaurant(k, b);
    assert MentionsRecommendation(Lower(" " + k + b));
    RecommendationBeatsCalendar(" " + k + b);
  }

  lemma ExamplePieces(u: string, k: string, b: string)
    requires u == "add event: restaurant, 2024-01-01 10:00"
    requires k == "restaurant" && b == ", 2024-01-01 10:00"
    ensures u == AddPrefix + (" " + k + b) == AddPrefix + " " + k + b
  {
  }

  lemma ExampleHasNoItinerary(a: string, k: string, b: string)
    requires a == "add event: " && k == "restaurant" && b == ", 2024-01-01 10:00"
    ensures !MentionsItinerary(Lower(a + k + b))
  {
    var u := a + k + b;
    ExamplePieceIsPlain(a);
    ExamplePieceIsPlain(k);
    ExamplePieceIsPlain(b);
    LowerConcat3(a, k, b);
    assert Lower(u) == u;
    assert 'y' !in u && 'p' !in u;
    ContainedChars(u, "itinerary", 8);
    ContainedChars(u, "trip plan", 3);
  }

  /** Each piece of the example is lower-case and lacks the `y` of
      "itinerary" and the `p` of "trip plan". */
  lemma ExamplePieceIsPlain(s: string)
    requires s == "add event: " || s == "restaurant" || s == ", 2024-01-01 10:00"
    ensures Lower(s) == s && 'y' !in s && 'p' !in s
  {
    LowerIdle(s);
  }

  lemma ExampleMentionsRestaurant(k: string, b: string)
    requires k == "restaurant" && b == ", 2024-01-01 10:00"
    ensures Contains(Lower(" " + k + b), "restaurant")
  {
    LowerConcat3(" ", k, b);
    LowerIdle(" ");
    LowerIdle(k);
    LowerIdle(b);
    assert (" " + k + b)[1..1 + |k|] == k;
    OccursAtContains(" " + k + b, k, 1);
  }

  /** Leading whitespace keeps text away from the calendar, because the
      router's prefix test does not strip: the early cut of
      `Calendar.LeadingBlankShiftsCut` cannot happen through the router. */
  lemma LeadingBlankIsNotACommand(u: string)
    requires u != [] && IsSpace(u[0])
    ensures !Classify(u).CalendarCommand?
  {
    var lower := Lower(u);
    assert IsSpace(lower[0]);
    FirstCharDiffers(lower, AddPrefix);
    FirstCharDiffers(lower, ViewPrefix);
    FirstCharDiffers(lower, DeletePrefix);
  }

  /** Text that starts with the phrase mentions an itinerary. */
  lemma ItineraryMentioned(rest: string)
    ensures MentionsItinerary(Lower(ItineraryPhrase + rest))
  {
    var u := ItineraryPhrase + rest;
    LowerKeepsPrefix(u, ItineraryPhrase);
    assert Lower(u)[11..20] == ItineraryPhrase[11..20] == "itinerary";
    OccursAtContains(Lower(u), "itinerary", 11);
  }
}
