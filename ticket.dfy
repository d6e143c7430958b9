/** The command-line run: scrape the log, then derive the ticket summary from the
    records of the ticket bot, popping the last record when no bot message says
    `saving...`. */
module Ticket {
  import opened Wrappers
  import opened Dom
  import opened Extract
  import Text
  import Stats
  import Scraper

  /** The bot's display name, lower-cased. */
  const TicketBotName := "blocksmc tickets"
  /** The content of the bot message sent when the ticket is closed, lower-cased. */
  const SavingText := "saving..."
  /** The largest magnitude of a time value `Date` accepts: 8.64e15 milliseconds. */
  const MaxTime := 8_640_000_000_000_000

  /** Why the run stops: the scraper threw, or one of the guards that call
      `process.exit(1)` fired, or `toISOString` threw on an invalid date. */
  datatype TicketError =
    | ScrapeFailed(failure: Failure)
    | NoMessages
    | NoTicketBotMessages
    | NoTicketDetails
    | InvalidTime

  datatype TicketAuthor = TicketAuthor(name: string, rank: string, hours: string, discordId: string)

  /** `ticketData`; the two times are the time values `toISOString` formats. */
  datatype TicketData = TicketData(
    ticketId: Option<string>,
    openedAt: int,
    removedAt: int,
    author: TicketAuthor,
    category: string,
    description: string,
    url: string,
    totalMessages: nat,
    botMessages: nat,
    userMessages: nat,
    messages: seq<Message>)

  // ----- filters and searches -----

  /** `ms.filter(p)`. */
  function Filter(ms: seq<Message>, p: Message -> bool): (r: seq<Message>)
    ensures |r| <= |ms|
    ensures forall m :: m in r <==> m in ms && p(m)
    decreases |ms|
  {
    if ms == [] then []
    else (if p(ms[0]) then [ms[0]] else []) + Filter(ms[1..], p)
  }

  /** `ms.find(p)`: the first element satisfying `p`, if any. */
  function FirstWhere(ms: seq<Message>, p: Message -> bool): (r: Option<Message>)
    ensures r.None? <==> forall m :: m in ms ==> !p(m)
    ensures r.Some? ==> exists i :: 0 <= i < |ms| && ms[i] == r.value && p(ms[i])
                                    && forall j :: 0 <= j < i ==> !p(ms[j])
    decreases |ms|
  {
    if ms == [] then None
    else if p(ms[0]) then Some(ms[0])
    else
      var r := FirstWhere(ms[1..], p);
      assert forall m :: m in ms[1..] ==> m in ms;
      assert r.Some? ==> exists i :: 1 <= i < |ms| && ms[i] == r.value && p(ms[i])
                                     && forall j :: 1 <= j < i ==> !p(ms[j]) by {
        if r.Some? {
          var i :| 0 <= i < |ms[1..]| && ms[1..][i] == r.value && p(ms[1..][i])
                   && forall j :: 0 <= j < i ==> !p(ms[1..][j]);
          assert forall j :: 1 <= j < i + 1 ==> ms[j] == ms[1..][j - 1];
        }
      }
      r
  }

  predicate IsTicketBot(m: Message) {
    m.isBot && Text.ToLowerAscii(m.authorName) == TicketBotName
  }

  predicate HasFields(m: Message) {
    m.embed.Some? && |m.embed.value.fields| > 0
  }

  predicate IsSaving(m: Message) {
    Text.ToLowerAscii(m.content) == SavingText
  }

  // ----- the parts of the summary -----

  /** `new Date(timestamp)` as a valid date, whose `toISOString` does not throw: a time
      value of magnitude at most 8.64e15. `''` and NaN give an invalid date. */
  function TimeValue(t: Timestamp): (r: Option<int>)
    ensures r.Some? <==> t.Time? && t.millis.Some? && -MaxTime <= t.millis.value <= MaxTime
    ensures r.Some? ==> r.value == t.millis.value
  {
    match t
    case NoTimestamp => None
    case Time(v) =>
      if v.Some? && -MaxTime <= v.value <= MaxTime then v else None
  }

  /** `fields.find(field => field.name.toLowerCase() === key)?.value || 'Unknown'`. */
  function FieldValue(fields: seq<Field>, key: string): string
    decreases |fields|
  {
    if fields == [] then "Unknown"
    else if Text.ToLowerAscii(fields[0].name) == key then
      (if fields[0].value == [] then "Unknown" else fields[0].value)
    else FieldValue(fields[1..], key)
  }

  /** `title ? title.split(":")[0].trim() : 'Unknown'`. */
  function Category(title: string): string {
    if title == [] then "Unknown" else Text.Trim(Text.BeforeFirst(title, ':'))
  }

  /** `link.split("/").pop() || ''`. */
  function DiscordId(link: string): string {
    Text.AfterLast(link, '/')
  }

  function AuthorOf(e: Embed): TicketAuthor {
    TicketAuthor(if e.author == [] then "Unknown" else e.author,
                 FieldValue(e.fields, "rank"), FieldValue(e.fields, "hours"), DiscordId(e.link))
  }

  /** What the ticket block yields for the records `ms`, and the records left after it:
      the guards in order, then `Close`. */
  function TicketOf(ticketId: Option<string>, ms: seq<Message>): (Result<TicketData, TicketError>, seq<Message>) {
    if ms == [] then (Failure(NoMessages), ms)
    else
      var bots := Filter(ms, IsTicketBot);
      if bots == [] then (Failure(NoTicketBotMessages), ms)
      else
        var found := FirstWhere(bots, HasFields);
        if found.None? then (Failure(NoTicketDetails), ms)
        else Close(ticketId, ms, found.value, FirstWhere(bots, IsSaving))
  }

  /** The rest of the block once the details message is found: `openedAt`, then
      `RemovedAt`, which pops the last record when there is no `saving...` message
      (before its own date is checked), then the summary over the records left. */
  function Close(ticketId: Option<string>, ms: seq<Message>, details: Message, saving: Option<Message>)
    : (Result<TicketData, TicketError>, seq<Message>)
    requires ms != [] && HasFields(details)
  {
    var rest := if saving.Some? then ms else ms[..|ms| - 1];
    var closing := if saving.Some? then saving.value else ms[|ms| - 1];
    var openedAt := TimeValue(details.timestamp);
    var removedAt := TimeValue(closing.timestamp);
    if openedAt.None? then (Failure(InvalidTime), ms)
    else if removedAt.None? then (Failure(InvalidTime), rest)
    else
      var e := details.embed.value;
      (Success(TicketData(ticketId, openedAt.value, removedAt.value, AuthorOf(e), Category(e.title),
                          e.description, e.link, |rest|, Stats.CountBots(rest),
                          Stats.CountUsers(rest), rest)),
       rest)
  }

  // ----- the run -----

  /** The ticket block (after `messages.length` has been checked) on scraper `s`. */
  method DeriveTicket(s: Scraper.ChatScraper) returns (r: Result<TicketData, TicketError>)
    modifies s`messages
    ensures (r, s.messages) == TicketOf(s.ticketId, old(s.messages))
  {
    if s.messages == [] {
      return Failure(NoMessages);
    }
    var ticketId := s.ticketId;
    var bots := Filter(s.messages, IsTicketBot);
    if bots == [] {
      return Failure(NoTicketBotMessages);
    }
    var found := FirstWhere(bots, HasFields);
    if found.None? {
      return Failure(NoTicketDetails);
    }
    var details := found.value;
    var saving := FirstWhere(bots, IsSaving);
    var e := details.embed.value;
    var openedAt := TimeValue(details.timestamp);
    if openedAt.None? {
      return Failure(InvalidTime);
    }
    var closing: Message;
    if saving.Some? {
      closing := saving.value;
    } else {
      var popped := s.PopMessage();
      closing := popped.value;
    }
    var removedAt := TimeValue(closing.timestamp);
    if removedAt.None? {
      return Failure(InvalidTime);
    }
    var ms := s.messages;
    r := Success(TicketData(ticketId, openedAt.value, removedAt.value, AuthorOf(e), Category(e.title),
                            e.description, e.link, |ms|, Stats.CountBots(ms), Stats.CountUsers(ms), ms));
  }

  /** The whole command-line run on a document: a fresh scraper, `scrapeAll` (whose error
      `scrapeChat` catches, ending the run), then the ticket block. */
  method ScrapeTicket(document: Document, parseDate: string -> Option<int>) returns (r: Result<TicketData, TicketError>)
    ensures var run := Scrape(None, document.containers, parseDate);
            r == if run.failure.Some? then Failure(ScrapeFailed(run.failure.value))
                 else TicketOf(Scraper.TicketIdOf(document.preamble), run.records).0
  {
    var scraper := new Scraper.ChatScraper(document, parseDate);
    var scraped := scraper.ScrapeAll();
    ghost var run := Scrape(None, document.containers, parseDate);
    if scraped.Failure? {
      return Failure(ScrapeFailed(scraped.error));
    }
    assert scraper.messages == run.records;
    ghost var ticketId := scraper.ticketId;
    r := DeriveTicket(scraper);
    assert (r, scraper.messages) == TicketOf(ticketId, run.records);
  }

  // ----- lemmas -----

  /** Searching the filtered records is searching the records for both properties: the
      details message is the first ticket-bot message with fields. */
  lemma {:induction false} FirstWhereFilter(ms: seq<Message>, p: Message -> bool, q: Message -> bool,
                                            pq: Message -> bool)
    requires forall m :: pq(m) == (p(m) && q(m))
    ensures FirstWhere(Filter(ms, p), q) == FirstWhere(ms, pq)
    decreases |ms|
  {
    if ms != [] {
      FirstWhereFilter(ms[1..], p, q, pq);
      if p(ms[0]) {
        assert Filter(ms, p) == [ms[0]] + Filter(ms[1..], p);
        assert ([ms[0]] + Filter(ms[1..], p))[1..] == Filter(ms[1..], p);
      } else {
        assert Filter(ms, p) == Filter(ms[1..], p);
      }
    }
  }

  /** `rank` and `hours` come from the first field whose lower-cased name is the key;
      'Unknown' when that field's value is empty or no field has the name. */
  lemma {:induction false} FieldValueFirst(fields: seq<Field>, key: string, i: nat)
    requires i < |fields| && Text.ToLowerAscii(fields[i].name) == key
    requires forall j :: 0 <= j < i ==> Text.ToLowerAscii(fields[j].name) != key
    ensures FieldValue(fields, key) == if fields[i].value == [] then "Unknown" else fields[i].value
    decreases i
  {
    if i > 0 {
      FieldValueFirst(fields[1..], key, i - 1);
    }
  }

  lemma {:induction false} FieldValueMissing(fields: seq<Field>, key: string)
    requires forall j :: 0 <= j < |fields| ==> Text.ToLowerAscii(fields[j].name) != key
    ensures FieldValue(fields, key) == "Unknown"
    decreases |fields|
  {
    if fields != [] {
      FieldValueMissing(fields[1..], key);
    }
  }

  /** The category is the trimmed text before the first `:` of the title ('Unknown' for
      an empty title). */
  lemma CategoryBeforeColon(x: string, y: string)
    requires ':' !in x
    ensures Category(x + ":" + y) == Text.Trim(x)
    ensures Category(x) == if x == [] then "Unknown" else Text.Trim(x)
  {
    Text.BeforeFirstOf(x, ':', y);
    Text.BeforeFirstNone(x, ':');
  }

  /** `discordId` is the last `/`-separated segment of the link. */
  lemma DiscordIdLastSegment(p: string, d: string)
    requires '/' !in d
    ensures DiscordId(p + "/" + d) == d
  {
    Text.AfterLastOf(p, '/', d);
  }

  /** The errors of the ticket block, each exactly when its guard fires. */
  lemma TicketErrors(ticketId: Option<string>, ms: seq<Message>)
    ensures TicketOf(ticketId, ms).0 == Failure(NoMessages) <==> ms == []
    ensures TicketOf(ticketId, ms).0 == Failure(NoTicketBotMessages)
            <==> ms != [] && forall m :: m in ms ==> !IsTicketBot(m)
    ensures TicketOf(ticketId, ms).0 == Failure(NoTicketDetails)
            <==> (exists m :: m in ms && IsTicketBot(m)) && forall m :: m in ms && IsTicketBot(m) ==> !HasFields(m)
  {
    var bots := Filter(ms, IsTicketBot);
    assert bots == [] <==> forall m :: m in ms ==> !IsTicketBot(m) by {
      if bots != [] {
        assert bots[0] in bots;
      }
    }
  }

  /** A summary counts the records left after the block: one fewer than were scraped
      when no bot message says `saving...` (the last one is popped), all of them
      otherwise; bot and user messages make up the total. */
  lemma TicketTotals(ticketId: Option<string>, ms: seq<Message>)
    requires TicketOf(ticketId, ms).0.Success?
    ensures var t := TicketOf(ticketId, ms).0.value;
            var saving := exists m :: m in ms && IsTicketBot(m) && IsSaving(m);
            t.messages == TicketOf(ticketId, ms).1
            && t.messages == (if saving then ms else ms[..|ms| - 1])
            && t.totalMessages == |ms| - (if saving then 0 else 1)
            && t.botMessages + t.userMessages == t.totalMessages
            && t.ticketId == ticketId
  {
    var bots := Filter(ms, IsTicketBot);
    var rest := TicketOf(ticketId, ms).1;
    Stats.BotsAndUsers(rest);
    assert (exists m :: m in ms && IsTicketBot(m) && IsSaving(m)) <==> FirstWhere(bots, IsSaving).Some? by {
      if FirstWhere(bots, IsSaving).Some? {
        var m := FirstWhere(bots, IsSaving).value;
        assert m in bots;
      }
    }
  }

  predicate IsTicketDetails(m: Message) {
    IsTicketBot(m) && HasFields(m)
  }

  /** The opening time is that of the first ticket-bot message with embed fields, and
      the summary's author, category, description and URL come from its embed. */
  lemma TicketDetails(ticketId: Option<string>, ms: seq<Message>)
    requires TicketOf(ticketId, ms).0.Success?
    ensures var t := TicketOf(ticketId, ms).0.value;
            exists i :: 0 <= i < |ms| && IsTicketDetails(ms[i])
              && (forall j :: 0 <= j < i ==> !IsTicketDetails(ms[j]))
              && ms[i].timestamp == Time(Some(t.openedAt))
              && t.author == AuthorOf(ms[i].embed.value)
              && t.category == Category(ms[i].embed.value.title)
              && t.description == ms[i].embed.value.description
              && t.url == ms[i].embed.value.link
  {
    var bots := Filter(ms, IsTicketBot);
    var found := FirstWhere(bots, HasFields);
    var details := found.value;
    var t := Close(ticketId, ms, details, FirstWhere(bots, IsSaving)).0.value;
    assert TicketOf(ticketId, ms).0.value == t;
    FirstWhereFilter(ms, IsTicketBot, HasFields, IsTicketDetails);
    var i :| 0 <= i < |ms| && ms[i] == details && IsTicketDetails(ms[i])
             && forall j :: 0 <= j < i ==> !IsTicketDetails(ms[j]);
    assert ms[i].timestamp == Time(Some(t.openedAt));
  }
}
