/** `DiscordChatScraper`: the document it reads, the records it has pushed, the ticket
    id and the last header seen. */
module Scraper {
  import opened Wrappers
  import opened Dom
  import opened Extract
  import Text
  import Proxy
  import Stats

  /** `ticketId`: the text of the second preamble entry, trimmed, from after its last
      `-`, trimmed again; None when there is no second entry or nothing is left. */
  function TicketIdOf(preamble: seq<string>): (r: Option<string>)
    ensures r.Some? ==> r.value != [] && '-' !in r.value
    ensures |preamble| < 2 ==> r.None?
  {
    if |preamble| < 2 then None
    else
      var after := Text.AfterLast(Text.Trim(preamble[1]), '-');
      var id := Text.Trim(after);
      TrimInside(after);
      if id == [] then None else Some(id)
  }

  /** What `trim` keeps is a part of the string. */
  lemma TrimInside(s: string)
    ensures forall c :: c in Text.Trim(s) ==> c in s
  {
    var k, r := Text.TrimShape(s);
    forall c | c in r
      ensures c in s
    {
      var j :| 0 <= j < |r| && r[j] == c;
      assert s[k + j] == c;
    }
  }

  /** A second preamble entry `x-id`, with `id` free of `-` and of white space at its
      ends, gives the ticket id `id`. */
  lemma TicketIdAfterDash(first: string, x: string, id: string, rest: seq<string>)
    requires '-' !in id && id != [] && !Text.IsWhite(id[0]) && !Text.IsWhite(id[|id| - 1])
    requires x == [] || !Text.IsWhite(x[0])
    ensures TicketIdOf([first, x + "-" + id] + rest) == Some(id)
  {
    var e := x + ['-'] + id;
    assert e == x + "-" + id;
    var p := [first, e] + rest;
    assert |p| >= 2 && p[1] == e;
    assert e[0] == (if x == [] then '-' else x[0]);
    assert e[|e| - 1] == id[|id| - 1];
    Text.TrimClean(e);
    Text.AfterLastOf(x, '-', id);
    Text.TrimClean(id);
    assert Text.Trim(Text.AfterLast(Text.Trim(p[1]), '-')) == id;
  }

  class ChatScraper {
    const document: Document
    /** `new Date(text).getTime()`, None where it is NaN. */
    const parseDate: string -> Option<int>
    var messages: seq<Message>
    var ticketId: Option<string>
    var lastAuthor: Option<Header>

    constructor (document: Document, parseDate: string -> Option<int>)
      ensures this.document == document && this.parseDate == parseDate
      ensures messages == [] && ticketId == None && lastAuthor == None
    {
      this.document := document;
      this.parseDate := parseDate;
      messages := [];
      ticketId := None;
      lastAuthor := None;
    }

    /** `scrapeAll`: sets the ticket id, then runs `extractMessage` on each container in
        turn, pushing each record it returns; an error ends the run with the records
        pushed so far kept. */
    method ScrapeAll() returns (r: Result<seq<Message>, Failure>)
      modifies this`ticketId, this`messages, this`lastAuthor
      ensures ticketId == TicketIdOf(document.preamble)
      ensures var run := Scrape(old(lastAuthor), document.containers, parseDate);
              messages == old(messages) + run.records && lastAuthor == run.carried
              && r == if run.failure.None? then Success(messages) else Failure(run.failure.value)
    {
      ticketId := TicketIdOf(document.preamble);
      var cs := document.containers;
      ghost var h0 := lastAuthor;
      ghost var m0 := messages;
      ghost var run := Scrape(h0, [], parseDate);
      var i := 0;
      while i < |cs|
        invariant 0 <= i <= |cs|
        invariant ticketId == TicketIdOf(document.preamble)
        invariant run == Scrape(h0, cs[..i], parseDate)
        invariant run.failure.None? && messages == m0 + run.records && lastAuthor == run.carried
      {
        ScrapeNext(h0, cs, i, parseDate);
        var o := ExtractMessage(cs[i]);
        PushedAppend(m0, run.records, o);
        run := Run(lastAuthor, run.records + Pushed(o), FailureOf(o));
        match o {
          case Failed(e) =>
            ScrapeStops(h0, cs, i, parseDate);
            return Failure(e);
          case Produced(m) =>
            messages := messages + [m];
          case Skipped =>
        }
        i := i + 1;
      }
      assert cs[..i] == cs;
      assert run == Scrape(old(lastAuthor), document.containers, parseDate);
      return Success(messages);
    }

    /** `extractMessage(container)`: the step for this container with the header carried
        so far; `lastAuthor` becomes the header the step carries on. */
    method ExtractMessage(c: Container) returns (o: Outcome)
      modifies this`lastAuthor
      ensures StepResult(lastAuthor, o) == Step(old(lastAuthor), c, parseDate)
    {
      if c.body.None? {
        StepSkips(lastAuthor, c, parseDate);
        return Skipped;
      }
      var body := c.body.value;
      StepCases(lastAuthor, c, parseDate);
      var messageId := c.messageId.GetOr("");
      var primary := body.header;
      if primary.None? {
        primary := lastAuthor;
      }
      lastAuthor := primary;
      var avatarUrl := body.avatarSrc.GetOr("");
      if primary.None? {
        return Failed(NoHeaderSeen);
      }
      var header := primary.value;
      var authorName, authorId := "Unknown", "";
      if header.author.Some? {
        authorName := Text.Trim(header.author.value.text);
        authorId := header.author.value.userId.GetOr("");
      }
      var isBot := header.botLabel;
      var node := body.shortTimestamp;
      if node.None? {
        node := body.timestampLink;
      }
      var timestamp := NoTimestamp;
      if node.Some? {
        var t := node.value;
        timestamp := Time(parseDate(if t.title != [] then t.title else Text.Trim(t.text)));
      }
      if body.content.None? {
        return Failed(NoContent);
      }
      var content := body.content.value;
      var text := Text.NormalizeSpaces(content.text);
      var people := CollectMentions(content.mentionTitles);
      var embed := ExtractEmbed(body.embed);
      var reactions := ExtractReactions(c);
      ghost var expected := MessageOf(c, body, header, content, parseDate);
      assert authorName == expected.authorName && authorId == expected.authorId;
      assert embed == expected.embed;
      o := Produced(Message(messageId, authorName, authorId, avatarUrl, timestamp, text, people,
                            isBot, embed, reactions));
      assert o == Produced(expected);
    }

    /** The `forEach` over the mentions of a content element: each present, non-empty
        `title` pushed with its first `#0000` removed. */
    method CollectMentions(titles: seq<Option<string>>) returns (people: seq<string>)
      ensures people == MentionsOf(titles)
    {
      people := [];
      var i := 0;
      while i < |titles|
        invariant 0 <= i <= |titles|
        invariant people == MentionsOf(titles[..i])
      {
        assert titles[..i + 1][..i] == titles[..i];
        var title := titles[i];
        if title.Some? && title.value != [] {
          people := people + [Text.ReplaceFirst(title.value, "#0000", "")];
        }
        i := i + 1;
      }
      assert titles[..i] == titles;
    }

    /** `extractEmbed(messageDiv)`: null without an embed element, otherwise the embed
        record, its fields in document order. */
    method ExtractEmbed(node: Option<EmbedNode>) returns (r: Option<Embed>)
      ensures node.None? ==> r.None?
      ensures node.Some? ==> r == Some(EmbedOf(node.value))
    {
      if node.None? {
        return None;
      }
      var e := node.value;
      var link := e.authorLinkHref.GetOr("");
      var color := EmbedColor(e.colorPill);
      var fs := e.fields;
      var fields: seq<Field> := [];
      var i := 0;
      while i < |fs|
        invariant 0 <= i <= |fs|
        invariant |fields| == i && forall j :: 0 <= j < i ==> fields[j] == FieldOf(fs[j])
      {
        fields := fields + [FieldOf(fs[i])];
        i := i + 1;
      }
      assert fields == FieldsOf(fs);
      var thumbnailUrl := "";
      if e.thumbnailSrc.Some? {
        thumbnailUrl := Proxy.RemoveDiscordProxy(e.thumbnailSrc.value);
      }
      assert thumbnailUrl == ThumbnailUrl(e.thumbnailSrc);
      r := Some(Embed(TextOr(e.author), TextOr(e.title), TextOr(e.description), thumbnailUrl,
                      link, color, fields));
    }

    /** `extractReactions(container)`: no reactions without a reactions block, otherwise
        one record per reaction element, in document order. */
    method ExtractReactions(c: Container) returns (r: seq<Reaction>)
      ensures r == ReactionsOf(c.reactions)
    {
      if c.reactions.None? {
        return [];
      }
      var ns := c.reactions.value;
      r := [];
      var i := 0;
      while i < |ns|
        invariant 0 <= i <= |ns|
        invariant |r| == i && forall j :: 0 <= j < i ==> r[j] == ReactionOf(ns[j])
      {
        var url, name := "", "";
        if ns[i].emoji.Some? {
          url, name := ns[i].emoji.value.src, ns[i].emoji.value.alt;
        }
        var count := Some(0);
        if ns[i].countText.Some? {
          count := Numbers.ParseInt(ns[i].countText.value);
        }
        r := r + [Reaction(url, name, count)];
        i := i + 1;
      }
    }

    /** `getStats`: the report over the records pushed so far, with the per-author
        tally built by a loop over them. */
    method GetStats() returns (s: Stats.Report)
      ensures s == Stats.ReportOf(messages)
    {
      var ms := messages;
      var total := |ms|;
      var bots := Stats.CountBots(ms);
      var authors, keys := Stats.CountAuthors(ms);
      var entries := seq(|keys|, j requires 0 <= j < |keys| => Stats.Entry(keys[j], authors[keys[j]]));
      assert entries == Stats.Entries(Stats.Names(ms));
      s := Stats.Report(total, bots, total - bots, Stats.CountEmbeds(ms), Stats.CountReacted(ms),
                        |keys|, Stats.Top5(Stats.SortByCount(entries)));
    }

    /** `messages.pop()`: the last record, removed; None (`undefined`) when there is
        none. */
    method PopMessage() returns (m: Option<Message>)
      modifies this`messages
      ensures old(messages) == [] ==> m.None? && messages == []
      ensures old(messages) != [] ==> m == Some(old(messages)[|old(messages)| - 1])
                                      && messages == old(messages)[..|old(messages)| - 1]
    {
      if messages == [] {
        return None;
      }
      m := Some(messages[|messages| - 1]);
      messages := messages[..|messages| - 1];
    }
  }
}
