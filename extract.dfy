/** The records the scraper builds and the specification of `extractMessage`,
    `extractEmbed`, `extractReactions` and the `scrapeAll` loop: one step per message
    container, carrying the last header seen from one container to the next. */
module Extract {
  import opened Wrappers
  import opened Dom
  import Text
  import Numbers
  import Proxy

  /** The `timestamp` field: `''` when there is no timestamp element, otherwise
      `new Date(..).getTime()`, where None is NaN. */
  datatype Timestamp = NoTimestamp | Time(millis: Option<int>)

  datatype Field = Field(name: string, value: string)

  datatype Embed = Embed(
    author: string,
    title: string,
    description: string,
    thumbnailUrl: string,
    link: string,
    color: string,
    fields: seq<Field>)

  /** A reaction; a count of None is the NaN `parseInt` gives for text without digits. */
  datatype Reaction = Reaction(url: string, name: string, count: Option<int>)

  datatype Message = Message(
    messageId: string,
    authorName: string,
    authorId: string,
    avatarUrl: string,
    timestamp: Timestamp,
    content: string,
    mentionPeople: seq<string>,
    isBot: bool,
    embed: Option<Embed>,
    reactions: seq<Reaction>)

  /** The two `TypeError`s `extractMessage` can raise: `PrimaryElement.querySelector`
      with no header ever seen, and `contentElem.querySelectorAll` with no content
      element. */
  datatype Failure = NoHeaderSeen | NoContent

  datatype Outcome = Skipped | Produced(message: Message) | Failed(failure: Failure)

  /** What one container does: the header carried to the next container, and its
      outcome. */
  datatype StepResult = StepResult(carried: Option<Header>, outcome: Outcome)

  // ----- embeds -----

  /** `elem?.textContent.trim() || ''`. */
  function TextOr(o: Option<string>): string {
    match o
    case None => ""
    case Some(t) => Text.Trim(t)
  }

  function FieldOf(f: FieldNode): Field {
    Field(TextOr(f.name), TextOr(f.value))
  }

  /** One colour component: `parseInt(run).toString(16).padStart(2, '0')`. */
  function ColorComponent(run: string): string {
    Numbers.PadStart2(Numbers.NumberToHex(Numbers.ParseInt(run)))
  }

  /** The `color` of an embed, from the colour pill's `style.backgroundColor`. */
  function EmbedColor(pill: Option<string>): string {
    match pill
    case None => ""
    case Some(bg) =>
      if bg != [] && Text.StartsWith(bg, "rgb") then
        var runs := Numbers.DigitRuns(bg);
        if |runs| >= 3 then
          "#" + ColorComponent(runs[0]) + ColorComponent(runs[1]) + ColorComponent(runs[2])
        else ""
      else bg
  }

  function ThumbnailUrl(src: Option<string>): string {
    match src
    case None => ""
    case Some(s) => Proxy.RemoveDiscordProxy(s)
  }

  function FieldsOf(fs: seq<FieldNode>): (r: seq<Field>)
    ensures |r| == |fs| && forall i :: 0 <= i < |fs| ==> r[i] == FieldOf(fs[i])
  {
    seq(|fs|, i requires 0 <= i < |fs| => FieldOf(fs[i]))
  }

  /** The record `extractEmbed` returns for an embed element. */
  function EmbedOf(e: EmbedNode): Embed {
    Embed(TextOr(e.author), TextOr(e.title), TextOr(e.description), ThumbnailUrl(e.thumbnailSrc),
          e.authorLinkHref.GetOr(""), EmbedColor(e.colorPill), FieldsOf(e.fields))
  }

  // ----- reactions -----

  /** `count ? parseInt(count.textContent) : 0`. */
  function CountOf(countText: Option<string>): Option<int> {
    match countText
    case None => Some(0)
    case Some(t) => Numbers.ParseInt(t)
  }

  function ReactionOf(r: ReactionNode): Reaction {
    match r.emoji
    case None => Reaction("", "", CountOf(r.countText))
    case Some(e) => Reaction(e.src, e.alt, CountOf(r.countText))
  }

  /** The list `extractReactions` returns. */
  function ReactionsOf(block: Option<seq<ReactionNode>>): (r: seq<Reaction>)
    ensures block.None? ==> r == []
    ensures block.Some? ==> (|r| == |block.value|
              && forall i :: 0 <= i < |r| ==> r[i] == ReactionOf(block.value[i]))
  {
    match block
    case None => []
    case Some(ns) => seq(|ns|, i requires 0 <= i < |ns| => ReactionOf(ns[i]))
  }

  // ----- content and mentions -----

  /** What one mention adds: its `title` with the first `#0000` removed, or nothing when
      the title is missing or empty. */
  function MentionOf(title: Option<string>): seq<string> {
    match title
    case None => []
    case Some(t) => if t == [] then [] else [Text.ReplaceFirst(t, "#0000", "")]
  }

  /** `mentionPeople`, in the order the mentions appear. */
  function MentionsOf(titles: seq<Option<string>>): seq<string>
    decreases |titles|
  {
    if titles == [] then []
    else MentionsOf(titles[..|titles| - 1]) + MentionOf(titles[|titles| - 1])
  }

  // ----- one message -----

  /** The timestamp element (`.chatlog__short-timestamp`, else `.chatlog__timestamp a`)
      read through the date parser `parseDate`: its title, or its trimmed text when the
      title is empty. */
  function TimestampOf(body: MessageBody, parseDate: string -> Option<int>): Timestamp {
    var node := if body.shortTimestamp.Some? then body.shortTimestamp else body.timestampLink;
    match node
    case None => NoTimestamp
    case Some(t) => Time(parseDate(if t.title != [] then t.title else Text.Trim(t.text)))
  }

  /** The short timestamp wins over the timestamp link, which is read only when there is
      no short timestamp, and without either there is no time; a non-empty `title` wins
      over the text. */
  lemma TimestampPreference(body: MessageBody, link: Option<TimeNode>, title: string, text: string,
                            parseDate: string -> Option<int>)
    ensures body.shortTimestamp.Some? ==>
              TimestampOf(body.(timestampLink := link), parseDate) == TimestampOf(body, parseDate)
    ensures body.shortTimestamp.None? ==>
              TimestampOf(body, parseDate) == TimestampOf(body.(shortTimestamp := body.timestampLink), parseDate)
    ensures body.shortTimestamp.None? && body.timestampLink.None? ==> TimestampOf(body, parseDate) == NoTimestamp
    ensures title != [] ==>
              TimestampOf(body.(shortTimestamp := Some(TimeNode(title, text))), parseDate) == Time(parseDate(title))
    ensures TimestampOf(body.(shortTimestamp := Some(TimeNode("", text))), parseDate)
            == Time(parseDate(Text.Trim(text)))
  {
  }

  /** The record `extractMessage` returns for a container whose body has content, with
      `primary` the header its author comes from. */
  function MessageOf(c: Container, body: MessageBody, primary: Header, content: Content,
                     parseDate: string -> Option<int>): Message
  {
    Message(
      c.messageId.GetOr(""),
      match primary.author case None => "Unknown" case Some(a) => Text.Trim(a.text),
      match primary.author case None => "" case Some(a) => a.userId.GetOr(""),
      body.avatarSrc.GetOr(""),
      TimestampOf(body, parseDate),
      Text.NormalizeSpaces(content.text),
      MentionsOf(content.mentionTitles),
      primary.botLabel,
      match body.embed case None => None case Some(e) => Some(EmbedOf(e)),
      ReactionsOf(c.reactions))
  }

  /** `PrimaryElement`: the body's own header, else the carried one. */
  function Primary(carried: Option<Header>, body: MessageBody): Option<Header> {
    if body.header.Some? then body.header else carried
  }

  /** `extractMessage(container)` with `this.lastAuthor == carried`. */
  function Step(carried: Option<Header>, c: Container, parseDate: string -> Option<int>): StepResult {
    match c.body
    case None => StepResult(carried, Skipped)
    case Some(body) =>
      var primary := Primary(carried, body);
      match primary
      case None => StepResult(None, Failed(NoHeaderSeen))
      case Some(h) =>
        match body.content
        case None => StepResult(primary, Failed(NoContent))
        case Some(ct) => StepResult(primary, Produced(MessageOf(c, body, h, ct, parseDate)))
  }

  // ----- the whole run -----

  /** The header carried out of a run, the records it pushed and the error that ended
      it, if any. */
  datatype Run = Run(carried: Option<Header>, records: seq<Message>, failure: Option<Failure>)

  /** The `forEach` of `scrapeAll` over `cs`, starting with `h` as the last header: the
      records pushed before an error stay pushed. */
  function Scrape(h: Option<Header>, cs: seq<Container>, parseDate: string -> Option<int>): Run
    decreases |cs|
  {
    if cs == [] then Run(h, [], None)
    else
      var st := Step(h, cs[0], parseDate);
      match st.outcome
      case Failed(e) => Run(st.carried, [], Some(e))
      case Skipped => Scrape(st.carried, cs[1..], parseDate)
      case Produced(m) =>
        var r := Scrape(st.carried, cs[1..], parseDate);
        Run(r.carried, [m] + r.records, r.failure)
  }

  /** Reference definition: the header of the last container of `cs` whose body has one,
      or `h` when there is none. */
  function LastHeader(h: Option<Header>, cs: seq<Container>): Option<Header>
    decreases |cs|
  {
    if cs == [] then h
    else
      var c := cs[|cs| - 1];
      if c.body.Some? && c.body.value.header.Some? then c.body.value.header
      else LastHeader(h, cs[..|cs| - 1])
  }

  /** Whether container `c`, with `h` the last header up to and including it, raises one
      of the two errors. */
  predicate Broken(h: Option<Header>, c: Container) {
    c.body.Some? && (h.None? || c.body.value.content.None?)
  }

  /** Reference definition of the records: one per container with a body, in document
      order, whose author is the last header up to and including that container. */
  function Records(h: Option<Header>, cs: seq<Container>, parseDate: string -> Option<int>): seq<Message>
    decreases |cs|
  {
    if cs == [] then []
    else
      var c := cs[|cs| - 1];
      var last := LastHeader(h, cs);
      var earlier := Records(h, cs[..|cs| - 1], parseDate);
      if c.body.Some? && last.Some? && c.body.value.content.Some? then
        earlier + [MessageOf(c, c.body.value, last.value, c.body.value.content.value, parseDate)]
      else earlier
  }

  function CountBodies(cs: seq<Container>): nat
    decreases |cs|
  {
    if cs == [] then 0
    else CountBodies(cs[..|cs| - 1]) + (if cs[|cs| - 1].body.Some? then 1 else 0)
  }

  function Pushed(o: Outcome): seq<Message> {
    match o
    case Produced(m) => [m]
    case _ => []
  }

  function FailureOf(o: Outcome): Option<Failure> {
    match o
    case Failed(e) => Some(e)
    case _ => None
  }

  // ----- lemmas: one container -----

  /** A step that produces a record had a body, a header to use and content. */
  lemma StepProduced(carried: Option<Header>, c: Container, parseDate: string -> Option<int>)
    requires Step(carried, c, parseDate).outcome.Produced?
    ensures c.body.Some? && Primary(carried, c.body.value).Some? && c.body.value.content.Some?
    ensures Step(carried, c, parseDate).outcome.message
            == MessageOf(c, c.body.value, Primary(carried, c.body.value).value, c.body.value.content.value, parseDate)
  {
    var body := c.body.value;
    var primary := Primary(carried, body);
    assert primary.Some? && body.content.Some?;
    var m := MessageOf(c, body, primary.value, body.content.value, parseDate);
    assert Step(carried, c, parseDate).outcome == Produced(m);
  }

  /** The three ways a step on a body ends: no header to use, no content, or a record. */
  lemma StepCases(carried: Option<Header>, c: Container, parseDate: string -> Option<int>)
    requires c.body.Some?
    ensures var body := c.body.value;
            var primary := Primary(carried, body);
            (primary.None? ==> Step(carried, c, parseDate) == StepResult(None, Failed(NoHeaderSeen)))
            && (primary.Some? && body.content.None? ==>
                  Step(carried, c, parseDate) == StepResult(primary, Failed(NoContent)))
            && (primary.Some? && body.content.Some? ==>
                  Step(carried, c, parseDate)
                  == StepResult(primary, Produced(MessageOf(c, body, primary.value, body.content.value, parseDate))))
  {
  }

  /** A container without a `.chatlog__message` body produces nothing and leaves the
      carried header alone. */
  lemma StepSkips(carried: Option<Header>, c: Container, parseDate: string -> Option<int>)
    requires c.body.None?
    ensures Step(carried, c, parseDate) == StepResult(carried, Skipped)
  {
  }

  /** A body with a header carries that header on, and its record's author comes from
      it. */
  lemma StepOwnHeader(carried: Option<Header>, c: Container, parseDate: string -> Option<int>)
    requires c.body.Some? && c.body.value.header.Some? && c.body.value.content.Some?
    ensures var st := Step(carried, c, parseDate);
            var h := c.body.value.header.value;
            st.carried == Some(h) && st.outcome.Produced?
            && st.outcome.message.isBot == h.botLabel
            && st.outcome.message.authorName == (if h.author.Some? then Text.Trim(h.author.value.text) else "Unknown")
  {
  }

  /** A body without a header takes author name, id and bot flag from the carried
      header, and carries it on. */
  lemma StepCarriesAuthor(h: Header, c: Container, parseDate: string -> Option<int>)
    requires c.body.Some? && c.body.value.header.None? && c.body.value.content.Some?
    ensures var st := Step(Some(h), c, parseDate);
            st.carried == Some(h) && st.outcome.Produced?
            && st.outcome.message.isBot == h.botLabel
            && st.outcome.message.authorName == (if h.author.Some? then Text.Trim(h.author.value.text) else "Unknown")
            && st.outcome.message.authorId == (if h.author.Some? then h.author.value.userId.GetOr("") else "")
  {
  }

  /** A body when no header has ever been seen raises the first error. */
  lemma StepNoHeader(c: Container, parseDate: string -> Option<int>)
    requires c.body.Some? && c.body.value.header.None?
    ensures Step(None, c, parseDate) == StepResult(None, Failed(NoHeaderSeen))
  {
  }

  /** Everything but the author comes from the message's own container: two carried
      headers give records that differ at most in author name, id and bot flag. */
  lemma StepOwnParts(h1: Option<Header>, h2: Option<Header>, c: Container, parseDate: string -> Option<int>)
    requires Step(h1, c, parseDate).outcome.Produced? && Step(h2, c, parseDate).outcome.Produced?
    ensures var m1 := Step(h1, c, parseDate).outcome.message;
            var m2 := Step(h2, c, parseDate).outcome.message;
            m1.messageId == m2.messageId && m1.avatarUrl == m2.avatarUrl
            && m1.timestamp == m2.timestamp && m1.content == m2.content
            && m1.mentionPeople == m2.mentionPeople && m1.embed == m2.embed
            && m1.reactions == m2.reactions
            && m1.avatarUrl == c.body.value.avatarSrc.GetOr("")
            && m1.timestamp == TimestampOf(c.body.value, parseDate)
  {
    StepProduced(h1, c, parseDate);
    StepProduced(h2, c, parseDate);
  }

  /** The content of a record has no white space at either end and single spaces between
      its words, which are the words of the content element's text. */
  lemma ContentShape(carried: Option<Header>, c: Container, parseDate: string -> Option<int>)
    requires Step(carried, c, parseDate).outcome.Produced?
    ensures var m := Step(carried, c, parseDate).outcome.message;
            Text.SingleSpaced(m.content)
            && m.content == Text.JoinWords(Text.Words(c.body.value.content.value.text))
  {
    StepProduced(carried, c, parseDate);
    Text.NormalizeSpacesShape(c.body.value.content.value.text);
    Text.NormalizeSpacesJoinsWords(c.body.value.content.value.text);
  }

  /** A record has an embed exactly when its body has a `.chatlog__embed`. */
  lemma EmbedPresence(carried: Option<Header>, c: Container, parseDate: string -> Option<int>)
    requires Step(carried, c, parseDate).outcome.Produced?
    ensures Step(carried, c, parseDate).outcome.message.embed.Some? <==> c.body.value.embed.Some?
  {
    StepProduced(carried, c, parseDate);
  }

  // ----- lemmas: mentions, reactions, colour -----

  lemma {:induction false} MentionsOfAppend(a: seq<Option<string>>, b: seq<Option<string>>)
    ensures MentionsOf(a + b) == MentionsOf(a) + MentionsOf(b)
    decreases |b|
  {
    if b == [] {
      assert a + b == a;
    } else {
      var b' := b[..|b| - 1];
      assert (a + b)[..|a + b| - 1] == a + b';
      assert (a + b)[|a + b| - 1] == b[|b| - 1];
      MentionsOfAppend(a, b');
    }
  }

  /** Mentions keep their order and their duplicates: each title contributes on its own,
      nothing for a missing or empty title and the title without its first `#0000`
      otherwise. */
  lemma MentionsInOrder(a: seq<Option<string>>, t: Option<string>, b: seq<Option<string>>)
    ensures MentionsOf(a + [t] + b) == MentionsOf(a)
              + (if t.Some? && t.value != [] then [Text.ReplaceFirst(t.value, "#0000", "")] else [])
              + MentionsOf(b)
  {
    MentionsOfAppend(a + [t], b);
    MentionsOfAppend(a, [t]);
    assert [t][..0] == [];
  }

  /** Only the first `#0000` of a title is removed. */
  lemma MentionFirstTagOnly(x: string, y: string)
    requires !Text.Contains(x, "#0000")
    ensures MentionOf(Some(x + "#0000" + y)) == [x + y]
  {
    var t := x + "#0000" + y;
    TagAfter(x, y);
    NoTagBefore(x, y);
    Text.ReplaceFirstAt(t, "#0000", "", |x|);
  }

  /** `x + "#0000" + y` has the tag at `|x|`, with `x` before it and `y` after it. */
  lemma TagAfter(x: string, y: string)
    ensures var t := x + "#0000" + y;
            Text.OccursAt(t, "#0000", |x|) && t[..|x|] + "" + t[|x| + 5..] == x + y
  {
    var t := x + "#0000" + y;
    assert t[|x|..|x| + 5] == "#0000";
    assert t[..|x|] == x && t[|x| + 5..] == y;
  }

  /** With no tag inside `x`, the first tag of `x + "#0000" + y` is not before `|x|`. */
  lemma NoTagBefore(x: string, y: string)
    requires !Text.Contains(x, "#0000")
    ensures forall j :: 0 <= j < |x| ==> !Text.OccursAt(x + "#0000" + y, "#0000", j)
  {
    var t := x + "#0000" + y;
    forall j | 0 <= j < |x|
      ensures !Text.OccursAt(t, "#0000", j)
    {
      if j + 5 <= |x| {
        assert t[j..j + 5] == x[j..j + 5];
        assert !Text.OccursAt(x, "#0000", j);
      } else if j + 5 <= |t| {
        NoTagStraddle(x, y, j);
      }
    }
  }

  /** An occurrence of `#0000` that starts inside `x` and ends past it would put a `#`
      where `#0000` has a `0`. */
  lemma NoTagStraddle(x: string, y: string, j: nat)
    requires j < |x| < j + 5 <= |x + "#0000" + y|
    ensures (x + "#0000" + y)[j..j + 5] != "#0000"
  {
    var t := x + "#0000" + y;
    assert t[|x|] == '#';
    assert t[j..j + 5][|x| - j] == t[|x|];
    assert "#0000"[|x| - j] == '0';
  }

  /** Reaction counts: 0 without a count element, the number for a decimal numeral. */
  lemma ReactionCounts(n: nat)
    ensures CountOf(None) == Some(0)
    ensures CountOf(Some(Numbers.Decimal(n))) == Some(n)
  {
    Numbers.ParseIntDecimal(n);
  }

  /** A count text with no digit after white space and an optional sign is NaN. */
  lemma ReactionCountNaN(t: string)
    requires var d := Text.DropWhite(t);
             var u := if d != [] && (d[0] == '-' || d[0] == '+') then d[1..] else d;
             u == [] || !Numbers.IsDigit(u[0])
    ensures CountOf(Some(t)) == None
  {
    Numbers.ParseIntNaN(t);
  }

  /** A count text without any digit is NaN. */
  lemma ReactionNoDigits(t: string)
    requires forall i :: 0 <= i < |t| ==> !Numbers.IsDigit(t[i])
    ensures CountOf(Some(t)) == None
  {
    var d := Text.DropWhite(t);
    var u := if d != [] && (d[0] == '-' || d[0] == '+') then d[1..] else d;
    if u != [] {
      assert u[0] == t[|t| - |u|];
    }
    Numbers.ParseIntNaN(t);
  }

  /** A background that does not start with `rgb` is the colour as it is. */
  lemma ColorPassThrough(bg: string)
    requires !Text.StartsWith(bg, "rgb")
    ensures EmbedColor(Some(bg)) == bg
    ensures EmbedColor(None) == ""
  {
  }

  /** An `rgb` background with fewer than three numbers gives no colour. */
  lemma ColorTooFewRuns(bg: string)
    requires Text.StartsWith(bg, "rgb") && |Numbers.DigitRuns(bg)| < 3
    ensures EmbedColor(Some(bg)) == ""
  {
  }

  predicate NoDigits(s: string) {
    forall i :: 0 <= i < |s| ==> !Numbers.IsDigit(s[i])
  }

  /** A component 0..255 written in decimal becomes two lower-case hexadecimal digits. */
  lemma ComponentOf(v: nat)
    requires v < 256
    ensures var h := ColorComponent(Numbers.Decimal(v));
            h == Numbers.PadStart2(Numbers.Hex(v)) && |h| == 2
            && Numbers.AllRadixDigits(h, 16) && Numbers.ValueOf(h, 16) == v
  {
    Numbers.ParseIntDecimal(v);
    Numbers.Hex2RoundTrip(v);
  }

  /** Text without digits, then a number, then a non-digit: one run. */
  lemma RunThrough(p: string, n: nat, y: string)
    requires NoDigits(p) && (y == [] || !Numbers.IsDigit(y[0]))
    ensures Numbers.DigitRuns(p + (Numbers.Decimal(n) + y)) == [Numbers.Decimal(n)] + Numbers.DigitRuns(y)
  {
    Numbers.DecimalDigits(n);
    Numbers.DigitRunsSkip(p, Numbers.Decimal(n) + y);
    Numbers.DigitRunsRun(Numbers.Decimal(n), y);
  }

  lemma NoDigitsRgb(p1: string)
    requires NoDigits(p1)
    ensures NoDigits("rgb" + p1)
  {
    var lead := "rgb" + p1;
    assert forall i :: 3 <= i < |lead| ==> lead[i] == p1[i - 3];
  }

  /** The background `rgb<p1><r><p2><g><p3><b><rest>`, the numbers in decimal. */
  function RgbText(p1: string, r: nat, p2: string, g: nat, p3: string, b: nat, rest: string): string {
    ("rgb" + p1) + (Numbers.Decimal(r) + (p2 + (Numbers.Decimal(g) + (p3 + (Numbers.Decimal(b) + rest)))))
  }

  lemma RunsOfRgb(p1: string, r: nat, p2: string, g: nat, p3: string, b: nat, rest: string)
    requires NoDigits(p1) && p2 != [] && NoDigits(p2) && p3 != [] && NoDigits(p3)
    requires rest == [] || !Numbers.IsDigit(rest[0])
    ensures Numbers.DigitRuns(RgbText(p1, r, p2, g, p3, b, rest))
            == [Numbers.Decimal(r), Numbers.Decimal(g), Numbers.Decimal(b)] + Numbers.DigitRuns(rest)
  {
    var dr, dg, db := Numbers.Decimal(r), Numbers.Decimal(g), Numbers.Decimal(b);
    var y3 := p3 + (db + rest);
    var y2 := p2 + (dg + y3);
    NoDigitsRgb(p1);
    RunThrough(p3, b, rest);
    RunThrough(p2, g, y3);
    RunThrough("rgb" + p1, r, y2);
    assert [dr] + ([dg] + ([db] + Numbers.DigitRuns(rest))) == [dr, dg, db] + Numbers.DigitRuns(rest);
  }

  /** An `rgb(r, g, b)` or `rgba(r, g, b, a)` background gives `#rrggbb`: seven
      characters whose pairs are the components in two lower-case hexadecimal digits
      (which read back as the components, by `ComponentOf`); what follows the third
      number is ignored. */
  lemma ColorRgb(p1: string, r: nat, p2: string, g: nat, p3: string, b: nat, rest: string)
    requires r < 256 && g < 256 && b < 256
    requires NoDigits(p1) && p2 != [] && NoDigits(p2) && p3 != [] && NoDigits(p3)
    requires rest == [] || !Numbers.IsDigit(rest[0])
    ensures var color := EmbedColor(Some(RgbText(p1, r, p2, g, p3, b, rest)));
            color == "#" + Numbers.PadStart2(Numbers.Hex(r)) + Numbers.PadStart2(Numbers.Hex(g)) + Numbers.PadStart2(Numbers.Hex(b))
            && |color| == 7
  {
    var bg := RgbText(p1, r, p2, g, p3, b, rest);
    RunsOfRgb(p1, r, p2, g, p3, b, rest);
    var runs := Numbers.DigitRuns(bg);
    assert |runs| >= 3 && runs[0] == Numbers.Decimal(r) && runs[1] == Numbers.Decimal(g)
           && runs[2] == Numbers.Decimal(b);
    RgbPrefix(p1, r, p2, g, p3, b, rest);
    ComponentOf(r);
    ComponentOf(g);
    ComponentOf(b);
    calc {
      EmbedColor(Some(bg));
      "#" + ColorComponent(runs[0]) + ColorComponent(runs[1]) + ColorComponent(runs[2]);
      "#" + Numbers.PadStart2(Numbers.Hex(r)) + Numbers.PadStart2(Numbers.Hex(g)) + Numbers.PadStart2(Numbers.Hex(b));
    }
  }

  lemma RgbPrefix(p1: string, r: nat, p2: string, g: nat, p3: string, b: nat, rest: string)
    ensures var bg := RgbText(p1, r, p2, g, p3, b, rest);
            bg != [] && Text.StartsWith(bg, "rgb")
  {
    var bg := RgbText(p1, r, p2, g, p3, b, rest);
    assert bg[..3] == "rgb";
  }

  // ----- lemmas: the whole run -----

  /** Every missing part of an embed reads as `''`. */
  lemma EmbedDefaults(e: EmbedNode)
    ensures var m := EmbedOf(e);
            (e.author.None? ==> m.author == "") && (e.title.None? ==> m.title == "")
            && (e.description.None? ==> m.description == "")
            && (e.thumbnailSrc.None? ==> m.thumbnailUrl == "")
            && (e.authorLinkHref.None? ==> m.link == "") && (e.colorPill.None? ==> m.color == "")
  {
  }

  /** One field record per field element, at the same index: a missing name or value
      reads as `''`, a present one as its trimmed text. */
  lemma FieldDefaults(e: EmbedNode)
    ensures var fields := EmbedOf(e).fields;
            |fields| == |e.fields|
            && forall i :: 0 <= i < |e.fields| ==>
                 (e.fields[i].name.None? ==> fields[i].name == "")
                 && (e.fields[i].name.Some? ==> fields[i].name == Text.Trim(e.fields[i].name.value))
                 && (e.fields[i].value.None? ==> fields[i].value == "")
                 && (e.fields[i].value.Some? ==> fields[i].value == Text.Trim(e.fields[i].value.value))
  {
  }

  /** The field records follow the field elements in document order: those of two runs
      of elements are those of the first run, then those of the second. */
  lemma FieldsOfAppend(a: seq<FieldNode>, b: seq<FieldNode>)
    ensures FieldsOf(a + b) == FieldsOf(a) + FieldsOf(b)
  {
    assert forall i :: 0 <= i < |a + b| ==> (a + b)[i] == if i < |a| then a[i] else b[i - |a|];
  }

  /** The reaction records follow the reaction elements in document order. */
  lemma ReactionsOfAppend(a: seq<ReactionNode>, b: seq<ReactionNode>)
    ensures ReactionsOf(Some(a + b)) == ReactionsOf(Some(a)) + ReactionsOf(Some(b))
    ensures ReactionsOf(None) == []
  {
    var r, ra, rb := ReactionsOf(Some(a + b)), ReactionsOf(Some(a)), ReactionsOf(Some(b));
    assert |r| == |ra + rb|;
    forall i | 0 <= i < |r|
      ensures r[i] == (ra + rb)[i]
    {
      if i < |a| {
        assert (a + b)[i] == a[i];
      } else {
        assert (a + b)[i] == b[i - |a|];
      }
    }
  }

  /** Each reaction record takes `url` and `name` from the emoji's `src` and `alt`, or
      `''` for both without an emoji, and its count from the count element. */
  lemma ReactionParts(ns: seq<ReactionNode>)
    ensures var rs := ReactionsOf(Some(ns));
            |rs| == |ns|
            && forall i :: 0 <= i < |ns| ==>
                 (ns[i].emoji.None? ==> rs[i].url == "" && rs[i].name == "")
                 && (ns[i].emoji.Some? ==> rs[i].url == ns[i].emoji.value.src
                                           && rs[i].name == ns[i].emoji.value.alt)
                 && rs[i].count == CountOf(ns[i].countText)
  {
  }

  /** Once a run has failed, later containers change nothing. */
  lemma {:induction false} ScrapeFailedPrefix(h: Option<Header>, a: seq<Container>, b: seq<Container>, parseDate: string -> Option<int>)
    requires Scrape(h, a, parseDate).failure.Some?
    ensures Scrape(h, a + b, parseDate) == Scrape(h, a, parseDate)
    decreases |a|
  {
    assert a != [];
    assert (a + b)[0] == a[0];
    assert (a + b)[1..] == a[1..] + b;
    var st := Step(h, a[0], parseDate);
    if !st.outcome.Failed? {
      ScrapeFailedPrefix(st.carried, a[1..], b, parseDate);
    }
  }

  /** One more container after a run that has not failed is one more step. */
  lemma {:induction false} ScrapeSnoc(h: Option<Header>, cs: seq<Container>, c: Container, parseDate: string -> Option<int>)
    requires Scrape(h, cs, parseDate).failure.None?
    ensures var r := Scrape(h, cs, parseDate);
            var st := Step(r.carried, c, parseDate);
            Scrape(h, cs + [c], parseDate) == Run(st.carried, r.records + Pushed(st.outcome), FailureOf(st.outcome))
    decreases |cs|
  {
    SnocParts(cs, c);
    if cs != [] {
      var st := Step(h, cs[0], parseDate);
      ScrapeSnoc(st.carried, cs[1..], c, parseDate);
    }
  }

  lemma SnocParts<T>(cs: seq<T>, c: T)
    ensures (cs + [c])[0] == if cs == [] then c else cs[0]
    ensures (cs + [c])[1..] == if cs == [] then [] else cs[1..] + [c]
  {
  }

  /** The run over the first `i + 1` containers, from the run over the first `i`. */
  lemma ScrapeNext(h: Option<Header>, cs: seq<Container>, i: nat, parseDate: string -> Option<int>)
    requires i < |cs| && Scrape(h, cs[..i], parseDate).failure.None?
    ensures var r := Scrape(h, cs[..i], parseDate);
            var st := Step(r.carried, cs[i], parseDate);
            Scrape(h, cs[..i + 1], parseDate) == Run(st.carried, r.records + Pushed(st.outcome), FailureOf(st.outcome))
  {
    assert cs[..i + 1] == cs[..i] + [cs[i]];
    ScrapeSnoc(h, cs[..i], cs[i], parseDate);
  }

  /** Pushing a step's record onto the records already held. */
  lemma PushedAppend(held: seq<Message>, rs: seq<Message>, o: Outcome)
    ensures held + (rs + Pushed(o)) == (held + rs) + Pushed(o)
  {
  }

  /** Once the first `i + 1` containers end in an error, the rest are never looked at. */
  lemma ScrapeStops(h: Option<Header>, cs: seq<Container>, i: nat, parseDate: string -> Option<int>)
    requires i < |cs| && Scrape(h, cs[..i + 1], parseDate).failure.Some?
    ensures Scrape(h, cs, parseDate) == Scrape(h, cs[..i + 1], parseDate)
  {
    ScrapeFailedPrefix(h, cs[..i + 1], cs[i + 1..], parseDate);
    assert cs[..i + 1] + cs[i + 1..] == cs;
  }

  lemma LastHeaderSnoc(h: Option<Header>, init: seq<Container>, c: Container)
    ensures LastHeader(h, init + [c])
            == if c.body.Some? && c.body.value.header.Some? then c.body.value.header else LastHeader(h, init)
  {
    var cs := init + [c];
    assert cs[..|cs| - 1] == init && cs[|cs| - 1] == c;
  }

  lemma RecordsSnoc(h: Option<Header>, init: seq<Container>, c: Container, parseDate: string -> Option<int>)
    ensures var last := LastHeader(h, init + [c]);
            Records(h, init + [c], parseDate)
            == Records(h, init, parseDate)
               + if c.body.Some? && last.Some? && c.body.value.content.Some?
                 then [MessageOf(c, c.body.value, last.value, c.body.value.content.value, parseDate)]
                 else []
  {
    var cs := init + [c];
    assert cs[..|cs| - 1] == init && cs[|cs| - 1] == c;
  }

  /** One step, taken with the last header of `init` carried, agrees with the reference
      definitions on `init + [c]`. */
  lemma StepReference(h: Option<Header>, init: seq<Container>, c: Container, parseDate: string -> Option<int>)
    ensures var st := Step(LastHeader(h, init), c, parseDate);
            var last := LastHeader(h, init + [c]);
            st.carried == last
            && (FailureOf(st.outcome).None? <==> !Broken(last, c))
            && Records(h, init + [c], parseDate) == Records(h, init, parseDate) + Pushed(st.outcome)
  {
    LastHeaderSnoc(h, init, c);
    RecordsSnoc(h, init, c, parseDate);
    var carried := LastHeader(h, init);
    var last := LastHeader(h, init + [c]);
    var earlier := Records(h, init, parseDate);
    if c.body.None? {
      StepSkips(carried, c, parseDate);
      assert Records(h, init + [c], parseDate) == earlier + [];
    } else {
      StepBody(carried, c, parseDate);
    }
  }

  /** A step on a body carries its primary header; it pushes the record exactly when
      there is a header and content, and fails otherwise. */
  lemma StepBody(carried: Option<Header>, c: Container, parseDate: string -> Option<int>)
    requires c.body.Some?
    ensures var body := c.body.value;
            var primary := Primary(carried, body);
            var st := Step(carried, c, parseDate);
            st.carried == primary
            && (FailureOf(st.outcome).None? <==> primary.Some? && body.content.Some?)
            && Pushed(st.outcome)
               == if primary.Some? && body.content.Some?
                  then [MessageOf(c, body, primary.value, body.content.value, parseDate)]
                  else []
  {
  }

  lemma SplitLast(cs: seq<Container>)
    requires cs != []
    ensures cs == cs[..|cs| - 1] + [cs[|cs| - 1]]
  {
  }

  /** The run agrees with the reference definitions: without an error it carries out
      the last header and pushes exactly the reference records. */
  lemma {:induction false} ScrapeMatchesReference(h: Option<Header>, cs: seq<Container>, parseDate: string -> Option<int>)
    requires Scrape(h, cs, parseDate).failure.None?
    ensures Scrape(h, cs, parseDate).carried == LastHeader(h, cs)
    ensures Scrape(h, cs, parseDate).records == Records(h, cs, parseDate)
    decreases |cs|
  {
    if cs != [] {
      var init := cs[..|cs| - 1];
      var c := cs[|cs| - 1];
      SplitLast(cs);
      if Scrape(h, init, parseDate).failure.Some? {
        ScrapeFailedPrefix(h, init, [c], parseDate);
      } else {
        ScrapeMatchesReference(h, init, parseDate);
        ScrapeSnoc(h, init, c, parseDate);
        StepReference(h, init, c, parseDate);
      }
    }
  }

  /** No container of `cs` is broken, each judged with the last header up to and
      including it. */
  predicate Unbroken(h: Option<Header>, cs: seq<Container>) {
    forall i :: 0 <= i < |cs| ==> !Broken(LastHeader(h, cs[..i + 1]), cs[i])
  }

  lemma UnbrokenSnoc(h: Option<Header>, init: seq<Container>, c: Container)
    ensures Unbroken(h, init + [c]) <==> Unbroken(h, init) && !Broken(LastHeader(h, init + [c]), c)
  {
    var cs := init + [c];
    assert forall i :: 0 <= i < |init| ==> init[..i + 1] == cs[..i + 1] && init[i] == cs[i];
    assert cs[..|init| + 1] == cs && cs[|init|] == c;
  }

  /** A run fails exactly when some container is broken, judged with the last header up
      to and including it. */
  lemma {:induction false} ScrapeFailsIff(h: Option<Header>, cs: seq<Container>, parseDate: string -> Option<int>)
    ensures Scrape(h, cs, parseDate).failure.None? <==> Unbroken(h, cs)
    decreases |cs|
  {
    if cs != [] {
      var init := cs[..|cs| - 1];
      var c := cs[|cs| - 1];
      SplitLast(cs);
      UnbrokenSnoc(h, init, c);
      ScrapeFailsIff(h, init, parseDate);
      if Scrape(h, init, parseDate).failure.Some? {
        ScrapeFailedPrefix(h, init, [c], parseDate);
      } else {
        ScrapeMatchesReference(h, init, parseDate);
        ScrapeSnoc(h, init, c, parseDate);
        StepReference(h, init, c, parseDate);
      }
    }
  }

  /** Without an error there is exactly one record per container with a body. */
  lemma {:induction false} RecordsCount(h: Option<Header>, cs: seq<Container>, parseDate: string -> Option<int>)
    requires Unbroken(h, cs)
    ensures |Records(h, cs, parseDate)| == CountBodies(cs)
    decreases |cs|
  {
    if cs != [] {
      var init := cs[..|cs| - 1];
      var c := cs[|cs| - 1];
      SplitLast(cs);
      UnbrokenSnoc(h, init, c);
      RecordsCount(h, init, parseDate);
      RecordsSnoc(h, init, c, parseDate);
      assert CountBodies(cs) == CountBodies(init) + (if c.body.Some? then 1 else 0);
    }
  }
}
