/** The parts of an exported chat log the scraper reads, as plain data. Each lookup the
    scraper makes with `querySelector` is an `Option` (the first matching element, if
    any); each `querySelectorAll` is a sequence in document order. Text is an element's
    `textContent`; `src` and `style.backgroundColor` are the strings those properties
    return. */
module Dom {
  import opened Wrappers

  /** `.chatlog__author`: its text and its `data-user-id` attribute. */
  datatype Author = Author(text: string, userId: Option<string>)

  /** `.chatlog__header`: the author element inside it, and whether it holds a
      `.chatlog__bot-label`. */
  datatype Header = Header(author: Option<Author>, botLabel: bool)

  /** A timestamp element: its `title` property (empty when the attribute is absent)
      and its text. */
  datatype TimeNode = TimeNode(title: string, text: string)

  /** `.chatlog__content`: its text and the `title` attribute of each
      `.chatlog__markdown-mention` inside it. */
  datatype Content = Content(text: string, mentionTitles: seq<Option<string>>)

  /** `.chatlog__embed-field`: the text of its name and value elements, if present. */
  datatype FieldNode = FieldNode(name: Option<string>, value: Option<string>)

  /** `.chatlog__embed`: the text of its author, title and description elements, the
      thumbnail's `src`, the colour pill's `style.backgroundColor`, the `href` of the
      author link, and its fields. */
  datatype EmbedNode = EmbedNode(
    author: Option<string>,
    title: Option<string>,
    description: Option<string>,
    thumbnailSrc: Option<string>,
    colorPill: Option<string>,
    authorLinkHref: Option<string>,
    fields: seq<FieldNode>)

  /** `.chatlog__emoji`: its `src` and `alt`. */
  datatype Emoji = Emoji(src: string, alt: string)

  /** `.chatlog__reaction`: its emoji and the text of its count element. */
  datatype ReactionNode = ReactionNode(emoji: Option<Emoji>, countText: Option<string>)

  /** `.chatlog__message`, the body of a message. */
  datatype MessageBody = MessageBody(
    header: Option<Header>,
    avatarSrc: Option<string>,
    shortTimestamp: Option<TimeNode>,   // .chatlog__short-timestamp
    timestampLink: Option<TimeNode>,    // .chatlog__timestamp a
    content: Option<Content>,
    embed: Option<EmbedNode>)

  /** `.chatlog__message-container`: its `data-message-id`, its body and the reactions
      of its `.chatlog__reactions` block (None when there is no such block). */
  datatype Container = Container(
    messageId: Option<string>,
    body: Option<MessageBody>,
    reactions: Option<seq<ReactionNode>>)

  /** The text of each `.preamble__entry`, and the message containers, in document
      order. */
  datatype Document = Document(preamble: seq<string>, containers: seq<Container>)
}
