/**
 * The pure helpers that turn Jira API records into the app's issue model:
 * the browse URL, authors, attachments, comments and the changelog.
 * Properties a helper does not touch are kept in `otherProps` and copied
 * verbatim, as `Object.assign` does.
 */
module JiraIssueMap {
  import opened Wrappers

  const BrowsePath := "/browse/"
  const DefaultProtocol := "https://"

  // ---------------------------------------------------------------------
  // makeIssueUrl
  // ---------------------------------------------------------------------

  /**
   * The scheme of `link` ends at `i`: `link[..i]` is a non-empty run of
   * non-colon characters and "://" follows it.
   */
  ghost predicate SchemeEndsAt(link: string, i: int) {
    1 <= i && i + 3 <= |link| && link[i..i + 3] == "://" && ':' !in link[..i]
  }

  /** `link` matches `/(^[^:]+):\/\//`: it starts with a scheme. */
  ghost predicate HasProtocol(link: string) {
    exists i :: SchemeEndsAt(link, i)
  }

  /** The position of the first colon of `link`, or `|link|` when there is none. */
  function FirstColon(link: string): (r: nat)
    ensures r <= |link|
    ensures ':' !in link[..r]
    ensures r < |link| ==> link[r] == ':'
  {
    if |link| == 0 || link[0] == ':' then 0
    else
      var r := 1 + FirstColon(link[1..]);
      assert link[..r] == [link[0]] + link[1..][..r - 1];
      r
  }

  /**
   * The match test: since `[^:]+` cannot pass a colon, "://" must sit at
   * the first colon. It decides exactly the regular expression.
   */
  function MatchesProtocol(link: string): (b: bool)
    ensures b <==> HasProtocol(link)
  {
    RegexSchemeAtFirstColon(link);
    var i := FirstColon(link);
    1 <= i && i + 3 <= |link| && link[i..i + 3] == "://"
  }

  /** The regular expression matches exactly when the scheme ends at the first colon. */
  lemma RegexSchemeAtFirstColon(link: string)
    ensures HasProtocol(link) <==> SchemeEndsAt(link, FirstColon(link))
  {
    var r := FirstColon(link);
    if HasProtocol(link) {
      var i :| SchemeEndsAt(link, i);
      assert link[i] == link[i..i + 3][0] == ':';
    }
  }

  /** A scheme at the start of a string survives anything appended to it. */
  lemma {:induction false} ProtocolSurvivesAppend(link: string, rest: string)
    requires HasProtocol(link)
    ensures HasProtocol(link + rest)
  {
    var i :| SchemeEndsAt(link, i);
    assert (link + rest)[i..i + 3] == link[i..i + 3];
    assert (link + rest)[..i] == link[..i];
    assert SchemeEndsAt(link + rest, i);
  }

  /**
   * `makeIssueUrl(host, key)`: `host + '/browse/' + key`, with `https://`
   * put in front when that has no scheme. The result always has one.
   */
  function MakeIssueUrl(host: string, issueKey: string): (url: string)
    ensures HasProtocol(host + BrowsePath + issueKey) ==> url == host + BrowsePath + issueKey
    ensures !HasProtocol(host + BrowsePath + issueKey) ==> url == DefaultProtocol + host + BrowsePath + issueKey
    ensures HasProtocol(url)
  {
    var fullLink := host + BrowsePath + issueKey;
    if MatchesProtocol(fullLink) then fullLink
    else
      assert SchemeEndsAt(DefaultProtocol + fullLink, 5);
      DefaultProtocol + fullLink
  }

  /** A host configured with a scheme is used as it is. */
  lemma HostWithProtocolKept(host: string, issueKey: string)
    requires HasProtocol(host)
    ensures MakeIssueUrl(host, issueKey) == host + BrowsePath + issueKey
  {
    ProtocolSurvivesAppend(host, BrowsePath + issueKey);
    assert host + (BrowsePath + issueKey) == host + BrowsePath + issueKey;
  }

  // ---------------------------------------------------------------------
  // mapAuthor
  // ---------------------------------------------------------------------

  /** An author as the Jira API sends it. */
  datatype JiraOriginalAuthor = JiraOriginalAuthor(
    self: string,
    avatarUrls: map<string, string>,
    otherProps: map<string, string>)

  /** An author in the app's issue model; `self` and `avatarUrls` are cleared. */
  datatype JiraAuthor = JiraAuthor(
    self: Option<string>,
    avatarUrls: Option<map<string, string>>,
    avatarUrl: Option<string>,
    otherProps: map<string, string>)

  /** The avatar size the app shows. */
  const AvatarSize := "48x48"

  /**
   * `mapAuthor`: null for a missing author; otherwise a copy with `self`
   * and `avatarUrls` cleared and `avatarUrl` set to the 48x48 avatar (left
   * `undefined` when there is none).
   */
  function MapAuthor(author: Option<JiraOriginalAuthor>): (r: Option<JiraAuthor>)
    ensures r.None? <==> author.None?
    ensures r.Some? ==> r.value.self.None? && r.value.avatarUrls.None?
    ensures r.Some? ==> r.value.otherProps == author.value.otherProps
    ensures r.Some? ==> (r.value.avatarUrl.Some? <==> AvatarSize in author.value.avatarUrls)
    ensures r.Some? && r.value.avatarUrl.Some? ==> r.value.avatarUrl.value == author.value.avatarUrls[AvatarSize]
  {
    match author
    case None => None
    case Some(a) =>
      var avatarUrl := if AvatarSize in a.avatarUrls then Some(a.avatarUrls[AvatarSize]) else None;
      Some(JiraAuthor(None, None, avatarUrl, a.otherProps))
  }

  /** Only the other properties and the 48x48 avatar of an author reach the mapped author. */
  lemma MapAuthorForgets(a: JiraOriginalAuthor, b: JiraOriginalAuthor)
    requires a.otherProps == b.otherProps
    requires AvatarSize in a.avatarUrls <==> AvatarSize in b.avatarUrls
    requires AvatarSize in a.avatarUrls ==> a.avatarUrls[AvatarSize] == b.avatarUrls[AvatarSize]
    ensures MapAuthor(Some(a)) == MapAuthor(Some(b))
  {
  }

  // ---------------------------------------------------------------------
  // mapAttachment, mapAttachmentType, mapJiraAttachmentToAttachment
  // ---------------------------------------------------------------------

  /** An attachment as the Jira API sends it, and, with `self` and `author` cleared, in the issue model. */
  datatype JiraAttachment = JiraAttachment(
    self: Option<string>,
    author: Option<JiraOriginalAuthor>,
    filename: string,
    mimeType: string,
    content: string,
    thumbnail: Option<string>,
    otherProps: map<string, string>)

  /** `mapAttachment`: a copy with `self` and `author` cleared. */
  function MapAttachment(attachment: JiraAttachment): (r: JiraAttachment)
    ensures r.self.None? && r.author.None?
    ensures r.filename == attachment.filename && r.mimeType == attachment.mimeType
    ensures r.content == attachment.content && r.thumbnail == attachment.thumbnail
    ensures r.otherProps == attachment.otherProps
  {
    attachment.(self := None, author := None)
  }

  /** Mapping an attachment twice changes nothing more. */
  lemma MapAttachmentIdempotent(attachment: JiraAttachment)
    ensures MapAttachment(MapAttachment(attachment)) == MapAttachment(attachment)
  {
  }

  /** The kinds of app attachment an issue attachment becomes. */
  datatype DropPasteInputType = IMG | LINK

  /** The MIME types shown as images. */
  const ImageMimeTypes: set<string> := {"image/gif", "image/jpeg", "image/png"}

  /** `mapAttachmentType`: an image for the three image MIME types, a link for every other string. */
  function MapAttachmentType(mimeType: string): (t: DropPasteInputType)
    ensures t == IMG <==> mimeType in ImageMimeTypes
    ensures t == LINK <==> mimeType !in ImageMimeTypes
  {
    if mimeType == "image/gif" || mimeType == "image/jpeg" || mimeType == "image/png" then IMG
    else LINK
  }

  /** An attachment in the app's model. */
  datatype Attachment = Attachment(
    id: Option<string>,
    title: string,
    path: string,
    originalImgPath: string,
    attachmentType: DropPasteInputType)

  /** `thumbnail` is truthy: present and non-empty. */
  predicate HasThumbnail(attachment: JiraAttachment) {
    attachment.thumbnail.Some? && attachment.thumbnail.value != ""
  }

  /**
   * `mapJiraAttachmentToAttachment`: no id, the file name as title, the
   * thumbnail as path when there is one and the content otherwise, and the
   * content as the original image.
   */
  function MapJiraAttachmentToAttachment(attachment: JiraAttachment): (r: Attachment)
    ensures r.id.None?
    ensures r.title == attachment.filename
    ensures r.originalImgPath == attachment.content
    ensures HasThumbnail(attachment) ==> r.path == attachment.thumbnail.value
    ensures !HasThumbnail(attachment) ==> r.path == attachment.content
    ensures r.attachmentType == IMG <==> attachment.mimeType in ImageMimeTypes
  {
    Attachment(
      None,
      attachment.filename,
      if HasThumbnail(attachment) then attachment.thumbnail.value else attachment.content,
      attachment.content,
      MapAttachmentType(attachment.mimeType))
  }

  // ---------------------------------------------------------------------
  // mapComments
  // ---------------------------------------------------------------------

  /** A comment as the Jira API sends it. */
  datatype JiraOriginalComment = JiraOriginalComment(
    self: Option<string>,
    author: Option<JiraOriginalAuthor>,
    updateAuthor: Option<JiraOriginalAuthor>,
    otherProps: map<string, string>)

  /** A comment in the app's issue model. */
  datatype JiraComment = JiraComment(
    self: Option<string>,
    author: Option<JiraAuthor>,
    updateAuthor: Option<JiraAuthor>,
    otherProps: map<string, string>)

  /** `mapComments`: a copy with `self` and `updateAuthor` cleared and the author mapped. */
  function MapComments(comment: JiraOriginalComment): (r: JiraComment)
    ensures r.self.None? && r.updateAuthor.None?
    ensures r.author.None? <==> comment.author.None?
    ensures r.author == MapAuthor(comment.author)
    ensures r.otherProps == comment.otherProps
  {
    JiraComment(None, MapAuthor(comment.author), None, comment.otherProps)
  }

  // ---------------------------------------------------------------------
  // mapChangelog
  // ---------------------------------------------------------------------

  datatype ChangelogItem = ChangelogItem(field: string, fromString: Option<string>, toString: Option<string>)

  datatype ChangelogHistory = ChangelogHistory(
    author: Option<JiraOriginalAuthor>,
    created: string,
    items: seq<ChangelogItem>)

  datatype JiraOriginalChangelog = JiraOriginalChangelog(histories: seq<ChangelogHistory>)

  datatype JiraChangelogEntry = JiraChangelogEntry(
    author: Option<JiraAuthor>,
    created: string,
    field: string,
    from: Option<string>,
    to: Option<string>)

  /** The entry pushed for one item of one history. */
  function ToEntry(history: ChangelogHistory, item: ChangelogItem): (e: JiraChangelogEntry)
    ensures e.field == item.field && e.from == item.fromString && e.to == item.toString
    ensures e.created == history.created
    ensures e.author == MapAuthor(history.author)
  {
    JiraChangelogEntry(MapAuthor(history.author), history.created, item.field, item.fromString, item.toString)
  }

  /** The number of items over all `histories`. */
  function ItemCount(histories: seq<ChangelogHistory>): nat {
    if |histories| == 0 then 0
    else ItemCount(histories[..|histories| - 1]) + |histories[|histories| - 1].items|
  }

  /** The entries of one history, one per item, in item order. */
  function HistoryEntries(history: ChangelogHistory): (r: seq<JiraChangelogEntry>)
    ensures |r| == |history.items|
  {
    seq(|history.items|, j requires 0 <= j < |history.items| => ToEntry(history, history.items[j]))
  }

  /** The two nested `forEach` loops: history by history, each history's entries appended. */
  function MapHistories(histories: seq<ChangelogHistory>): (r: seq<JiraChangelogEntry>)
    ensures |r| == ItemCount(histories)
  {
    if |histories| == 0 then []
    else MapHistories(histories[..|histories| - 1]) + HistoryEntries(histories[|histories| - 1])
  }

  /** `mapChangelog`: nothing for a missing changelog, else one entry per item of every history. */
  function MapChangelog(changelog: Option<JiraOriginalChangelog>): (r: seq<JiraChangelogEntry>)
    ensures changelog.None? ==> r == []
    ensures changelog.Some? ==> |r| == ItemCount(changelog.value.histories)
  {
    match changelog
    case None => []
    case Some(c) => MapHistories(c.histories)
  }

  /**
   * Item `j` of history `h` lands at position (items of earlier histories)
   * + `j` of the concatenated entries.
   */
  lemma {:induction false} MapHistoriesAt(histories: seq<ChangelogHistory>, h: nat, j: nat)
    requires h < |histories| && j < |histories[h].items|
    ensures ItemCount(histories[..h]) + j < |MapHistories(histories)|
    ensures MapHistories(histories)[ItemCount(histories[..h]) + j] == ToEntry(histories[h], histories[h].items[j])
    decreases |histories|
  {
    var n := |histories|;
    var init := histories[..n - 1];
    if h == n - 1 {
      assert init == histories[..h];
    } else {
      assert init[..h] == histories[..h] && init[h] == histories[h];
      MapHistoriesAt(init, h, j);
    }
  }

  /**
   * Entries are ordered by history and then by item; the entry for item `j`
   * of history `h` takes `field`, `from` from `fromString`, `to` from
   * `toString`, and the date and mapped author of its history.
   */
  lemma ChangelogEntryAt(histories: seq<ChangelogHistory>, h: nat, j: nat)
    requires h < |histories| && j < |histories[h].items|
    ensures ItemCount(histories[..h]) + j < |MapChangelog(Some(JiraOriginalChangelog(histories)))|
    ensures var e := MapChangelog(Some(JiraOriginalChangelog(histories)))[ItemCount(histories[..h]) + j];
      var history, item := histories[h], histories[h].items[j];
      && e.field == item.field
      && e.from == item.fromString
      && e.to == item.toString
      && e.created == history.created
      && e.author == MapAuthor(history.author)
  {
    MapHistoriesAt(histories, h, j);
  }
}
