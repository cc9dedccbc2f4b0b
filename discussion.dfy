/** `extract_discussion_link` (src/fetcher.rs): where the conversation about an entry lives.
    Hacker News and Lobsters carry it in the entry id; other feeds in an RSS `<comments>`
    element or in a link whose `rel` is "replies" or "comments". */
module Discussion {
  import opened Wrappers
  import opened Text
  import opened FeedTable
  import opened Entries

  const HnHost := "news.ycombinator.com"
  const HnItem := "news.ycombinator.com/item?id="
  const LobstersHost := "lobste.rs"
  const LobstersStory := "lobste.rs/s/"

  /** A Hacker News feed whose main link is already the item's discussion page (an Ask HN
      post): there is no separate discussion link. */
  predicate HnSelfPost(feed: Feed, mainLink: string) {
    Contains(feed.url, HnHost) && Contains(mainLink, HnItem)
  }

  /** A Hacker News feed whose entry id is the discussion page. */
  predicate HnGuid(feed: Feed, entry: Entry) {
    Contains(feed.url, HnHost) && Contains(entry.id, HnItem)
  }

  /** A Lobsters feed whose entry id is the story page. */
  predicate LobstersGuid(feed: Feed, entry: Entry) {
    Contains(feed.url, LobstersHost) && Contains(entry.id, LobstersStory)
  }

  /** A `rel` that names a discussion: "replies" or "comments" in any letter case; a missing
      `rel` is the empty text. */
  predicate IsDiscussionRel(rel: Option<string>) {
    var r := ToLowercase(if rel.Some? then rel.value else "");
    r == "replies" || r == "comments"
  }

  /** The first link whose `rel` names a discussion. */
  function FirstRelLink(links: seq<Link>): (r: Option<nat>)
    ensures r.Some? ==> r.value < |links| && IsDiscussionRel(links[r.value].rel)
    ensures r.Some? ==> forall j | 0 <= j < r.value :: !IsDiscussionRel(links[j].rel)
    ensures r.None? ==> forall j | 0 <= j < |links| :: !IsDiscussionRel(links[j].rel)
  {
    if links == [] then None
    else if IsDiscussionRel(links[0].rel) then Some(0)
    else
      match FirstRelLink(links[1..])
      case None => None
      case Some(j) => Some(j + 1)
  }

  /** The discussion link of an entry of `feed`, given the `<comments>` URL found for its main
      link in the raw XML, if any. The rules are tried in order: discussion disabled, the
      Hacker News self post, the Hacker News id, the Lobsters id, the XML comments URL, the
      first discussion `rel` link. */
  function ExtractDiscussionLink(feed: Feed, entry: Entry, commentsFromXml: Option<string>, mainLink: string)
    : (r: Option<string>)
    ensures !feed.hasDiscussion ==> r.None?
  {
    if !feed.hasDiscussion then None
    else if Contains(feed.url, HnHost) && Contains(mainLink, HnItem) then None
    else if Contains(feed.url, HnHost) && Contains(entry.id, HnItem) then Some(entry.id)
    else if Contains(feed.url, LobstersHost) && Contains(entry.id, LobstersStory) then Some(entry.id)
    else if commentsFromXml.Some? then commentsFromXml
    else
      match FirstRelLink(entry.links)
      case Some(i) => Some(entry.links[i].href)
      case None => None
  }

  /** There is no discussion link exactly when discussion is off, the main link is a Hacker
      News item, or no rule finds one; a link found is the entry id on a site feed, the XML
      comments URL, or the href of a link whose `rel` names a discussion. */
  lemma DiscussionLinkCases(feed: Feed, entry: Entry, commentsFromXml: Option<string>, mainLink: string)
    ensures var r := ExtractDiscussionLink(feed, entry, commentsFromXml, mainLink);
      && (r.None? <==>
            || !feed.hasDiscussion
            || HnSelfPost(feed, mainLink)
            || (&& !HnGuid(feed, entry) && !LobstersGuid(feed, entry)
                && commentsFromXml.None? && FirstRelLink(entry.links).None?))
      && (r.Some? ==>
            || (r.value == entry.id && (HnGuid(feed, entry) || LobstersGuid(feed, entry)))
            || commentsFromXml == Some(r.value)
            || exists i | 0 <= i < |entry.links| :: entry.links[i].href == r.value && IsDiscussionRel(entry.links[i].rel))
  {
  }

  /** The site rules come first: when the entry id is a Hacker News or Lobsters discussion page
      (and the main link is not one already), the id is the answer whatever the XML comments
      URL and the entry's links. */
  lemma SiteRuleFirst(feed: Feed, entry: Entry, comments: Option<string>, mainLink: string, links: seq<Link>)
    requires feed.hasDiscussion && !HnSelfPost(feed, mainLink)
    requires HnGuid(feed, entry) || LobstersGuid(feed, entry)
    ensures ExtractDiscussionLink(feed, entry, comments, mainLink) == Some(entry.id)
    ensures ExtractDiscussionLink(feed, entry.(links := links), comments, mainLink) == Some(entry.id)
  {
  }

  /** Next comes the XML comments URL: when no site rule applies it is the answer, whatever
      links the entry has. */
  lemma XmlCommentsBeforeLinks(feed: Feed, entry: Entry, comments: string, mainLink: string, links: seq<Link>)
    requires feed.hasDiscussion && !HnSelfPost(feed, mainLink)
    requires !HnGuid(feed, entry) && !LobstersGuid(feed, entry)
    ensures ExtractDiscussionLink(feed, entry, Some(comments), mainLink) == Some(comments)
    ensures ExtractDiscussionLink(feed, entry.(links := links), Some(comments), mainLink) == Some(comments)
  {
  }

  /** Last come the links: with no site rule and no XML comments URL, the answer is the href of
      the first link whose `rel` names a discussion, and only links after a non-discussion prefix
      can change it. */
  lemma FirstDiscussionLinkWins(feed: Feed, entry: Entry, mainLink: string, i: nat)
    requires feed.hasDiscussion && !HnSelfPost(feed, mainLink)
    requires !HnGuid(feed, entry) && !LobstersGuid(feed, entry)
    requires i < |entry.links| && IsDiscussionRel(entry.links[i].rel)
    requires forall j | 0 <= j < i :: !IsDiscussionRel(entry.links[j].rel)
    ensures ExtractDiscussionLink(feed, entry, None, mainLink) == Some(entry.links[i].href)
  {
    assert FirstRelLink(entry.links) == Some(i);
  }

  /** Knowing the XML comments URL never loses a discussion link: whatever is found without it
      is still found, or replaced by the comments URL. */
  lemma CommentsOnlyAdd(feed: Feed, entry: Entry, comments: string, mainLink: string)
    ensures var without := ExtractDiscussionLink(feed, entry, None, mainLink);
      var with := ExtractDiscussionLink(feed, entry, Some(comments), mainLink);
      && (without.Some? ==> with.Some?)
      && (with != without ==> with == Some(comments))
  {
  }
}

/** The unit tests of `extract_discussion_link`, src/fetcher.rs:462-633, on the feeds and entries
    their helpers build (feed id 1, never fetched; entries with only an id and links). */
module DiscussionExamples {
  import opened Wrappers
  import opened Text
  import opened FeedTable
  import opened Entries
  import opened Discussion

  function TestFeed(name: string, url: string, hasDiscussion: bool): Feed {
    Feed(1, name, url, hasDiscussion, None, None, None)
  }

  function TestEntry(id: string, links: seq<Link>): Entry {
    Entry(id, None, links, None, None)
  }

  // The feed URLs, ids and links of the tests, and which site patterns they contain.

  lemma HnFeedUrl()
    ensures Contains("https://news.ycombinator.com/rss", HnHost)
  {
    var s := "https://news.ycombinator.com/rss";
    assert forall j | 0 <= j < |HnHost| :: s[8 + j] == HnHost[j];
    assert s[8..8 + |HnHost|] == HnHost;
    ContainsAt(s, HnHost, 8);
  }

  lemma HnItemUrl()
    ensures Contains("https://news.ycombinator.com/item?id=12345", HnItem)
  {
    var s := "https://news.ycombinator.com/item?id=12345";
    assert forall j | 0 <= j < |HnItem| :: s[8 + j] == HnItem[j];
    assert s[8..8 + |HnItem|] == HnItem;
    ContainsAt(s, HnItem, 8);
  }

  lemma ArticleNotHnItem()
    ensures !Contains("https://article.example.com", HnItem)
  {
    AbsentChar("https://article.example.com", HnItem, 'y');
  }

  lemma LobstersFeedNotHn()
    ensures !Contains("https://lobste.rs/rss", HnHost)
  {
    AbsentChar("https://lobste.rs/rss", HnHost, 'y');
  }

  lemma LobstersFeedUrl()
    ensures Contains("https://lobste.rs/rss", LobstersHost)
  {
    var s := "https://lobste.rs/rss";
    assert forall j | 0 <= j < |LobstersHost| :: s[8 + j] == LobstersHost[j];
    assert s[8..8 + |LobstersHost|] == LobstersHost;
    ContainsAt(s, LobstersHost, 8);
  }

  lemma LobstersStoryUrl()
    ensures Contains("https://lobste.rs/s/abc123", LobstersStory)
  {
    var s := "https://lobste.rs/s/abc123";
    assert forall j | 0 <= j < |LobstersStory| :: s[8 + j] == LobstersStory[j];
    assert s[8..8 + |LobstersStory|] == LobstersStory;
    ContainsAt(s, LobstersStory, 8);
  }

  lemma RedditNotHn()
    ensures !Contains("https://reddit.com/.rss", HnHost)
  {
    AbsentChar("https://reddit.com/.rss", HnHost, 'y');
  }

  lemma RedditNotLobsters()
    ensures !Contains("https://reddit.com/.rss", LobstersHost)
  {
    AbsentChar("https://reddit.com/.rss", LobstersHost, 'b');
  }

  lemma ForumNotHn()
    ensures !Contains("https://forum.example.com/feed", HnHost)
  {
    AbsentChar("https://forum.example.com/feed", HnHost, 'y');
  }

  lemma ForumNotLobsters()
    ensures !Contains("https://forum.example.com/feed", LobstersHost)
  {
    AbsentChar("https://forum.example.com/feed", LobstersHost, 'b');
  }

  lemma BlogNotHn()
    ensures !Contains("https://blog.example.com/feed", HnHost)
  {
    AbsentChar("https://blog.example.com/feed", HnHost, 'y');
  }

  lemma BlogNotLobsters()
    ensures !Contains("https://blog.example.com/feed", LobstersHost)
  {
    AbsentChar("https://blog.example.com/feed", LobstersHost, 'r');
  }

  lemma RepliesLinks()
    ensures FirstRelLink([Link("https://article.com", None),
                          Link("https://forum.example.com/topic/123/replies", Some("replies"))]) == Some(1)
  {
    assert ToLowercase("replies") == "replies";
  }

  lemma CommentsLinks()
    ensures FirstRelLink([Link("https://blog.example.com/post/1", None),
                          Link("https://blog.example.com/post/1/comments", Some("comments"))]) == Some(1)
  {
    assert ToLowercase("comments") == "comments";
  }

  lemma UpperCaseCommentsLinks()
    ensures FirstRelLink([Link("https://blog.example.com/post/1", None),
                          Link("https://blog.example.com/post/1/comments", Some("COMMENTS"))]) == Some(1)
  {
    assert ToLowercase("COMMENTS") == "comments";
  }

  lemma PlainLink()
    ensures FirstRelLink([Link("https://article.com", None)]) == None
  {
  }

  /** With neither site in the feed URL and no XML comments URL, the first discussion link is
      the answer. */
  lemma RelRule(feed: Feed, entry: Entry, mainLink: string)
    requires feed.hasDiscussion && !Contains(feed.url, HnHost) && !Contains(feed.url, LobstersHost)
    requires FirstRelLink(entry.links).Some?
    ensures ExtractDiscussionLink(feed, entry, None, mainLink) == Some(entry.links[FirstRelLink(entry.links).value].href)
  {
  }

  lemma NoDiscussionWhenDisabled()
    ensures ExtractDiscussionLink(TestFeed("Blog", "https://blog.example.com", false),
      TestEntry("123", [Link("https://article.com", None)]), None, "https://article.com") == None
  {
  }

  lemma HnDiscussionFromEntryId()
    ensures ExtractDiscussionLink(TestFeed("Hacker News", "https://news.ycombinator.com/rss", true),
      TestEntry("https://news.ycombinator.com/item?id=12345", [Link("https://article.example.com", None)]),
      None, "https://article.example.com")
      == Some("https://news.ycombinator.com/item?id=12345")
  {
    HnFeedUrl();
    HnItemUrl();
    ArticleNotHnItem();
  }

  lemma HnSkipWhenMainLinkIsDiscussion()
    ensures ExtractDiscussionLink(TestFeed("Hacker News", "https://news.ycombinator.com/rss", true),
      TestEntry("https://news.ycombinator.com/item?id=12345", [Link("https://news.ycombinator.com/item?id=12345", None)]),
      None, "https://news.ycombinator.com/item?id=12345")
      == None
  {
    HnFeedUrl();
    HnItemUrl();
  }

  lemma LobstersDiscussion()
    ensures ExtractDiscussionLink(TestFeed("Lobste.rs", "https://lobste.rs/rss", true),
      TestEntry("https://lobste.rs/s/abc123", [Link("https://article.example.com", None)]),
      None, "https://article.example.com")
      == Some("https://lobste.rs/s/abc123")
  {
    LobstersFeedNotHn();
    LobstersFeedUrl();
    LobstersStoryUrl();
  }

  lemma DiscussionFromXmlComments()
    ensures ExtractDiscussionLink(TestFeed("Reddit", "https://reddit.com/.rss", true),
      TestEntry("123", [Link("https://article.com", None)]),
      Some("https://reddit.com/r/programming/comments/abc"), "https://article.com")
      == Some("https://reddit.com/r/programming/comments/abc")
  {
    RedditNotHn();
    RedditNotLobsters();
  }

  lemma DiscussionFromRepliesRel()
    ensures ExtractDiscussionLink(TestFeed("Forum", "https://forum.example.com/feed", true),
      TestEntry("123", [Link("https://article.com", None),
                        Link("https://forum.example.com/topic/123/replies", Some("replies"))]),
      None, "https://article.com")
      == Some("https://forum.example.com/topic/123/replies")
  {
    ForumNotHn();
    ForumNotLobsters();
    RepliesLinks();
    RelRule(TestFeed("Forum", "https://forum.example.com/feed", true),
      TestEntry("123", [Link("https://article.com", None),
                        Link("https://forum.example.com/topic/123/replies", Some("replies"))]),
      "https://article.com");
  }

  lemma DiscussionFromCommentsRel()
    ensures ExtractDiscussionLink(TestFeed("Blog", "https://blog.example.com/feed", true),
      TestEntry("123", [Link("https://blog.example.com/post/1", None),
                        Link("https://blog.example.com/post/1/comments", Some("comments"))]),
      None, "https://blog.example.com/post/1")
      == Some("https://blog.example.com/post/1/comments")
  {
    BlogNotHn();
    BlogNotLobsters();
    CommentsLinks();
    RelRule(TestFeed("Blog", "https://blog.example.com/feed", true),
      TestEntry("123", [Link("https://blog.example.com/post/1", None),
                        Link("https://blog.example.com/post/1/comments", Some("comments"))]),
      "https://blog.example.com/post/1");
  }

  lemma NoDiscussionLinkFound()
    ensures ExtractDiscussionLink(TestFeed("Blog", "https://blog.example.com/feed", true),
      TestEntry("123", [Link("https://article.com", None)]), None, "https://article.com") == None
  {
    BlogNotHn();
    BlogNotLobsters();
    PlainLink();
  }

  lemma XmlCommentsTakePrecedenceOverRel()
    ensures ExtractDiscussionLink(TestFeed("Forum", "https://forum.example.com/feed", true),
      TestEntry("123", [Link("https://article.com", None),
                        Link("https://forum.example.com/fallback", Some("replies"))]),
      Some("https://forum.example.com/preferred"), "https://article.com")
      == Some("https://forum.example.com/preferred")
  {
    ForumNotHn();
    ForumNotLobsters();
  }

  lemma CaseInsensitiveRel()
    ensures ExtractDiscussionLink(TestFeed("Blog", "https://blog.example.com/feed", true),
      TestEntry("123", [Link("https://blog.example.com/post/1", None),
                        Link("https://blog.example.com/post/1/comments", Some("COMMENTS"))]),
      None, "https://blog.example.com/post/1")
      == Some("https://blog.example.com/post/1/comments")
  {
    BlogNotHn();
    BlogNotLobsters();
    UpperCaseCommentsLinks();
    RelRule(TestFeed("Blog", "https://blog.example.com/feed", true),
      TestEntry("123", [Link("https://blog.example.com/post/1", None),
                        Link("https://blog.example.com/post/1/comments", Some("COMMENTS"))]),
      "https://blog.example.com/post/1");
  }
}
