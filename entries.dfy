/** The parts of a parsed feed entry that the refresh reads. Parsing itself (RSS, Atom and JSON
    Feed, dates into UTC instants) happens in a library outside this model; an entry arrives
    here already parsed, its dates already written as RFC 3339 text. */
module Entries {
  import opened Wrappers

  /** A link of an entry, with its optional `rel` attribute. */
  datatype Link = Link(href: string, rel: Option<string>)

  /** An entry: its id (the RSS guid or Atom id), optional title, links in document order and
      optional publication and update dates. */
  datatype Entry = Entry(
    id: string,
    title: Option<string>,
    links: seq<Link>,
    published: Option<string>,
    updated: Option<string>)

  /** The title stored for an entry: its own, or "Untitled". */
  function TitleOf(e: Entry): (r: string)
    ensures e.title.Some? ==> r == e.title.value
    ensures e.title.None? ==> r == "Untitled"
    ensures r == [] ==> e.title == Some([])
  {
    if e.title.Some? then e.title.value else "Untitled"
  }

  /** The main link: the href of the first link, or the empty text when there is none. */
  function MainLink(e: Entry): (r: string)
    ensures e.links != [] ==> r == e.links[0].href
    ensures r == [] <==> e.links == [] || e.links[0].href == []
  {
    if e.links == [] then "" else e.links[0].href
  }

  /** The date stored for an entry: its publication date, else its update date. */
  function PublishedOf(e: Entry): (r: Option<string>)
    ensures r.Some? <==> e.published.Some? || e.updated.Some?
    ensures e.published.Some? ==> r == e.published
    ensures e.published.None? ==> r == e.updated
  {
    if e.published.Some? then e.published else e.updated
  }
}
