/**
 * The scraped record and the per-candidate construction each source adapter
 * performs on one listing card (the body of the `for job in job_cards` loops
 * of the seven `scrape_*` methods).
 */
module Records {
  import opened Text

  datatype Option<T> = None | Some(value: T)

  /** One internship listing, the dictionary the scraper appends. `category`
      is absent until the classifier runs. */
  datatype Internship = Internship(
    title: string,
    company: string,
    location: string,
    description: string,
    url: string,
    source: string,
    category: Option<string>)

  /** The identity used for deduplication: the exact (title, company) pair. */
  function Key(r: Internship): (string, string) {
    (r.title, r.company)
  }

  /** The seven listing sites, one adapter each. */
  datatype Site = Indeed | LinkedIn | Chegg | WayUp | Lumiere | FindECs | InternshipFinder

  /** What the HTML extraction yields for one card: the raw text of each element
      (None when `find` found no such element; an empty element gives the empty
      text) and the `href` of the link element when it has one. A card whose
      extraction raises is `Malformed`; the adapter drops it. */
  datatype Card =
    | Card(title: Option<string>, company: Option<string>, location: Option<string>,
           description: Option<string>, href: Option<string>)
    | Malformed

  const NotSpecified := "Not specified"
  const NoDescription := "No description available"
  const SeeLink := "See link for details"
  const NoLink := "No link available"

  /** The fixed `source` value each adapter writes. */
  function SourceName(site: Site): string {
    match site
    case Indeed => "Indeed"
    case LinkedIn => "LinkedIn"
    case Chegg => "Chegg Internships"
    case WayUp => "WayUp"
    case Lumiere => "Lumiere"
    case FindECs => "FindECs"
    case InternshipFinder => "InternshipFinder"
  }

  /** The inclusion filter on the raw (unstripped) title text. */
  predicate TitleAccepted(site: Site, rawTitle: string) {
    match site
    case Indeed => Contains(Lower(rawTitle), "intern")
    case Lumiere => Contains(Lower(rawTitle), "intern")
    case LinkedIn => Contains(Lower(rawTitle), "intern") || Contains(Lower(rawTitle), "internship")
    case WayUp => Contains(Lower(rawTitle), "intern") || Contains(Lower(rawTitle), "internship")
    case Chegg => true
    case FindECs => true
    case InternshipFinder => true
  }

  /** The sites whose filter asks for "intern" in the title. */
  predicate FiltersOnIntern(site: Site) {
    site == Indeed || site == LinkedIn || site == WayUp || site == Lumiere
  }

  /** Stripped text of an optional element, or the given default. */
  function TextOr(e: Option<string>, default: string): string {
    match e
    case Some(t) => Strip(t)
    case None => default
  }

  function CompanyOf(site: Site, card: Card): string
    requires card.Card?
  {
    if site == Lumiere then "Lumiere Education" else TextOr(card.company, NotSpecified)
  }

  function LocationOf(site: Site, card: Card): string
    requires card.Card?
  {
    if site == Lumiere then "Various/Remote" else TextOr(card.location, NotSpecified)
  }

  /** LinkedIn, WayUp and FindECs never read a description; Lumiere reads its
      program details; the other three read a snippet. */
  function DescriptionOf(site: Site, card: Card): string
    requires card.Card?
  {
    match site
    case LinkedIn => SeeLink
    case WayUp => SeeLink
    case FindECs => SeeLink
    case Lumiere => TextOr(card.description, SeeLink)
    case Indeed => TextOr(card.description, NoDescription)
    case Chegg => TextOr(card.description, NoDescription)
    case InternshipFinder => TextOr(card.description, NoDescription)
  }

  /** Indeed, Chegg and WayUp publish site-relative links and prefix their host. */
  function LinkPrefix(site: Site): string {
    match site
    case Indeed => "https://www.indeed.com"
    case Chegg => "https://www.internships.com"
    case WayUp => "https://www.wayup.com"
    case _ => ""
  }

  function UrlOf(site: Site, card: Card): string
    requires card.Card?
  {
    match card.href
    case Some(h) => LinkPrefix(site) + h
    case None => NoLink
  }

  /** One candidate card turned into a record by a site's adapter, or nothing
      when the card is malformed, has no title or fails the site's filter. */
  function BuildRecord(site: Site, card: Card): Option<Internship> {
    if card.Malformed? || card.title.None? || !TitleAccepted(site, card.title.value) then None
    else Some(Internship(
      Strip(card.title.value),
      CompanyOf(site, card),
      LocationOf(site, card),
      DescriptionOf(site, card),
      UrlOf(site, card),
      SourceName(site),
      None))
  }

  /** The "internship" alternative of the LinkedIn and WayUp filters adds
      nothing: whatever contains "internship" contains "intern". */
  lemma InternshipSubsumesIntern(text: string)
    ensures Contains(text, "internship") ==> Contains(text, "intern")
  {
    if Contains(text, "internship") {
      ContainsPrefixOfPattern(text, "internship", 6);
      assert "internship"[..6] == "intern";
    }
  }

  /** Every filter is one of two: "intern" in the lowered title, or none at all. */
  lemma {:induction false} TitleAcceptedIff(site: Site, rawTitle: string)
    ensures TitleAccepted(site, rawTitle) <==> (FiltersOnIntern(site) ==> Contains(Lower(rawTitle), "intern"))
  {
    InternshipSubsumesIntern(Lower(rawTitle));
  }

  /** Acceptance and the defaults of one candidate: a record is built exactly
      for a well-formed card with a title that passes the site's filter; its
      title is the stripped title text, its source the site's name, it has no
      category yet, a missing company or location reads "Not specified" (for
      Lumiere both are fixed), and the description is the extracted text or
      the site's default. */
  lemma {:induction false} BuildRecordSpec(site: Site, card: Card)
    ensures BuildRecord(site, card).Some? <==>
      card.Card? && card.title.Some? &&
      (FiltersOnIntern(site) ==> Contains(Lower(card.title.value), "intern"))
    ensures BuildRecord(site, card).Some? ==>
      var r := BuildRecord(site, card).value;
      r.title == Strip(card.title.value) &&
      r.source == SourceName(site) &&
      r.category == None &&
      (site == Lumiere ==> r.company == "Lumiere Education" && r.location == "Various/Remote") &&
      (site != Lumiere && card.company.None? ==> r.company == NotSpecified) &&
      (site != Lumiere && card.location.None? ==> r.location == NotSpecified) &&
      (site in {LinkedIn, WayUp, FindECs} ==> r.description == SeeLink) &&
      (site in {Indeed, Chegg, InternshipFinder} && card.description.None? ==> r.description == NoDescription) &&
      (site == Lumiere && card.description.None? ==> r.description == SeeLink) &&
      (card.href.None? ==> r.url == NoLink)
  {
    if card.Card? && card.title.Some? {
      TitleAcceptedIff(site, card.title.value);
    }
  }

  /** The filter looks at the raw element text and the record keeps the
      stripped text; for the "intern" test the two agree, so every record
      from a filtering site has "intern" in its lowered title. */
  lemma {:induction false} AcceptedTitleContainsIntern(site: Site, card: Card)
    requires FiltersOnIntern(site)
    requires BuildRecord(site, card).Some?
    ensures Contains(Lower(BuildRecord(site, card).value.title), "intern")
  {
    BuildRecordSpec(site, card);
    var raw := card.title.value;
    var pat := "intern";
    assert forall k :: 0 <= k < |pat| ==> !IsSpace(pat[k]);
    ContainsIgnoresStrip(raw, pat);
  }

  /** A present but blank title passes the sites that do not filter and
      becomes the empty title: the code does not guarantee a non-empty title. */
  lemma BlankTitleAccepted()
    ensures BuildRecord(Chegg, Card(Some(" "), None, None, None, None)).Some?
    ensures BuildRecord(Chegg, Card(Some(" "), None, None, None, None)).value.title == ""
  {
    assert Strip(" ") == "";
  }
}
