/**
 * The scraping pipeline of Program.cs: read fixed nodes of a crew page, clean
 * their text, flag incomplete records, and filter links and records.
 *
 * The HTML library and the network are abstract here. A loaded page is the
 * map from each XPath expression the program asks for to the inner text of the
 * node it selects, and fetching a page either loads it or fails.
 */
module Scraper {

  import opened Wrappers
  import opened Text
  import opened Sequences
  import opened Crews

  /** A parsed page: the inner text of the node each XPath expression selects;
      an expression that selects nothing is not a key. */
  datatype HtmlDocument = HtmlDocument(innerText: map<string, string>)

  /** What `HtmlWeb.LoadFromWebAsync` gives: a page, or an exception. */
  datatype FetchOutcome = Loaded(doc: HtmlDocument) | Failed(message: string)

  /** An `<a>` element, reduced to its attributes. */
  datatype Anchor = Anchor(attributes: map<string, string>)

  /** `SelectSingleNode(path)?.InnerText`. */
  function SelectSingleNode(doc: HtmlDocument, path: string): Option<string> {
    if path in doc.innerText then Some(doc.innerText[path]) else None
  }

  /** `GetAttributeValue(name, default)`. */
  function GetAttributeValue(a: Anchor, name: string, default: string): string {
    if name in a.attributes then a.attributes[name] else default
  }

  /** The non-breaking-space entity, which `InnerText` leaves undecoded. */
  const Nbsp := "&nbsp;"

  /** The value cleanup: an absent node gives `null`; a present node's text loses
      each `&nbsp;` the left-to-right pass finds and is then trimmed. */
  function ParseString(doc: HtmlDocument, path: string): (r: Option<string>)
    ensures r.None? <==> path !in doc.innerText
    ensures r.Some? ==> IsTrimmed(r.value)
  {
    match SelectSingleNode(doc, path)
    case None => None
    case Some(text) => Some(Trim(Replace(text, Nbsp, "")))
  }

  /** A cleaned value is made of the node's own characters, in their order,
      and is no longer than the node's text: cleanup only deletes. */
  lemma ParseStringKeepsOrder(doc: HtmlDocument, path: string)
    requires path in doc.innerText
    ensures ParseString(doc, path).Some?
    ensures IsSubsequence(ParseString(doc, path).value, doc.innerText[path])
    ensures |ParseString(doc, path).value| <= |doc.innerText[path]|
  {
    var text := doc.innerText[path];
    RemoveThenTrimKeepsOrder(text, Nbsp);
    assert ParseString(doc, path) == Some(Trim(Replace(text, Nbsp, "")));
  }

  /** Text without any `&nbsp;` is only trimmed. */
  lemma ParseStringWithoutEntity(doc: HtmlDocument, path: string)
    requires path in doc.innerText && !Contains(doc.innerText[path], Nbsp)
    ensures ParseString(doc, path) == Some(Trim(doc.innerText[path]))
  {
    ReplaceWithoutOccurrence(doc.innerText[path], Nbsp, "");
  }

  /** A cleaned value is empty exactly when the node's text, once its entities
      are removed, is only white space. */
  lemma ParseStringEmpty(doc: HtmlDocument, path: string)
    requires path in doc.innerText
    ensures ParseString(doc, path) == Some("") <==> AllWhiteSpace(Replace(doc.innerText[path], Nbsp, ""))
  {
    TrimEmpty(Replace(doc.innerText[path], Nbsp, ""));
  }

  /** The first `&nbsp;` in a node's text is removed: what stands before it is
      kept, the scan resumes after it, and the whole is then trimmed. */
  lemma ParseStringRemovesEntity(doc: HtmlDocument, path: string, x: string, y: string)
    requires path in doc.innerText && doc.innerText[path] == x + Nbsp + y
    requires !Contains(x + Nbsp[..|Nbsp| - 1], Nbsp)
    ensures ParseString(doc, path) == Some(Trim(x + Replace(y, Nbsp, "")))
  {
    ReplaceAtFirstOccurrence(x, Nbsp, y, "");
    assert x + "" + Replace(y, Nbsp, "") == x + Replace(y, Nbsp, "");
  }

  /** The removal is a single pass: entity text split by another entity joins
      up again, and the joined entity stays in the cleaned value. */
  lemma ParseStringSinglePass(doc: HtmlDocument, path: string)
    requires path in doc.innerText && doc.innerText[path] == "&nb" + Nbsp + "sp;"
    ensures ParseString(doc, path) == Some(Nbsp)
  {
    var text := doc.innerText[path];
    ReplaceIsOnePass(text, Nbsp);
    assert Nbsp[0] == '&' && Nbsp[5] == ';';
    TrimOfTrimmed(Nbsp);
    assert ParseString(doc, path) == Some(Trim(Replace(text, Nbsp, "")));
  }

  // The XPath expressions GetCrew reads, one per field.
  const NamePath := "/html[1]/body[1]/div[1]/table[1]/tr[1]/td[2]/p[1]/u[1]"
  const DateOfBirthPath := "/html[1]/body[1]/div[1]/table[1]/tr[1]/td[2]/p[2]/text()[2]"
  const ServiceNumberPath := "/html[1]/body[1]/div[1]/table[1]/tr[1]/td[2]/p[2]/text()[5]"
  const RankPath := "/html[1]/body[1]/div[1]/table[1]/tr[1]/td[2]/p[2]/text()[7]"
  const DateOfEnlistmentPath := "/html[1]/body[1]/div[1]/table[1]/tr[1]/td[2]/p[2]/text()[9]"
  const PlaceOfEnlistmentPath := "/html[1]/body[1]/div[1]/table[1]/tr[1]/td[2]/p[2]/text()[11]"
  const DateOnShipPath := "/html[1]/body[1]/div[1]/table[1]/tr[1]/td[2]/p[2]/text()[13]"
  const DateOffShipPath := "/html[1]/body[1]/div[1]/table[1]/tr[1]/td[2]/p[2]/text()[15]"
  const DateDischargedPath := "/html[1]/body[1]/div[1]/table[1]/tr[1]/td[2]/p[2]/text()[17]"
  const DateOfDeathPath := "/html[1]/body[1]/div[1]/table[1]/tr[1]/td[2]/p[2]/text()[19]"

  /** `String.IsNullOrEmpty`: white space alone is not empty. */
  predicate IsNullOrEmpty(s: Option<string>): (b: bool)
    ensures b <==> s == None || s == Some("")
  {
    s.None? || s.value == ""
  }

  /** The completeness heuristic: enlistment date, enlistment place and service
      number are all missing. */
  predicate NeedsReview(c: Crew): (b: bool)
    ensures b <==> forall v :: v != "" ==>
      c.dateOfEnlistment != Some(v) && c.placeOfEnlistment != Some(v) && c.serviceNumber != Some(v)
  {
    IsNullOrEmpty(c.dateOfEnlistment) && IsNullOrEmpty(c.placeOfEnlistment) && IsNullOrEmpty(c.serviceNumber)
  }

  /** Any one of the three fields holding a value, even white space, clears the record. */
  lemma OneValueClearsReview(c: Crew, v: string)
    requires v != ""
    requires c.dateOfEnlistment == Some(v) || c.placeOfEnlistment == Some(v) || c.serviceNumber == Some(v)
    ensures !NeedsReview(c)
  {
  }

  /** The record GetCrew builds for `url` from the outcome of fetching it. */
  function Assembled(url: string, fetched: FetchOutcome): (c: Crew)
    ensures c.originalUrl == url
    ensures fetched.Failed? ==> OnlyUrl(c)
    ensures c.pictureUrl.None? && c.placeOfBirth.None? && c.spouse.None? && c.postWarExperience.None?
  {
    match fetched
    case Failed(_) => NewCrew(url)
    case Loaded(doc) =>
      NewCrew(url).(
        name := ParseString(doc, NamePath),
        dateOfBirth := ParseString(doc, DateOfBirthPath),
        serviceNumber := ParseString(doc, ServiceNumberPath),
        rank := ParseString(doc, RankPath),
        dateOfEnlistment := ParseString(doc, DateOfEnlistmentPath),
        placeOfEnlistment := ParseString(doc, PlaceOfEnlistmentPath),
        dateOnShip := ParseString(doc, DateOnShipPath),
        dateOffShip := ParseString(doc, DateOffShipPath),
        dateDischarged := ParseString(doc, DateDischargedPath),
        dateOfDeath := ParseString(doc, DateOfDeathPath))
  }

  /** A failed fetch gives the record that holds only its url, and that record
      is always flagged. */
  lemma FailedFetchIsFlagged(url: string, message: string)
    ensures Assembled(url, Failed(message)).originalUrl == url
    ensures OnlyUrl(Assembled(url, Failed(message)))
    ensures NeedsReview(Assembled(url, Failed(message)))
  {
  }

  /** A value as ParseString leaves it: absent, or without white space at either end. */
  predicate Clean(v: Option<string>) {
    v.None? || IsTrimmed(v.value)
  }

  /** A loaded page gives a record that keeps its url, whose every scalar value
      is trimmed, and which leaves the properties the program never reads unset. */
  lemma LoadedRecordShape(url: string, doc: HtmlDocument)
    ensures var c := Assembled(url, Loaded(doc));
      c.originalUrl == url &&
      Clean(c.name) && Clean(c.dateOfBirth) && Clean(c.serviceNumber) && Clean(c.rank) &&
      Clean(c.dateOfEnlistment) && Clean(c.placeOfEnlistment) && Clean(c.dateOnShip) &&
      Clean(c.dateOffShip) && Clean(c.dateDischarged) && Clean(c.dateOfDeath) &&
      c.pictureUrl.None? && c.placeOfBirth.None? && c.spouse.None? && c.postWarExperience.None? &&
      c.highSchool.None? && c.children.None? && c.college.None? && c.grandchildren.None? &&
      c.interests.None? && c.greatGrandchildren.None?
  {
  }

  /** The node behind a field holds nothing the record would keep. */
  predicate BlankNode(doc: HtmlDocument, path: string) {
    path !in doc.innerText || AllWhiteSpace(Replace(doc.innerText[path], Nbsp, ""))
  }

  /** A loaded page is flagged exactly when each of the enlistment date, the
      enlistment place and the service number nodes is missing or holds only
      white space and `&nbsp;` entities. */
  lemma LoadedFlaggedIffBlank(url: string, doc: HtmlDocument)
    ensures NeedsReview(Assembled(url, Loaded(doc))) <==>
      BlankNode(doc, DateOfEnlistmentPath) && BlankNode(doc, PlaceOfEnlistmentPath) &&
      BlankNode(doc, ServiceNumberPath)
  {
    if DateOfEnlistmentPath in doc.innerText { ParseStringEmpty(doc, DateOfEnlistmentPath); }
    if PlaceOfEnlistmentPath in doc.innerText { ParseStringEmpty(doc, PlaceOfEnlistmentPath); }
    if ServiceNumberPath in doc.innerText { ParseStringEmpty(doc, ServiceNumberPath); }
  }

  /** The records the crew loop builds, one per url and in the urls' order. */
  function AssembledAll(urls: seq<string>, fetch: string -> FetchOutcome): (crews: seq<Crew>)
    ensures |crews| == |urls|
    ensures forall i :: 0 <= i < |urls| ==> crews[i].originalUrl == urls[i]
    ensures forall c :: c in crews ==> c == Assembled(c.originalUrl, fetch(c.originalUrl))
  {
    if urls == [] then []
    else
      var last := urls[|urls| - 1];
      AssembledAll(urls[..|urls| - 1], fetch) + [Assembled(last, fetch(last))]
  }

  /** The urls CheckCrew adds to the issue list while the crew loop runs, in order. */
  function ReviewUrls(crews: seq<Crew>): (urls: seq<string>)
    ensures |urls| <= |crews|
    ensures forall c :: c in crews && NeedsReview(c) ==> c.originalUrl in urls
    ensures forall u :: u in urls ==> exists c :: c in crews && NeedsReview(c) && c.originalUrl == u
  {
    if crews == [] then []
    else
      var init := crews[..|crews| - 1];
      var last := crews[|crews| - 1];
      assert forall c :: c in crews <==> c in init || c == last;
      ReviewUrls(init) + if NeedsReview(last) then [last.originalUrl] else []
  }

  /** The `href` of every anchor in document order; a missing one reads as "". */
  function Hrefs(page: seq<Anchor>): (hrefs: seq<string>)
    ensures |hrefs| == |page|
    ensures forall i :: 0 <= i < |page| && "href" in page[i].attributes ==> hrefs[i] == page[i].attributes["href"]
    ensures forall i :: 0 <= i < |page| && "href" !in page[i].attributes ==> hrefs[i] == ""
  {
    seq(|page|, i requires 0 <= i < |page| => GetAttributeValue(page[i], "href", ""))
  }

  /** One more url adds its record at the end. */
  lemma AssembledAllStep(urls: seq<string>, fetch: string -> FetchOutcome, i: nat)
    requires i < |urls|
    ensures AssembledAll(urls[..i + 1], fetch) == AssembledAll(urls[..i], fetch) + [Assembled(urls[i], fetch(urls[i]))]
  {
    assert urls[..i + 1][..i] == urls[..i];
  }

  /** One more record adds its url at the end exactly when it is flagged. */
  lemma ReviewUrlsStep(crews: seq<Crew>, c: Crew)
    ensures ReviewUrls(crews + [c]) == ReviewUrls(crews) + if NeedsReview(c) then [c.originalUrl] else []
  {
    assert (crews + [c])[..|crews|] == crews;
  }

  /** The page's links that are not navigation links, in document order. */
  function LinksOutside(page: seq<Anchor>, nav: seq<string>): (links: seq<string>)
    ensures IsSubsequence(links, Hrefs(page))
    ensures forall l :: l in links <==> l in Hrefs(page) && l !in nav
    ensures forall l :: multiset(links)[l] == if l in nav then 0 else multiset(Hrefs(page))[l]
  {
    var keep := (h: string) => h !in nav;
    WhereIsSubsequence(Hrefs(page), keep);
    forall l ensures multiset(Where(Hrefs(page), keep))[l] == if l in nav then 0 else multiset(Hrefs(page))[l] {
      WhereMultiplicity(Hrefs(page), keep, l);
    }
    Where(Hrefs(page), keep)
  }

  /** The final filter: the records whose url is not on the issue list, in order. */
  function ExcludeKnownIssues(crews: seq<Crew>, issues: seq<string>): (r: seq<Crew>)
    ensures IsSubsequence(r, crews)
    ensures forall c :: c in r <==> c in crews && c.originalUrl !in issues
    ensures forall c :: multiset(r)[c] == if c.originalUrl in issues then 0 else multiset(crews)[c]
  {
    var keep := (c: Crew) => c.originalUrl !in issues;
    WhereIsSubsequence(crews, keep);
    forall c ensures multiset(Where(crews, keep))[c] == if c.originalUrl in issues then 0 else multiset(crews)[c] {
      WhereMultiplicity(crews, keep, c);
    }
    Where(crews, keep)
  }

  /** An unflagged record's url is never put on the issue list by the crew
      loop: every record built for that url is the same record, also unflagged. */
  lemma UnflaggedNotReviewed(urls: seq<string>, fetch: string -> FetchOutcome, c: Crew)
    requires c in AssembledAll(urls, fetch) && !NeedsReview(c)
    ensures c.originalUrl !in ReviewUrls(AssembledAll(urls, fetch))
  {
  }

  /** After the crew loop, no flagged record, no record of a failed fetch and no
      record whose url was on the issue list beforehand survives the final
      filter; every other record survives with all its copies. */
  lemma {:induction false} FinalListIsUnflagged(urls: seq<string>, fetch: string -> FetchOutcome, prior: seq<string>)
    ensures var crews := AssembledAll(urls, fetch);
      var r := ExcludeKnownIssues(crews, prior + ReviewUrls(crews));
      (forall c :: c in r ==> !NeedsReview(c) && c.originalUrl !in prior && fetch(c.originalUrl).Loaded?) &&
      (forall c :: c in crews && !NeedsReview(c) && c.originalUrl !in prior ==>
         multiset(r)[c] == multiset(crews)[c])
  {
    var crews := AssembledAll(urls, fetch);
    var issues := prior + ReviewUrls(crews);
    var r := ExcludeKnownIssues(crews, issues);
    forall c | c in r
      ensures !NeedsReview(c) && c.originalUrl !in prior && fetch(c.originalUrl).Loaded?
    {
      assert c in crews && c.originalUrl !in issues;
      if fetch(c.originalUrl).Failed? {
        FailedFetchIsFlagged(c.originalUrl, fetch(c.originalUrl).message);
      }
    }
    forall c | c in crews && !NeedsReview(c)
      ensures c.originalUrl !in ReviewUrls(crews)
    {
      UnflaggedNotReviewed(urls, fetch, c);
    }
  }

  /** Program's static state: the navigation links and the issue list. */
  class Program {
    var pageNav: seq<string>
    var knownIssues: seq<string>

    constructor ()
      ensures pageNav == [] && knownIssues == []
    {
      pageNav := [];
      knownIssues := [];
    }

    /** CheckCrew: appends the record's url to the issue list exactly when the
        record is flagged; nothing else changes. */
    method CheckCrew(c: Crew)
      modifies this`knownIssues
      ensures NeedsReview(c) ==> knownIssues == old(knownIssues) + [c.originalUrl]
      ensures !NeedsReview(c) ==> knownIssues == old(knownIssues)
    {
      if IsNullOrEmpty(c.dateOfEnlistment) && IsNullOrEmpty(c.placeOfEnlistment) && IsNullOrEmpty(c.serviceNumber) {
        knownIssues := knownIssues + [c.originalUrl];
      }
    }

    /** GetAllUrls: the page's links, less those already among the navigation links. */
    function GetAllUrls(page: seq<Anchor>): (links: seq<string>)
      reads this`pageNav
      ensures IsSubsequence(links, Hrefs(page))
      ensures forall l :: l in links <==> l in Hrefs(page) && l !in pageNav
    {
      LinksOutside(page, pageNav)
    }

    /** GetCrew: builds the record for `url` from the fetch outcome, on the
        success path field by field, on the failure path with the url alone,
        and runs CheckCrew on it in both cases. */
    method GetCrew(url: string, fetched: FetchOutcome) returns (crew: Crew)
      modifies this`knownIssues
      ensures crew == Assembled(url, fetched)
      ensures crew.originalUrl == url
      ensures fetched.Failed? ==> OnlyUrl(crew) && knownIssues == old(knownIssues) + [url]
      ensures knownIssues == old(knownIssues) + if NeedsReview(crew) then [url] else []
    {
      match fetched
      case Loaded(doc) =>
        crew := NewCrew(url);
        crew := crew.(name := ParseString(doc, NamePath));
        crew := crew.(dateOfBirth := ParseString(doc, DateOfBirthPath));
        crew := crew.(serviceNumber := ParseString(doc, ServiceNumberPath));
        crew := crew.(rank := ParseString(doc, RankPath));
        crew := crew.(dateOfEnlistment := ParseString(doc, DateOfEnlistmentPath));
        crew := crew.(placeOfEnlistment := ParseString(doc, PlaceOfEnlistmentPath));
        crew := crew.(dateOnShip := ParseString(doc, DateOnShipPath));
        crew := crew.(dateOffShip := ParseString(doc, DateOffShipPath));
        crew := crew.(dateDischarged := ParseString(doc, DateDischargedPath));
        crew := crew.(dateOfDeath := ParseString(doc, DateOfDeathPath));
        CheckCrew(crew);
      case Failed(_) =>
        crew := NewCrew(url);
        CheckCrew(crew);
    }

    /** The crew loop: one GetCrew per url, in order. */
    method GetCrewList(crewUrls: seq<string>, fetch: string -> FetchOutcome) returns (crewList: seq<Crew>)
      modifies this`knownIssues
      ensures crewList == AssembledAll(crewUrls, fetch)
      ensures knownIssues == old(knownIssues) + ReviewUrls(crewList)
    {
      crewList := [];
      for i := 0 to |crewUrls|
        invariant crewList == AssembledAll(crewUrls[..i], fetch)
        invariant knownIssues == old(knownIssues) + ReviewUrls(crewList)
      {
        var crew := GetCrew(crewUrls[i], fetch(crewUrls[i]));
        AssembledAllStep(crewUrls, fetch, i);
        ReviewUrlsStep(crewList, crew);
        crewList := crewList + [crew];
      }
      assert crewUrls[..|crewUrls|] == crewUrls;
    }

    /** The run: the navigation links are read first, then the links of the
        four roster pages, then every crew page. */
    method Run(navPage: seq<Anchor>, page4: seq<Anchor>, page6: seq<Anchor>, page7: seq<Anchor>,
               page8: seq<Anchor>, fetch: string -> FetchOutcome)
      returns (crewUrls: seq<string>, crewList: seq<Crew>)
      modifies this
      ensures pageNav == LinksOutside(navPage, old(pageNav))
      ensures crewUrls == LinksOutside(page4, pageNav) + LinksOutside(page6, pageNav) +
                          LinksOutside(page7, pageNav) + LinksOutside(page8, pageNav)
      ensures forall u :: u in crewUrls ==> u !in pageNav
      ensures knownIssues == old(knownIssues) + ReviewUrls(AssembledAll(crewUrls, fetch))
      ensures crewList == ExcludeKnownIssues(AssembledAll(crewUrls, fetch), knownIssues)
    {
      pageNav := GetAllUrls(navPage);
      crewUrls := GetAllUrls(page4);
      crewUrls := crewUrls + GetAllUrls(page6);
      crewUrls := crewUrls + GetAllUrls(page7);
      crewUrls := crewUrls + GetAllUrls(page8);
      var all := GetCrewList(crewUrls, fetch);
      crewList := ExcludeKnownIssues(all, knownIssues);
    }
  }
}
