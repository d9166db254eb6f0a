# USS Champlin crew scraper — a Dafny model

The scraper reads the crew roster of the USS Champlin memorial site. It
collects the links on a history page as the site's navigation links. It then
collects the links of four roster pages, leaving out the navigation links. It
fetches each crew page and reads ten fixed XPath nodes into a `Crew` record.
Each value is cleaned the same way: the node's inner text loses each
`&nbsp;` entity found in one left-to-right pass, and is then trimmed. An
entity split by another one is joined up by that pass and survives. A record
whose enlistment date, enlistment place and service number are all null or
empty is put on an issue list, and so is every record whose page could not
be fetched. Finally every record whose url is on the issue list is dropped.

The model has five modules:

- `Wrappers`: `Option`, standing for a C# `null`able reference.
- `Sequences`: subsequences and the order-keeping filter `Where` (LINQ `Where`).
- `Text`: .NET `String.Trim()` with the `Char.IsWhiteSpace` character set, and
  the ordinal `String.Replace(string, string)`.
- `Crews`: the `Crew` record of Crew.cs.
- `Scraper`: `ParseString`, the record assembly of `GetCrew`, the completeness
  check, the link filter and the final filter. `Scraper.Program` is a class
  holding the two static lists of the program (`PageNav`, `KnownIssues`) as
  fields. Its methods update them in place as the source does.

A loaded page is a map from each XPath expression to the inner text of the
node it selects; an expression that selects nothing is not a key. A fetch is
a function from a url to its outcome, either a loaded page or a failure. An
anchor is the map of its attributes.

## Model

| member | source | states |
|---|---|---|
| Scraper.ParseString | Program.cs:140-146 | the result is null exactly when the path selects no node; a present value has no white space at either end |
| Scraper.ParseStringKeepsOrder | Program.cs:142-145 | a cleaned value is a subsequence of the node's text and no longer than it: cleanup only deletes characters |
| Scraper.ParseStringWithoutEntity | Program.cs:144-145 | text without any `&nbsp;` is only trimmed |
| Scraper.ParseStringEmpty | Program.cs:144-145 | the cleaned value is "" exactly when the text, with its entities removed, is all white space |
| Scraper.ParseStringRemovesEntity | Program.cs:142-145 | text `x + "&nbsp;" + y` with no earlier occurrence cleans to `Trim(x + Replace(y, "&nbsp;", ""))`: the first entity is removed, what precedes it is kept, and the whole is trimmed once |
| Scraper.ParseStringSinglePass | Program.cs:144 | removal is one left-to-right pass: `&nb&nbsp;sp;` cleans to `&nbsp;`, so an entity can survive cleanup |
| Text.Trim | Program.cs:145 | the result neither begins nor ends with white space and is no longer than the input |
| Text.TrimOfMargins | Program.cs:145 | trimming white space `a`, trimmed `m`, white space `b` gives exactly `m` |
| Text.TrimOfTrimmed | Program.cs:145 | a string without white space at either end is its own trim |
| Text.TrimIdempotent | Program.cs:145 | trimming twice equals trimming once |
| Text.TrimEmpty | Program.cs:145 | Trim gives "" if and only if the input is all white space |
| Text.TrimIsSubsequence | Program.cs:145 | the trimmed string is a subsequence of the input |
| Text.RemoveIsSubsequence | Program.cs:144 | removing a pattern gives a subsequence of the input, no longer than it |
| Text.RemoveThenTrimKeepsOrder | Program.cs:144-145 | removing then trimming gives a subsequence of the input, no longer than it |
| Text.ReplaceWithoutOccurrence | Program.cs:144 | text that does not contain the pattern is returned unchanged |
| Text.ReplaceShort | Program.cs:144 | text shorter than the pattern is returned unchanged |
| Text.Replace | Program.cs:144 | replacing by the empty string never lengthens the text |
| Text.ReplaceAtFirstOccurrence | Program.cs:144 | the first occurrence of the pattern is replaced, the text before it is kept unchanged, and the scan resumes right after it |
| Text.ReplaceIsOnePass | Program.cs:144 | removing `&nbsp;` from `&nb&nbsp;sp;` leaves `&nbsp;` |
| Text.LeadingWhiteSpace | Program.cs:145 | the count is the length of the longest white-space prefix |
| Text.TrailingWhiteSpace | Program.cs:145 | the count is the length of the longest white-space suffix |
| Scraper.IsNullOrEmpty | Program.cs:69-71 | `String.IsNullOrEmpty` holds for null and for "" and for nothing else; white space is not empty |
| Scraper.NeedsReview | Program.cs:69-71 | a record is flagged if and only if none of the enlistment date, enlistment place and service number holds a non-empty value |
| Scraper.OneValueClearsReview | Program.cs:69-71 | one non-empty value in any of the three fields, even white space, keeps a record off the issue list |
| Crews.NewCrew | Program.cs:96-98 | `new Crew { OriginalUrl = url }`: the url is set and every other property is null |
| Scraper.Assembled | Program.cs:90-133 | GetCrew's record keeps the url on both paths, is the url-only record when the fetch fails, and never sets picture url, place of birth, spouse or post-war experience |
| Scraper.FailedFetchIsFlagged | Program.cs:125-131 | a failed fetch gives the record with only its url set, and that record is always flagged |
| Scraper.LoadedRecordShape | Program.cs:96-120 | a loaded record keeps its url, has all ten read values trimmed or null, and leaves the other properties null |
| Scraper.LoadedFlaggedIffBlank | Program.cs:69-71 | a loaded record is flagged if and only if each of the three nodes is missing or holds only white space and entities |
| Scraper.AssembledAll | Program.cs:54-58 | one record per url, in the urls' order, each built from that url's fetch outcome |
| Scraper.ReviewUrls | Program.cs:67-76 | every flagged record's url is on the list, and every url on it is a flagged record's, and there are no more urls than records |
| Scraper.Hrefs | Program.cs:82-83 | one entry per anchor, in document order: the anchor's `href`, or "" when it has none |
| Scraper.LinksOutside | Program.cs:82-85 | the kept links are the page's hrefs in document order, minus the navigation links, with every other link kept as many times as it occurs |
| Scraper.ExcludeKnownIssues | Program.cs:59 | the kept records are those whose url is not on the issue list, in order, each kept as many times as it occurs |
| Scraper.UnflaggedNotReviewed | Program.cs:54-58 | an unflagged record built by the crew loop never has its url put on the issue list by that loop, since a url's fetch gives the same record each time |
| Scraper.FinalListIsUnflagged | Program.cs:54-59 | after the crew loop and the final filter, no flagged record, no failed fetch and no url already on the issue list remains; every unflagged record whose url was not on the list before the loop keeps all its copies |
| Sequences.Where | Program.cs:84 | the result is no longer than the input and holds exactly the input's elements that pass the test |
| Sequences.WhereIsSubsequence | Program.cs:84 | the filter keeps the input's order |
| Sequences.WhereMultiplicity | Program.cs:84 | an element that passes keeps all its copies; one that fails keeps none |
| Scraper.Program.constructor | Program.cs:18-20 | the navigation list and the issue list start empty |
| Scraper.Program.CheckCrew | Program.cs:67-76 | the url is appended to the issue list exactly when the record is flagged; otherwise the list is unchanged |
| Scraper.Program.GetAllUrls | Program.cs:78-88 | the result is the page's hrefs in order, minus the current navigation links |
| Scraper.Program.GetCrew | Program.cs:90-133 | the record is the one assembled from the fetch outcome; a failure gives the url-only record; the issue list grows by the url exactly when the record is flagged |
| Scraper.Program.GetCrewList | Program.cs:54-58 | the loop builds one record per url in order, and the issue list grows by the flagged records' urls in order |
| Scraper.Program.Run | Program.cs:41-59 | the navigation list is read first; the crew urls are the four pages' links outside it, concatenated; the issue list and the final crew list are those of the crew loop and the final filter |

## Left out

- Networking and `async`/`await`: a fetch is a function from url to outcome, so the same url gives the same outcome each time it is fetched.
- HTML parsing and XPath evaluation: a page is a map from expression to inner text. The node's `InnerText` decoding (it leaves `&nbsp;` undecoded) is taken as given.
- `ParseDateTime` (Program.cs:135-139) is never called and is not modelled.
- Logging, the logger factory and `Thread.Sleep` have no effect on the data and are left out.
- A failure to load a page inside `GetAllUrls` propagates out of `Main` uncaught; the model takes the four roster pages and the history page as already loaded anchor lists.
- `String.Replace` throws for an empty pattern; `Text.Replace` requires a non-empty one, since the program only passes the constant `&nbsp;`.
- Strings are sequences of Unicode scalar values, not of UTF-16 code units: a surrogate pair is one `char`, a lone surrogate (which a .NET string may hold) cannot be represented, and every length bound (`|r| <= |s|`) counts scalar values rather than .NET's `Length`.
- `OriginalUrl` is a plain string, since every path of `GetCrew` sets it.
- Properties of `Crew` that the program never assigns (picture url, place of birth, spouse, the lists, post-war experience) stay `None`; no parsing of them exists to model.
- No delimiter-based splitting of a node's text into label and value, and no list segmentation of family or school entries, exists in the program; values are taken whole from fixed nodes.
