/**
 * The crew record of Crew.cs. Every property is a nullable C# string or list;
 * `None` stands for `null`. The class has no behaviour of its own.
 */
module Crews {

  import opened Wrappers

  datatype Crew = Crew(
    originalUrl: string,
    name: Option<string>,
    pictureUrl: Option<string>,
    dateOfBirth: Option<string>,
    placeOfBirth: Option<string>,
    serviceNumber: Option<string>,
    rank: Option<string>,
    dateOfEnlistment: Option<string>,
    placeOfEnlistment: Option<string>,
    dateOnShip: Option<string>,
    dateOffShip: Option<string>,
    dateDischarged: Option<string>,
    dateOfDeath: Option<string>,
    spouse: Option<string>,
    highSchool: Option<seq<string>>,
    children: Option<seq<string>>,
    college: Option<seq<string>>,
    grandchildren: Option<seq<string>>,
    interests: Option<seq<string>>,
    greatGrandchildren: Option<seq<string>>,
    postWarExperience: Option<string>)

  /** `new Crew { OriginalUrl = url }`: every other property is still `null`. */
  function NewCrew(url: string): (c: Crew)
    ensures c.originalUrl == url
    ensures c.name.None? && c.pictureUrl.None? && c.dateOfBirth.None? && c.placeOfBirth.None? &&
      c.serviceNumber.None? && c.rank.None? && c.dateOfEnlistment.None? && c.placeOfEnlistment.None? &&
      c.dateOnShip.None? && c.dateOffShip.None? && c.dateDischarged.None? && c.dateOfDeath.None? &&
      c.spouse.None? && c.postWarExperience.None?
    ensures c.highSchool.None? && c.children.None? && c.college.None? && c.grandchildren.None? &&
      c.interests.None? && c.greatGrandchildren.None?
  {
    Crew(url, None, None, None, None, None, None, None, None, None, None, None, None,
         None, None, None, None, None, None, None, None)
  }

  /** No property other than `OriginalUrl` holds a value. */
  predicate OnlyUrl(c: Crew) {
    c == NewCrew(c.originalUrl)
  }
}
