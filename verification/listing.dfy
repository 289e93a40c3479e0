/**
 * The student listing page (Home.jsx): the `domains` normalisation applied to
 * every fetched internship, the short-circuiting `filteredInternships` filter,
 * the `canApply` and `hasMatchingDomains` annotations of each card, and the
 * active / expired counts in the heading.
 */
module Listing {
  import opened Wrappers
  import opened Text
  import opened Seqs
  import opened Records
  import opened DepartmentTable

  // ---------------------------------------------------------- normalisation

  /** "Ensure domains is always an array": a falsy field becomes `[]`, a lone
      value `x` becomes `[x]`, an array is kept as it is. */
  function NormalizeDomains(raw: RawDomains): (r: seq<Option<string>>) {
    match raw
    case Missing => []
    case Single(s) => if s == "" then [] else [Some(s)]
    case List(items) => items
  }

  /** The fetched document with its `domains` field replaced by the array. */
  function Normalize(i: Internship): (r: Internship)
    ensures r.domains.List? && r == i.(domains := r.domains)
    ensures i.domains.List? ==> r == i
  {
    i.(domains := List(NormalizeDomains(i.domains)))
  }

  /**
   * Normalisation stores an array, changes no other field, keeps an array and
   * the text of a lone domain, and applying it again changes nothing.
   */
  lemma NormalizeRule(i: Internship)
    ensures Normalize(i).domains.List? && Normalize(i) == i.(domains := Normalize(i).domains)
    ensures i.domains.List? ==> Normalize(i) == i
    ensures i.domains.Single? && i.domains.text != "" ==> Normalize(i).domains.items == [Some(i.domains.text)]
    ensures i.domains in {Missing, Single("")} ==> Normalize(i).domains.items == []
    ensures Normalize(Normalize(i)) == Normalize(i)
  {
  }

  // ---------------------------------------------------------------- filter

  /** The page state the filter reads; `now` is the clock at filtering time. */
  datatype HomeView = HomeView(
    showAll: bool,
    showExpired: bool,
    filterByDepartment: bool,
    searchTerm: string,
    userDepartment: string,
    applied: seq<string>,
    now: int)

  /**
   * `matchesSearch`: no search term, or the lower-cased term occurs in the
   * lower-cased title, company name or one of the domains; a `null` field
   * never matches.
   */
  predicate MatchesSearch(i: Internship, term: string)
    ensures term == "" ==> MatchesSearch(i, term)
    ensures MatchesSearch(i, term) && term != "" ==>
              i.title.Some? || i.companyName.Some?
              || exists k :: 0 <= k < |NormalizeDomains(i.domains)| && NormalizeDomains(i.domains)[k].Some?
  {
    var t := Lower(term);
    var ds := NormalizeDomains(i.domains);
    term == ""
    || (i.title.Some? && Contains(Lower(i.title.value), t))
    || (i.companyName.Some? && Contains(Lower(i.companyName.value), t))
    || exists k :: 0 <= k < |ds| && ds[k].Some? && Contains(Lower(ds[k].value), t)
  }

  /** `matchesDepartment`: with department filtering on and a department known,
      only a non-empty `departments` field listing it. */
  predicate DepartmentOk(v: HomeView, i: Internship) {
    if v.filterByDepartment && v.userDepartment != "" then
      |i.departments| > 0 && v.userDepartment in i.departments
    else true
  }

  /** The filter callback, its early returns in the source's order. */
  predicate Retained(v: HomeView, i: Internship)
    ensures Retained(v, i) <==>
              (v.showAll || i.id !in v.applied)
              && (v.showExpired || !DeadlinePassed(i.firstRoundDate, v.now))
              && MatchesSearch(i, v.searchTerm)
              && (v.showAll || DepartmentOk(v, i))
  {
    if !v.showAll && i.id in v.applied then false
    else if !v.showExpired && DeadlinePassed(i.firstRoundDate, v.now) then false
    else if v.showAll then MatchesSearch(i, v.searchTerm)
    else MatchesSearch(i, v.searchTerm) && DepartmentOk(v, i)
  }

  function Keeps(v: HomeView): Internship -> bool {
    (i: Internship) => Retained(v, i)
  }

  /** `filteredInternships`. */
  function FilteredInternships(v: HomeView, internships: seq<Internship>): seq<Internship> {
    Filter(Keeps(v), internships)
  }

  /** The filter never reorders or invents: the result is a subsequence of the
      list and holds exactly the internships the callback keeps. */
  lemma FilteredListing(v: HomeView, internships: seq<Internship>)
    ensures SubsequenceOf(FilteredInternships(v, internships), internships)
    ensures forall x :: x in FilteredInternships(v, internships) <==> x in internships && Retained(v, x)
  {
    FilterIsSubsequence(Keeps(v), internships);
    FilterMembers(Keeps(v), internships);
  }

  /** An internship already applied to is hidden exactly when show-all is off;
      with show-all on it is judged as if it had not been applied to. */
  lemma AppliedHiddenOutsideShowAll(v: HomeView, i: Internship)
    requires i.id in v.applied
    ensures Retained(v, i) <==> v.showAll && Retained(v.(applied := []), i)
  {
  }

  /**
   * Expiry is strict: a deadline equal to `now` is kept like no deadline at
   * all, one a moment earlier is dropped unless expired internships are shown,
   * and a stored but falsy deadline is never checked.
   */
  lemma DeadlineBoundary(v: HomeView, i: Internship)
    ensures Retained(v, i.(firstRoundDate := At(v.now))) == Retained(v, i.(firstRoundDate := Absent))
    ensures Retained(v, i.(firstRoundDate := Blank)) == Retained(v, i.(firstRoundDate := Absent))
    ensures !v.showExpired ==> !Retained(v, i.(firstRoundDate := At(v.now - 1)))
    ensures Retained(v, i) && !v.showExpired ==> !DeadlinePassed(i.firstRoundDate, v.now)
  {
  }

  /** The search is case-insensitive: an upper-cased or lower-cased term selects
      the same internships. */
  lemma SearchIgnoresCase(i: Internship, term: string)
    ensures MatchesSearch(i, Upper(term)) == MatchesSearch(i, term)
    ensures MatchesSearch(i, Lower(term)) == MatchesSearch(i, term)
  {
    LowerForgetsCase(term);
    UpperSpec(term);
    LowerSpec(term);
  }

  /** No search term matches everything; with no title, no company name and no
      domain text, nothing else does. */
  lemma SearchWithoutText(i: Internship, term: string)
    ensures MatchesSearch(i, "")
    ensures (i.title.None? && i.companyName.None?
             && forall k :: 0 <= k < |NormalizeDomains(i.domains)| ==> NormalizeDomains(i.domains)[k].None?) ==>
              (MatchesSearch(i, term) <==> term == "")
  {
  }

  /** In show-all mode retention is the search alone (after the expiry check):
      the department settings do not matter. */
  lemma ShowAllIgnoresDepartment(v: HomeView, i: Internship, filterByDepartment: bool, dept: string)
    requires v.showAll
    ensures Retained(v, i) <==> (v.showExpired || !DeadlinePassed(i.firstRoundDate, v.now)) && MatchesSearch(i, v.searchTerm)
    ensures Retained(v, i) == Retained(v.(filterByDepartment := filterByDepartment, userDepartment := dept), i)
  {
  }

  /** In the department view a known department admits only internships whose
      `departments` field lists it; an unknown one restricts nothing. */
  lemma DepartmentViewRule(v: HomeView, i: Internship)
    requires !v.showAll
    ensures v.filterByDepartment && v.userDepartment != "" && Retained(v, i) ==> v.userDepartment in i.departments
    ensures v.userDepartment == "" ==> Retained(v, i) == Retained(v.(filterByDepartment := false), i)
    ensures |i.departments| == 0 && v.filterByDepartment && v.userDepartment != "" ==> !Retained(v, i)
  {
  }

  // ----------------------------------------------------------- annotations

  /** `canApply`: always outside show-all; in show-all mode, a student without a
      department may apply anywhere, otherwise only where `departments` lists
      the department. */
  predicate CanApply(v: HomeView, i: Internship)
    ensures !v.showAll ==> CanApply(v, i)
    ensures CanApply(v, i) && v.userDepartment != "" && v.showAll ==> v.userDepartment in i.departments
    ensures v.userDepartment == "" ==> CanApply(v, i)
  {
    !v.showAll || (v.userDepartment == "" || (|i.departments| > 0 && v.userDepartment in i.departments))
  }

  /**
   * `canApply` consults only the `departments` field: eligibility criteria,
   * deadlines and domains never change it, and in show-all mode it is exactly
   * the department view's department test.
   */
  lemma CanApplyRule(v: HomeView, i: Internship, d: Deadline, c: Option<Criteria>, ds: RawDomains)
    ensures CanApply(v, i) == CanApply(v, i.(firstRoundDate := d, criteria := c, domains := ds))
    ensures !v.showAll ==> CanApply(v, i)
    ensures v.showAll ==> (CanApply(v, i) <==> DepartmentOk(v.(showAll := false, filterByDepartment := true), i))
  {
  }

  /** `hasMatchingDomains`: both lists non-empty and some trimmed, lower-cased
      interest and domain (`''` for `null`) where either contains the other. */
  predicate HasMatchingDomains(interests: seq<Option<string>>, domains: seq<Option<string>>)
    ensures HasMatchingDomains(interests, domains) ==> |interests| > 0 && |domains| > 0
  {
    if |interests| == 0 || |domains| == 0 then false
    else exists a, b :: 0 <= a < |interests| && 0 <= b < |domains|
                        && (Contains(DomainKey(domains[b]), DomainKey(interests[a]))
                            || Contains(DomainKey(interests[a]), DomainKey(domains[b])))
  }

  /** The annotation of one card: the student's interests against the
      internship's normalised domains. */
  predicate CardHasMatchingDomains(interests: seq<Option<string>>, i: Internship) {
    HasMatchingDomains(interests, NormalizeDomains(i.domains))
  }

  /** The match is symmetric, an interest equal to a domain (after trimming and
      lower-casing) matches, and a blank or `null` entry on either side matches
      anything on the other as soon as both lists are non-empty. */
  lemma {:induction false} MatchingDomainsRule(interests: seq<Option<string>>, domains: seq<Option<string>>)
    ensures HasMatchingDomains(interests, domains) == HasMatchingDomains(domains, interests)
    ensures (|domains| > 0 && exists a :: 0 <= a < |interests| && DomainKey(interests[a]) == "") ==>
              HasMatchingDomains(interests, domains)
    ensures (|interests| > 0 && exists b :: 0 <= b < |domains| && DomainKey(domains[b]) == "") ==>
              HasMatchingDomains(interests, domains)
    ensures (exists a, b :: 0 <= a < |interests| && 0 <= b < |domains|
                            && DomainKey(interests[a]) == DomainKey(domains[b])) ==>
              HasMatchingDomains(interests, domains)
  {
    if exists a, b :: 0 <= a < |interests| && 0 <= b < |domains| && DomainKey(interests[a]) == DomainKey(domains[b]) {
      var a, b :| 0 <= a < |interests| && 0 <= b < |domains| && DomainKey(interests[a]) == DomainKey(domains[b]);
      ContainsPrefix(DomainKey(domains[b]), "");
      assert DomainKey(domains[b]) + "" == DomainKey(domains[b]);
    }
    if HasMatchingDomains(interests, domains) {
      var a, b :| 0 <= a < |interests| && 0 <= b < |domains|
                  && (Contains(DomainKey(domains[b]), DomainKey(interests[a]))
                      || Contains(DomainKey(interests[a]), DomainKey(domains[b])));
      assert 0 <= b < |domains| && 0 <= a < |interests|;
    }
    if HasMatchingDomains(domains, interests) {
      var b, a :| 0 <= b < |domains| && 0 <= a < |interests|
                  && (Contains(DomainKey(interests[a]), DomainKey(domains[b]))
                      || Contains(DomainKey(domains[b]), DomainKey(interests[a])));
      assert 0 <= a < |interests| && 0 <= b < |domains|;
    }
    if |domains| > 0 && exists a :: 0 <= a < |interests| && DomainKey(interests[a]) == "" {
      var a :| 0 <= a < |interests| && DomainKey(interests[a]) == "";
      ContainsEmpty(DomainKey(domains[0]));
    }
    if |interests| > 0 && exists b :: 0 <= b < |domains| && DomainKey(domains[b]) == "" {
      var b :| 0 <= b < |domains| && DomainKey(domains[b]) == "";
      ContainsEmpty(DomainKey(interests[0]));
    }
  }

  // ---------------------------------------------------------------- counts

  /** The heading's `activeCount`: no deadline, or a deadline not before `now`. */
  function ActiveCount(filtered: seq<Internship>, now: int): nat {
    Count(Live(now), filtered)
  }

  function Expired(now: int): Internship -> bool {
    (i: Internship) => DeadlinePassed(i.firstRoundDate, now)
  }

  /** `expiredCount = filteredInternships.length - activeCount`. */
  function ExpiredCount(filtered: seq<Internship>, now: int): nat {
    FilterSpec(Live(now), filtered);
    |filtered| - ActiveCount(filtered, now)
  }

  /** The count the heading shows. */
  datatype Heading = ActiveAndExpired(active: nat, expired: nat) | Found(total: nat)

  function CountHeading(v: HomeView, filtered: seq<Internship>): (r: Heading)
    ensures r.ActiveAndExpired? <==> v.showExpired && Count(Expired(v.now), filtered) > 0
    ensures r.ActiveAndExpired? ==>
              r.active == ActiveCount(filtered, v.now) && r.expired == Count(Expired(v.now), filtered)
              && r.active + r.expired == |filtered|
    ensures r.Found? ==> r.total == |filtered|
  {
    CountsSplit(filtered, v.now);
    var expired := ExpiredCount(filtered, v.now);
    if v.showExpired && expired > 0 then ActiveAndExpired(ActiveCount(filtered, v.now), expired)
    else Found(|filtered|)
  }

  /** The two counts split the filtered list: the expired count is the number of
      internships whose deadline has passed. */
  lemma CountsSplit(filtered: seq<Internship>, now: int)
    ensures ActiveCount(filtered, now) + ExpiredCount(filtered, now) == |filtered|
    ensures ExpiredCount(filtered, now) == Count(Expired(now), filtered)
  {
    FilterSpec(Live(now), filtered);
    FilterComplementLength(Live(now), Expired(now), filtered);
  }

  /** With expired internships hidden, everything listed is active, so the
      heading reports the plain total. */
  lemma HiddenExpiredMeansAllActive(v: HomeView, internships: seq<Internship>)
    requires !v.showExpired
    ensures ExpiredCount(FilteredInternships(v, internships), v.now) == 0
    ensures CountHeading(v, FilteredInternships(v, internships)) == Found(|FilteredInternships(v, internships)|)
  {
    var filtered := FilteredInternships(v, internships);
    FilterMembers(Keeps(v), internships);
    FilterAll(Live(v.now), filtered);
  }
}
