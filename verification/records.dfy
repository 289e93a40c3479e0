/**
 * The records the listing and eligibility rules read: an internship document
 * as stored, a student's academic record and the viewer's role.
 *
 * Conventions: a `string` field the rules only test for truthiness uses `""`
 * for "absent, null or empty"; a number the source obtains with `Number(...)`
 * is an `Option<real>` whose `None` is `NaN`.
 */
module Records {
  import opened Wrappers

  /** The stored `domains` field: absent or falsy, a lone string, or an array
      whose elements may be `null`. */
  datatype RawDomains = Missing | Single(text: string) | List(items: seq<Option<string>>)

  /** `Array.isArray(domains) ? domains : []`, the details page's and the card's
      `safeDomains`. */
  function SafeDomains(raw: RawDomains): seq<Option<string>> {
    if raw.List? then raw.items else []
  }

  /** A stored `firstRoundDate` (the application deadline): the field is absent
      (`undefined`), present but falsy (`null`, `''`), or a timestamp. */
  datatype Deadline = Absent | Blank | At(time: int) {
    /** `if (internship.firstRoundDate)` */
    predicate IsSet() { At? }
  }

  /** `eligibilityCriteria`: `kind` is the `type` field (`""` when absent); the
      minima are present only when stored as numbers; `allowedYears` is `[]`
      unless stored as an array. */
  datatype Criteria = Criteria(kind: string, minCgpa: Option<real>, minPercentage: Option<real>,
                               allowedYears: seq<string>)

  /** `internship.eligibilityCriteria || {}` when the field is absent. */
  const NO_CRITERIA := Criteria("", None, None, [])

  /** The posting faculty member as joined in by the listing page (`faculty`). */
  datatype FacultyRef = FacultyRef(firstName: string, lastName: string)

  datatype Internship = Internship(
    id: string,
    title: Option<string>,
    companyName: Option<string>,
    domains: RawDomains,
    departments: seq<string>,
    firstRoundDate: Deadline,
    testDate: Deadline,
    criteria: Option<Criteria>,
    facultyName: string,
    faculty: FacultyRef)

  /** A student's record as the eligibility rules see it (numbers already parsed). */
  datatype StudentRecord = StudentRecord(
    department: string,
    cgpa: Option<real>,
    tenthPercentage: Option<real>,
    twelfthPercentage: Option<real>,
    currentYear: string)

  /** `userRole`. */
  datatype Role = StudentRole | FacultyRole | NoRole

  /** `deadline < now` for a set deadline: the strict test every page uses. */
  predicate DeadlinePassed(d: Deadline, now: int) {
    d.At? && d.time < now
  }

  /** The deadline filter of the listing and the recommendations: no deadline,
      or `deadline >= now`. */
  function Live(now: int): Internship -> bool {
    (i: Internship) => !DeadlinePassed(i.firstRoundDate, now)
  }
}
