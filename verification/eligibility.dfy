/**
 * The details page's eligibility evaluator (`isEligible`) and the guard
 * order of its apply handler (`handleApply`), InternshipDetails.jsx.
 */
module Eligibility {
  import opened Wrappers
  import opened Records

  /** `internship.eligibilityCriteria || {}`. */
  function CriteriaOf(i: Internship): Criteria {
    i.criteria.GetOr(NO_CRITERIA)
  }

  /** `crit.type || 'cgpa'`: only the exact text `percentage` selects the percentage rule. */
  predicate UsesPercentage(c: Criteria) {
    c.kind == "percentage"
  }

  /** The year gate: a non-empty `allowedYears` rejects a truthy `currentYear` it does not list. */
  predicate YearBlocked(c: Criteria, year: string)
    ensures (|c.allowedYears| == 0 || year == "" || year in c.allowedYears) ==> !YearBlocked(c, year)
    ensures (|c.allowedYears| > 0 && year != "" && forall k :: 0 <= k < |c.allowedYears| ==> c.allowedYears[k] != year)
            ==> YearBlocked(c, year)
  {
    |c.allowedYears| > 0 && year != "" && year !in c.allowedYears
  }

  /** `userCgpa * 9.5` on the reals (`9.5` is exactly 19/2). */
  function CgpaPercent(cgpa: real): real {
    cgpa * 19.0 / 2.0
  }

  /**
   * `isEligible`, branch by branch as the source evaluates it.  `None` in a
   * parsed number is `NaN`.
   */
  function IsEligible(internship: Option<Internship>, user: Option<StudentRecord>, role: Role): (r: bool)
    // viewing is never blocked without an internship, a record or a student viewer
    ensures (internship.None? || user.None? || role != StudentRole) ==> r
    // the year gate comes before either rule
    ensures (internship.Some? && user.Some? && role == StudentRole
             && YearBlocked(CriteriaOf(internship.value), user.value.currentYear)) ==> !r
    // the percentage rule: no numeric minimum admits everyone; otherwise all three
    // figures must parse and reach the minimum, the CGPA scaled by 9.5
    ensures internship.Some? && user.Some? && role == StudentRole
            && !YearBlocked(CriteriaOf(internship.value), user.value.currentYear)
            && UsesPercentage(CriteriaOf(internship.value)) ==>
              var c := CriteriaOf(internship.value);
              var u := user.value;
              (r <==> c.minPercentage.None?
                      || (u.tenthPercentage.Some? && u.twelfthPercentage.Some? && u.cgpa.Some?
                          && u.tenthPercentage.value >= c.minPercentage.value
                          && u.twelfthPercentage.value >= c.minPercentage.value
                          && CgpaPercent(u.cgpa.value) >= c.minPercentage.value))
    // the CGPA rule rejects only a CGPA that parses and is below a numeric minimum
    ensures internship.Some? && user.Some? && role == StudentRole
            && !YearBlocked(CriteriaOf(internship.value), user.value.currentYear)
            && !UsesPercentage(CriteriaOf(internship.value)) ==>
              var c := CriteriaOf(internship.value);
              (!r <==> c.minCgpa.Some? && user.value.cgpa.Some? && user.value.cgpa.value < c.minCgpa.value)
  {
    if internship.None? then true
    else
      var crit := CriteriaOf(internship.value);
      if user.None? || role != StudentRole then true
      else
        var u := user.value;
        if YearBlocked(crit, u.currentYear) then false
        else if UsesPercentage(crit) then
          if crit.minPercentage.None? then true
          else if u.tenthPercentage.None? || u.twelfthPercentage.None? || u.cgpa.None? then false
          else
            var m := crit.minPercentage.value;
            if u.tenthPercentage.value < m then false
            else if u.twelfthPercentage.value < m then false
            else if CgpaPercent(u.cgpa.value) < m then false
            else true
        else
          !(crit.minCgpa.Some? && u.cgpa.Some? && u.cgpa.value < crit.minCgpa.value)
  }

  /** A better CGPA never costs a student eligibility, under either rule. */
  lemma EligibilityMonotoneInCgpa(i: Internship, u: StudentRecord, better: real)
    requires u.cgpa.Some? && better >= u.cgpa.value
    ensures IsEligible(Some(i), Some(u), StudentRole) ==> IsEligible(Some(i), Some(u.(cgpa := Some(better))), StudentRole)
  {
  }

  /** A CGPA that does not parse passes the CGPA rule, whatever the minimum. */
  lemma UnparsedCgpaPassesCgpaRule(i: Internship, u: StudentRecord)
    requires u.cgpa.None? && !UsesPercentage(CriteriaOf(i)) && !YearBlocked(CriteriaOf(i), u.currentYear)
    ensures IsEligible(Some(i), Some(u), StudentRole)
  {
  }

  /** Under the percentage rule a CGPA of 8 is 76 per cent: short of an 80 per
      cent minimum even with 90 in both school results. */
  lemma PercentageRuleScalesCgpa()
    ensures var c := Criteria("percentage", None, Some(80.0), []);
            var i := Internship("x", None, None, Missing, [], Absent, Absent, Some(c), "", FacultyRef("", ""));
            var u := StudentRecord("Computer Science", Some(8.0), Some(90.0), Some(90.0), "");
            !IsEligible(Some(i), Some(u), StudentRole)
            && IsEligible(Some(i), Some(u.(cgpa := Some(8.5))), StudentRole)
  {
  }

  // ------------------------------------------------------------ apply guards

  /** What one press of "Apply" does; the comments give the error the page shows. */
  datatype ApplyOutcome =
    | Ignored            // a submission is already running: nothing
    | RedirectToLogin    // no signed-in user: navigate to /login
    | OnlyStudents       // "Only students can apply for internships"
    | NotEligible        // "You are not eligible to apply for this internship ..."
    | WrongDepartment    // "You cannot apply to this internship as it doesn't match your department ..."
    | NoInternshipData   // "Internship data not available"
    | MissingData        // "Missing required application data"
    | Submit             // the application document is written

  /**
   * `handleApply`'s guards in the order the source tests them: the double
   * submit, the sign-in, the role, eligibility, the department flag, the loaded
   * internship, then the required fields of the application document (the
   * student id is the signed-in user's and always present).
   */
  function ApplyDecision(submitting: bool, signedIn: bool, role: Role, eligible: bool, mismatch: bool,
                         internship: Option<Internship>, routeId: string): (r: ApplyOutcome)
    ensures r == Submit <==>
              !submitting && signedIn && role == StudentRole && eligible && !mismatch
              && internship.Some? && routeId != "" && internship.value.testDate.IsSet()
    ensures r == Ignored <==> submitting
    ensures r == RedirectToLogin <==> !submitting && !signedIn
    ensures r == OnlyStudents <==> !submitting && signedIn && role != StudentRole
    ensures r == NotEligible <==> !submitting && signedIn && role == StudentRole && !eligible
    ensures r == WrongDepartment <==> !submitting && signedIn && role == StudentRole && eligible && mismatch
    ensures r == NoInternshipData <==>
              !submitting && signedIn && role == StudentRole && eligible && !mismatch && internship.None?
    ensures r == MissingData <==>
              !submitting && signedIn && role == StudentRole && eligible && !mismatch && internship.Some?
              && (routeId == "" || !internship.value.testDate.IsSet())
  {
    if submitting then Ignored
    else if !signedIn then RedirectToLogin
    else if role != StudentRole then OnlyStudents
    else if !eligible then NotEligible
    else if mismatch then WrongDepartment
    else if internship.None? then NoInternshipData
    else if routeId == "" || !internship.value.testDate.IsSet() then MissingData
    else Submit
  }

  /**
   * Pressing "Apply" on a loaded internship: a student the year gate rejects
   * hears about eligibility, never about the department, and a viewer who is
   * not a student is turned away before eligibility (which does not block
   * non-students) is consulted.
   */
  lemma ApplyOnLoadedInternship(i: Internship, u: StudentRecord, role: Role, mismatch: bool, routeId: string)
    ensures role == StudentRole && YearBlocked(CriteriaOf(i), u.currentYear) ==>
              ApplyDecision(false, true, role, IsEligible(Some(i), Some(u), role), mismatch, Some(i), routeId) == NotEligible
    ensures role != StudentRole ==>
              ApplyDecision(false, true, role, IsEligible(Some(i), Some(u), role), mismatch, Some(i), routeId) == OnlyStudents
    ensures ApplyDecision(false, true, role, IsEligible(Some(i), Some(u), role), mismatch, Some(i), routeId) == Submit ==>
              role == StudentRole && !YearBlocked(CriteriaOf(i), u.currentYear) && !mismatch
  {
  }
}
