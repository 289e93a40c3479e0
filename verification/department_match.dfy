/**
 * The details page's domain-to-department matcher and its "department
 * mismatch" flag (InternshipDetails.jsx).
 */
module DepartmentMatch {
  import opened Wrappers
  import opened Text
  import opened Records
  import opened DepartmentTable

  /**
   * One `departmentDomains.some` callback: normalised domain `dl` against the
   * table entry `deptDomain`, for a student of `userDept`.  Branches in the
   * source's order; the second-to-last one (the non-AI veto) is never the one
   * that decides, because every domain it would veto has already been decided
   * by the AI-term branches above it.
   */
  function PairMatches(dl: string, deptDomain: string, userDept: string): (r: bool)
    ensures IsAiTerm(dl) ==> (r <==> dl == Norm(deptDomain) || userDept == AI)
    ensures !IsAiTerm(dl) ==>
      (r <==> dl == Norm(deptDomain) || Contains(Norm(deptDomain), dl) || Contains(dl, Norm(deptDomain)))
  {
    var ddl := Norm(deptDomain);
    if dl == ddl then true
    else if Contains(dl, "artificial intelligence") || dl == "ai" then userDept == AI
    else if Contains(dl, "machine learning") || dl == "ml" then userDept == AI
    else if Contains(dl, "deep learning") then userDept == AI
    else if Contains(dl, "neural network") then userDept == AI
    else if Contains(dl, "computer vision") then userDept == AI
    else if Contains(dl, "natural language processing") || Contains(dl, "nlp") then userDept == AI
    else if userDept != AI && IsAiTerm(dl) then false
    else Contains(ddl, dl) || Contains(dl, ddl)
  }

  /** `internshipDomains.some(domain => departmentDomains.some(...))` */
  predicate MatchesDepartment(domains: seq<Option<string>>, deptDomains: seq<string>, userDept: string)
    ensures MatchesDepartment(domains, deptDomains, userDept) ==> |domains| > 0 && |deptDomains| > 0
    ensures (exists i, j :: 0 <= i < |domains| && 0 <= j < |deptDomains| && DomainKey(domains[i]) == Norm(deptDomains[j]))
              ==> MatchesDepartment(domains, deptDomains, userDept)
  {
    exists i, j :: 0 <= i < |domains| && 0 <= j < |deptDomains|
                   && PairMatches(DomainKey(domains[i]), deptDomains[j], userDept)
  }

  /** An AI domain matches a department with a non-empty list (every department
      of the table, by KnownDepartmentHasDomains) exactly when the department is
      Artificial Intelligence or the domain is literally one of its entries. */
  lemma AiDomainMatch(d: Option<string>, dd: seq<string>, dept: string)
    requires |dd| > 0 && IsAiTerm(DomainKey(d))
    ensures MatchesDepartment([d], dd, dept) <==>
              (dept == AI || exists j :: 0 <= j < |dd| && Norm(dd[j]) == DomainKey(d))
  {
    var dl := DomainKey(d);
    assert [d][0] == d;
    if MatchesDepartment([d], dd, dept) {
      var i, j :| 0 <= i < 1 && 0 <= j < |dd| && PairMatches(DomainKey([d][i]), dd[j], dept);
      assert dl == Norm(dd[j]) || dept == AI;
    }
    if dept == AI {
      assert PairMatches(dl, dd[0], dept);
    }
    if exists j :: 0 <= j < |dd| && Norm(dd[j]) == dl {
      var j :| 0 <= j < |dd| && Norm(dd[j]) == dl;
      assert PairMatches(dl, dd[j], dept);
    }
  }

  /** A non-AI domain matches a department exactly when it equals one of its
      entries or one of the two contains the other. */
  lemma NonAiDomainMatch(d: Option<string>, dd: seq<string>, dept: string)
    requires !IsAiTerm(DomainKey(d))
    ensures var dl := DomainKey(d);
              MatchesDepartment([d], dd, dept) <==>
              exists j :: 0 <= j < |dd| && (dl == Norm(dd[j]) || Contains(Norm(dd[j]), dl) || Contains(dl, Norm(dd[j])))
  {
    var dl := DomainKey(d);
    assert [d][0] == d;
    if MatchesDepartment([d], dd, dept) {
      var i, j :| 0 <= i < 1 && 0 <= j < |dd| && PairMatches(DomainKey([d][i]), dd[j], dept);
      assert dl == Norm(dd[j]) || Contains(Norm(dd[j]), dl) || Contains(dl, Norm(dd[j]));
    }
    if exists j :: 0 <= j < |dd| && (dl == Norm(dd[j]) || Contains(Norm(dd[j]), dl) || Contains(dl, Norm(dd[j]))) {
      var j :| 0 <= j < |dd| && (dl == Norm(dd[j]) || Contains(Norm(dd[j]), dl) || Contains(dl, Norm(dd[j])));
      assert PairMatches(dl, dd[j], dept);
    }
  }

  /** A `null` domain, or one that trims to nothing, becomes `''`, which occurs in
      every entry: it matches every department with a non-empty list, which is
      every department of the table. */
  lemma BlankDomainMatchesEveryDepartment(d: Option<string>, dd: seq<string>, dept: string)
    requires DomainKey(d) == "" && |dd| > 0
    ensures MatchesDepartment([d], dd, dept)
  {
    ContainsEmpty(Norm(dd[0]));
    assert !IsAiTerm("");
    assert [d][0] == d;
    assert PairMatches("", dd[0], dept);
  }

  // ------------------------------------------------------------ mismatch flag

  /** What the compatibility effect does: set the flag, or throw a `TypeError`
      (which React does not catch: the page fails to render). */
  datatype MismatchOutcome = Flag(mismatch: bool) | TypeError

  /**
   * The compatibility effect of the details page, as written.  A non-empty
   * `departments` field alone decides; otherwise the stored `domains` (raw:
   * `internship.domains || []`) are matched against the student's department.
   */
  function DepartmentMismatch(internship: Option<Internship>, user: Option<StudentRecord>): (r: MismatchOutcome)
    ensures internship.None? || user.None? || user.value.department == "" ==> r == Flag(false)
    ensures (internship.Some? && user.Some? && user.value.department != "" && |internship.value.departments| > 0) ==>
              r == Flag(user.value.department !in internship.value.departments)
    ensures (internship.Some? && |internship.value.departments| == 0
             && internship.value.domains in {Missing, Single(""), List([])}) ==>
              r == Flag(false)
    ensures r == TypeError <==>
              (internship.Some? && user.Some? && user.value.department != ""
               && |internship.value.departments| == 0
               && ((internship.value.domains.Single? && internship.value.domains.text != "")
                   || (internship.value.domains.List? && |internship.value.domains.items| > 0
                       && DepartmentDomains(user.value.department).None?)))
    ensures (internship.Some? && user.Some? && user.value.department != ""
             && |internship.value.departments| == 0 && internship.value.domains.List?
             && |internship.value.domains.items| > 0 && DepartmentDomains(user.value.department).Some?) ==>
              r == Flag(!MatchesDepartment(internship.value.domains.items,
                                           DepartmentDomains(user.value.department).value, user.value.department))
  {
    if internship.None? || user.None? || user.value.department == "" then Flag(false)
    else
      var i := internship.value;
      var dept := user.value.department;
      if |i.departments| > 0 then Flag(dept !in i.departments)
      else match i.domains
        case Missing => Flag(false)
        case Single(s) => if s == "" then Flag(false) else TypeError
        case List(xs) =>
          if |xs| == 0 then Flag(false)
          else match DepartmentDomains(dept)
            case None => TypeError
            case Some(dd) => Flag(!MatchesDepartment(xs, dd, dept))
  }

  /** Two internships that differ only in their domains get the same verdict when
      the `departments` field is set: domains are never consulted then. */
  lemma DepartmentsFieldDecides(i: Internship, other: RawDomains, user: StudentRecord)
    requires |i.departments| > 0
    ensures DepartmentMismatch(Some(i), Some(user)) == DepartmentMismatch(Some(i.(domains := other)), Some(user))
  {
  }

  /** The flag the effect evidently means to compute: a lone string domain is read
      as a one-element list (as the listing page normalises it) and a department
      the table does not know is not compatible (as the recommendations treat it). */
  function DepartmentMismatchFixed(internship: Option<Internship>, user: Option<StudentRecord>): (r: bool)
    ensures DepartmentMismatch(internship, user).Flag? ==> r == DepartmentMismatch(internship, user).mismatch
    ensures (internship.Some? && user.Some? && user.value.department != ""
             && |internship.value.departments| == 0 && internship.value.domains.List?
             && |internship.value.domains.items| > 0
             && DepartmentDomains(user.value.department).None?) ==>
              r
  {
    if internship.None? || user.None? || user.value.department == "" then false
    else
      var i := internship.value;
      var dept := user.value.department;
      if |i.departments| > 0 then dept !in i.departments
      else
        var xs := match i.domains
                  case Missing => []
                  case Single(s) => if s == "" then [] else [Some(s)]
                  case List(items) => items;
        if |xs| == 0 then false
        else match DepartmentDomains(dept)
          case None => true
          case Some(dd) => !MatchesDepartment(xs, dd, dept)
  }

  /** Under the corrected flag a lone string domain counts exactly as the
      one-element list the listing page would store, and an empty one as no
      domains. */
  lemma LoneStringReadAsList(i: Internship, u: StudentRecord)
    requires i.domains.Single?
    ensures var listed := if i.domains.text == "" then List([]) else List([Some(i.domains.text)]);
            DepartmentMismatchFixed(Some(i), Some(u)) == DepartmentMismatchFixed(Some(i.(domains := listed)), Some(u))
            && (DepartmentMismatch(Some(i.(domains := listed)), Some(u)).Flag? ==>
                  DepartmentMismatchFixed(Some(i), Some(u)) == DepartmentMismatch(Some(i.(domains := listed)), Some(u)).mismatch)
  {
  }

  /** The effect as written throws for a department outside the table. */
  lemma UnknownDepartmentThrows()
    ensures var i := Internship("x", None, None, List([Some("Web Development")]), [], Absent, Absent, None,
                                "", FacultyRef("", ""));
            var u := StudentRecord("Biotechnology", None, None, None, "");
            DepartmentMismatch(Some(i), Some(u)) == TypeError && DepartmentMismatchFixed(Some(i), Some(u))
  {
    assert forall t :: 0 <= t < |DEPARTMENT_DOMAINS| ==> |DEPARTMENT_DOMAINS[t].0| != |"Biotechnology"|;
  }

  /** A department named like an inherited property (`constructor`) is not in
      the table, and the effect throws for it as for any other unknown name. */
  lemma InheritedDepartmentThrows(i: Internship, u: StudentRecord)
    requires Inherited(u.department)
    requires |i.departments| == 0 && i.domains.List? && |i.domains.items| > 0
    ensures DepartmentMismatch(Some(i), Some(u)) == TypeError
  {
    InheritedNotInTable(u.department);
  }

  /** The effect as written throws for a `domains` field stored as a lone string. */
  lemma SingleStringDomainThrows()
    ensures var i := Internship("x", None, None, Single("Web Development"), [], Absent, Absent, None,
                                "", FacultyRef("", ""));
            var u := StudentRecord("Information Technology", None, None, None, "");
            DepartmentMismatch(Some(i), Some(u)) == TypeError
  {
  }
}
