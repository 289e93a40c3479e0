/**
 * The details page's "More for you" list (InternshipDetails.jsx): up to ten
 * recent internships are narrowed step by step — the one on view, those whose
 * deadline has passed, those outside the student's department — and the
 * first three are kept; the section then hides the ones already applied to.
 */
module Recommendations {
  import opened Wrappers
  import opened Records
  import opened Seqs
  import opened DepartmentTable
  import opened DepartmentMatch

  /** The department filter's verdict on one internship: keep it, drop it, or
      throw (`internshipDomains.some` on a string), which abandons the whole
      effect. */
  datatype Verdict = Keep | Drop | Throw

  /**
   * The department callback for a student of department `dept` (non-empty).
   * A non-empty `departments` field decides alone; without domains, or for a
   * department the table does not hold, the internship is dropped.  A name the
   * table inherits from `Object.prototype` passes the `!departmentDomains` test
   * and then has no `some` to call.
   */
  function RecommendVerdict(i: Internship, dept: string): (v: Verdict)
    ensures |i.departments| > 0 ==> (v == Keep <==> dept in i.departments) && v != Throw
    ensures |i.departments| == 0 && i.domains in {Missing, Single(""), List([])} ==> v == Drop
    ensures |i.departments| == 0 && DepartmentDomains(dept).None? && !Inherited(dept) ==> v == Drop
    ensures v == Throw <==>
              |i.departments| == 0
              && ((i.domains.Single? && i.domains.text != "") || (i.domains.List? && |i.domains.items| > 0))
              && (Inherited(dept) || (i.domains.Single? && DepartmentDomains(dept).Some?))
    ensures |i.departments| == 0 && i.domains.List? && DepartmentDomains(dept).Some? ==>
              (v == Keep <==> MatchesDepartment(i.domains.items, DepartmentDomains(dept).value, dept))
  {
    InheritedNotInTable(dept);
    if |i.departments| > 0 then (if dept in i.departments then Keep else Drop)
    else
      var xs := match i.domains
                case Missing => []
                case Single(s) => if s == "" then [] else [Some(s)]
                case List(items) => items;
      if |xs| == 0 then Drop
      else match DepartmentDomains(dept)
        case None => if Inherited(dept) then Throw else Drop
        case Some(dd) =>
          if i.domains.Single? then Throw
          else if MatchesDepartment(xs, dd, dept) then Keep else Drop
  }

  /** `.filter(internship => internship.id !== id)` */
  function NotCurrent(id: string): Internship -> bool {
    (i: Internship) => i.id != id
  }

  function KeptFor(dept: string): Internship -> bool {
    (i: Internship) => RecommendVerdict(i, dept) == Keep
  }

  /** The student's department, `""` when there is no record. */
  function DepartmentOf(user: Option<StudentRecord>): string {
    if user.Some? then user.value.department else ""
  }

  /** The fetched list after the first two filters. */
  function Pool(fetched: seq<Internship>, currentId: string, now: int): (r: seq<Internship>)
    ensures |r| <= |fetched|
    ensures forall x :: x in r <==> x in fetched && x.id != currentId && !DeadlinePassed(x.firstRoundDate, now)
  {
    var afterId := Filter(NotCurrent(currentId), fetched);
    FilterSpec(NotCurrent(currentId), fetched);
    FilterMembers(NotCurrent(currentId), fetched);
    FilterSpec(Live(now), afterId);
    FilterMembers(Live(now), afterId);
    Filter(Live(now), afterId)
  }

  /** `slice(0, 3)` */
  function FirstThree(s: seq<Internship>): (r: seq<Internship>)
    ensures |r| <= 3 && |r| <= |s| && r == s[..|r|]
    ensures |s| >= 3 ==> |r| == 3
    ensures |s| < 3 ==> r == s
  {
    if |s| <= 3 then s else s[..3]
  }

  /** Every internship of the pool comes from the fetched list in its order,
      is not the one on view and has not passed its deadline. */
  lemma PoolFacts(fetched: seq<Internship>, currentId: string, now: int)
    ensures SubsequenceOf(Pool(fetched, currentId, now), fetched)
    ensures forall x :: x in Pool(fetched, currentId, now) ==> x.id != currentId && !DeadlinePassed(x.firstRoundDate, now)
  {
    var afterId := Filter(NotCurrent(currentId), fetched);
    FilterIsSubsequence(NotCurrent(currentId), fetched);
    FilterMembers(NotCurrent(currentId), fetched);
    FilterIsSubsequence(Live(now), afterId);
    FilterMembers(Live(now), afterId);
    SubsequenceTrans(Pool(fetched, currentId, now), afterId, fetched);
  }

  /** The first three of a sub-selection of `pool` keep its facts. */
  lemma ShortlistFacts(kept: seq<Internship>, pool: seq<Internship>, fetched: seq<Internship>)
    requires SubsequenceOf(kept, pool) && SubsequenceOf(pool, fetched)
    ensures SubsequenceOf(FirstThree(kept), fetched)
    ensures forall x :: x in FirstThree(kept) ==> x in kept
  {
    var shown := FirstThree(kept);
    PrefixIsSubsequence(kept, |shown|);
    SubsequenceTrans(kept, pool, fetched);
    SubsequenceTrans(shown, kept, fetched);
    SubsequenceMembers(shown, kept);
  }

  /**
   * The effect that fills "More for you".  `None`: the department filter
   * threw, so the list keeps whatever it held before (empty on a first visit).
   */
  method MoreForYou(fetched: seq<Internship>, currentId: string, user: Option<StudentRecord>, now: int)
    returns (others: Option<seq<Internship>>)
    ensures others.None? <==>
              DepartmentOf(user) != ""
              && exists k :: 0 <= k < |Pool(fetched, currentId, now)|
                             && RecommendVerdict(Pool(fetched, currentId, now)[k], DepartmentOf(user)) == Throw
    ensures others.Some? ==>
              |others.value| <= 3
              && SubsequenceOf(others.value, fetched)
              && forall x :: x in others.value ==>
                   x.id != currentId && !DeadlinePassed(x.firstRoundDate, now)
                   && (DepartmentOf(user) != "" ==> RecommendVerdict(x, DepartmentOf(user)) == Keep)
    ensures others.Some? && DepartmentOf(user) == "" ==> others.value == FirstThree(Pool(fetched, currentId, now))
    ensures others.Some? && DepartmentOf(user) != "" ==>
              others.value == FirstThree(Filter(KeptFor(DepartmentOf(user)), Pool(fetched, currentId, now)))
  {
    var internships := Filter(NotCurrent(currentId), fetched);
    internships := Filter(Live(now), internships);
    ghost var pool := internships;
    assert pool == Pool(fetched, currentId, now);
    PoolFacts(fetched, currentId, now);

    if user.Some? && user.value.department != "" {
      var dept := user.value.department;
      if exists k :: 0 <= k < |internships| && RecommendVerdict(internships[k], dept) == Throw {
        return None;
      }
      internships := Filter(KeptFor(dept), internships);
      FilterIsSubsequence(KeptFor(dept), pool);
      FilterMembers(KeptFor(dept), pool);
    } else {
      SubsequenceRefl(pool);
    }
    ShortlistFacts(internships, pool, fetched);
    others := Some(FirstThree(internships));
  }

  /** `!appliedInternshipIds.includes(internship.id)` */
  function NotApplied(applied: seq<string>): Internship -> bool {
    (i: Internship) => i.id !in applied
  }

  /** What the section renders: the stored list without the ids applied to. */
  function ShownRecommendations(others: seq<Internship>, applied: seq<string>): (r: seq<Internship>)
    ensures |r| <= |others|
    ensures forall x :: x in r <==> x in others && x.id !in applied
    ensures SubsequenceOf(r, others)
  {
    FilterIsSubsequence(NotApplied(applied), others);
    FilterSpec(NotApplied(applied), others);
    FilterMembers(NotApplied(applied), others);
    Filter(NotApplied(applied), others)
  }

  /**
   * Applied ids are removed after the cut to three: with four suitable
   * internships and the first of them applied to, only the second and third
   * are shown although a fourth was available.
   */
  lemma AppliedRemovedAfterTruncation(fetched: seq<Internship>, currentId: string, now: int, applied: string)
    requires |fetched| == 4
    requires forall k :: 0 <= k < 4 ==> fetched[k].id != currentId && !DeadlinePassed(fetched[k].firstRoundDate, now)
    requires fetched[0].id == applied && fetched[1].id != applied && fetched[2].id != applied
    ensures Pool(fetched, currentId, now) == fetched
    ensures ShownRecommendations(FirstThree(Pool(fetched, currentId, now)), [applied]) == fetched[1..3]
  {
    FilterAll(NotCurrent(currentId), fetched);
    FilterAll(Live(now), fetched);
    var others := fetched[..3];
    assert FirstThree(fetched) == others;
    assert others[1..] == fetched[1..3] && fetched[1..3][1..] == fetched[2..3] && fetched[2..3][1..] == [];
    assert Filter(NotApplied([applied]), fetched[2..3]) == fetched[2..3];
    assert Filter(NotApplied([applied]), fetched[1..3]) == fetched[1..3];
  }

  /**
   * The two no-domains policies: an internship with neither `departments` nor
   * domains is no mismatch on its own page, yet never recommended.
   */
  lemma NoDomainsPolicies(i: Internship, u: StudentRecord)
    requires u.department != "" && |i.departments| == 0 && i.domains in {Missing, Single(""), List([])}
    ensures DepartmentMismatch(Some(i), Some(u)) == Flag(false)
    ensures RecommendVerdict(i, u.department) == Drop
  {
  }

  /**
   * Wherever both pages decide by the same data — a `departments` field, or a
   * non-empty list of domains — "recommended" is the same as "no mismatch"
   * under the corrected mismatch rule; an unknown department is neither.
   */
  lemma RecommendationAgreesWithDetails(i: Internship, u: StudentRecord)
    requires u.department != ""
    requires |i.departments| > 0 || (i.domains.List? && |i.domains.items| > 0)
    ensures RecommendVerdict(i, u.department) == Throw <==> |i.departments| == 0 && Inherited(u.department)
    ensures RecommendVerdict(i, u.department) != Throw ==>
              (RecommendVerdict(i, u.department) == Keep <==> !DepartmentMismatchFixed(Some(i), Some(u)))
  {
  }

  /**
   * A department named like an inherited property (`constructor`, one of
   * `INHERITED_NAMES`) is not in the table, yet the recommendation filter
   * throws for it instead of dropping the internship.
   */
  lemma InheritedNameThrows(i: Internship, dept: string)
    requires Inherited(dept)
    requires |i.departments| == 0 && i.domains.List? && |i.domains.items| > 0
    ensures RecommendVerdict(i, dept) == Throw
  {
    InheritedNotInTable(dept);
  }

  /** Any other name outside the table drops the internship. */
  lemma UnknownNameDropped()
    ensures var i := Internship("x", None, None, List([Some("Web Development")]), [], Absent, Absent, None,
                                "", FacultyRef("", ""));
            RecommendVerdict(i, "Biotechnology") == Drop
  {
    assert forall t :: 0 <= t < |DEPARTMENT_DOMAINS| ==> |DEPARTMENT_DOMAINS[t].0| != |"Biotechnology"|;
    assert forall k :: 0 <= k < |INHERITED_NAMES| ==> INHERITED_NAMES[k][0] != 'B';
  }
}
