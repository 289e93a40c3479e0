/**
 * The details page's "Target Departments" panel: the departments an
 * internship is inferred to target from its domains (InternshipDetails.jsx).
 */
module TargetDepartments {
  import opened Wrappers
  import opened Text
  import opened Seqs
  import opened Records
  import opened DepartmentTable
  import opened DepartmentMatch

  /** `targetDepts.add(d)`: a JavaScript `Set` keeps first-insertion order. */
  function AddOnce(acc: seq<string>, d: string): seq<string> {
    if d in acc then acc else acc + [d]
  }

  /** One `domains.some` callback of the inference: equal, or either contains the other. */
  predicate FuzzyEntry(dl: string, entry: string) {
    var el := Norm(entry);
    dl == el || Contains(el, dl) || Contains(dl, el)
  }

  predicate HasFuzzyEntry(entries: seq<string>, dl: string) {
    exists j :: 0 <= j < |entries| && FuzzyEntry(dl, entries[j])
  }

  /** For each entry of `table`: whether the normalised domain `dl` fuzzily
      matches one of that department's domains (`domains.some(...)`). */
  function Hits(table: seq<(string, seq<string>)>, dl: string): (h: seq<bool>)
    ensures |h| == |table|
    ensures forall t :: 0 <= t < |table| ==> (h[t] <==> HasFuzzyEntry(table[t].1, dl))
  {
    seq(|table|, t requires 0 <= t < |table| => HasFuzzyEntry(table[t].1, dl))
  }

  /** The first `n` entries of `table` visited by `Object.entries(...).forEach`
      for a non-AI domain: every non-AI department with a hit is added. */
  function AddMatching(table: seq<(string, seq<string>)>, acc: seq<string>, hits: seq<bool>, n: nat): seq<string>
    requires n <= |table| == |hits|
  {
    if n == 0 then acc
    else
      var prev := AddMatching(table, acc, hits, n - 1);
      var entry := table[n - 1];
      if entry.0 == AI then prev
      else if hits[n - 1] then AddOnce(prev, entry.0)
      else prev
  }

  /** The `forEach` step for one normalised domain `dl`: the AI-term chain adds
      Artificial Intelligence; any other domain adds the non-AI departments it
      matches. */
  function TargetStep(table: seq<(string, seq<string>)>, acc: seq<string>, dl: string): seq<string> {
    if IsAiTerm(dl) then AddOnce(acc, AI) else AddMatching(table, acc, Hits(table, dl), |table|)
  }

  function TargetFold(table: seq<(string, seq<string>)>, keys: seq<string>): seq<string> {
    if keys == [] then []
    else TargetStep(table, TargetFold(table, keys[..|keys| - 1]), keys[|keys| - 1])
  }

  /** `domain.toLowerCase().trim()` for each domain (`''` for a `null` one, which
      the panel never reaches: it throws first). */
  function Keys(ds: seq<Option<string>>): (r: seq<string>)
    ensures |r| == |ds| && forall k :: 0 <= k < |ds| ==> r[k] == DomainKey(ds[k])
  {
    seq(|ds|, k requires 0 <= k < |ds| => DomainKey(ds[k]))
  }

  /** What the "Target Departments" panel lists for `safeDomains`: the stored
      `departments` when non-empty, else the inferred set; `None` when a `null`
      domain makes `domain.toLowerCase()` throw. */
  function TargetDepartments(departments: seq<string>, domains: seq<Option<string>>): (r: Option<seq<string>>)
    ensures |departments| > 0 ==> r == Some(departments)
    ensures r.None? ==> exists k :: 0 <= k < |domains| && domains[k].None?
  {
    if |departments| > 0 then Some(departments)
    else if exists k :: 0 <= k < |domains| && domains[k].None? then None
    else Some(TargetFold(DEPARTMENT_DOMAINS, Keys(domains)))
  }

  /** One normalised domain `dl` adds department `d`: Artificial Intelligence
      when `dl` mentions an AI term, a non-AI department when `dl` is not an AI
      domain and fuzzily matches one of that department's entries. */
  ghost predicate Adds(table: seq<(string, seq<string>)>, dl: string, d: string) {
    if d == AI then IsAiTerm(dl)
    else !IsAiTerm(dl) && exists t :: 0 <= t < |table| && table[t].0 == d && HasFuzzyEntry(table[t].1, dl)
  }

  /** Department `d` is inferred from the normalised domains `keys` using `table`. */
  ghost predicate Targeted(table: seq<(string, seq<string>)>, keys: seq<string>, d: string) {
    exists k :: 0 <= k < |keys| && Adds(table, keys[k], d)
  }

  lemma AddOnceKeeps(acc: seq<string>, d: string)
    requires NoDuplicates(acc)
    ensures NoDuplicates(AddOnce(acc, d))
    ensures forall x :: x in AddOnce(acc, d) <==> x in acc || x == d
  {
  }

  lemma {:induction false} AddMatchingMembers(table: seq<(string, seq<string>)>, acc: seq<string>, hits: seq<bool>, n: nat)
    requires n <= |table| == |hits| && NoDuplicates(acc)
    ensures NoDuplicates(AddMatching(table, acc, hits, n))
    ensures forall x :: x in AddMatching(table, acc, hits, n) <==>
      x in acc || (x != AI && exists t :: 0 <= t < n && table[t].0 == x && hits[t])
  {
    if n > 0 {
      AddMatchingMembers(table, acc, hits, n - 1);
      AddOnceKeeps(AddMatching(table, acc, hits, n - 1), table[n - 1].0);
    }
  }

  lemma TargetStepMembers(table: seq<(string, seq<string>)>, prev: seq<string>, dl: string)
    requires NoDuplicates(prev)
    ensures NoDuplicates(TargetStep(table, prev, dl))
    ensures forall d :: d in TargetStep(table, prev, dl) <==> d in prev || Adds(table, dl, d)
  {
    var hits := Hits(table, dl);
    if IsAiTerm(dl) {
      AddOnceKeeps(prev, AI);
    } else {
      AddMatchingMembers(table, prev, hits, |table|);
    }
  }

  lemma {:induction false} TargetFoldMembers(table: seq<(string, seq<string>)>, keys: seq<string>)
    ensures NoDuplicates(TargetFold(table, keys))
    ensures forall d :: d in TargetFold(table, keys) <==> Targeted(table, keys, d)
  {
    if keys != [] {
      var init := keys[..|keys| - 1];
      var dl := keys[|keys| - 1];
      TargetFoldMembers(table, init);
      TargetStepMembers(table, TargetFold(table, init), dl);
      forall d ensures Targeted(table, keys, d) <==> Targeted(table, init, d) || Adds(table, dl, d) {
        if Targeted(table, keys, d) {
          var k :| 0 <= k < |keys| && Adds(table, keys[k], d);
          if k < |keys| - 1 {
            assert init[k] == keys[k];
          }
        }
        if Targeted(table, init, d) {
          var k :| 0 <= k < |init| && Adds(table, init[k], d);
          assert keys[k] == init[k];
        }
      }
    }
  }

  /**
   * The panel's rule: a non-empty `departments` field is shown unchanged;
   * otherwise Artificial Intelligence is listed exactly when some domain
   * mentions an AI term, another department exactly when some non-AI domain
   * fuzzily matches one of its entries, each at most once.
   */
  lemma TargetDepartmentsRule(departments: seq<string>, domains: seq<Option<string>>)
    ensures |departments| > 0 ==> TargetDepartments(departments, domains) == Some(departments)
    ensures |departments| == 0 ==>
      (TargetDepartments(departments, domains).None? <==> exists k :: 0 <= k < |domains| && domains[k].None?)
    ensures |departments| == 0 && TargetDepartments(departments, domains).Some? ==>
      var r := TargetDepartments(departments, domains).value;
      NoDuplicates(r) && forall d :: d in r <==> Targeted(DEPARTMENT_DOMAINS, Keys(domains), d)
  {
    TargetFoldMembers(DEPARTMENT_DOMAINS, Keys(domains));
  }

  /** The "Target Departments" panel over the table of the details page. */
  method InferTargetDepartments(departments: seq<string>, domains: seq<Option<string>>)
    returns (r: Option<seq<string>>)
    ensures r == TargetDepartments(departments, domains)
  {
    if |departments| > 0 {
      return Some(departments);
    }
    r := InferFromDomains(DEPARTMENT_DOMAINS, domains);
  }

  /** The loop of the panel: a `forEach` over the domains that adds to a `Set`;
      `None` where `domain.toLowerCase()` throws on a `null` domain. */
  method InferFromDomains(table: seq<(string, seq<string>)>, domains: seq<Option<string>>)
    returns (r: Option<seq<string>>)
    ensures r.None? <==> exists k :: 0 <= k < |domains| && domains[k].None?
    ensures r.Some? ==> r.value == TargetFold(table, Keys(domains))
  {
    var targets: seq<string> := [];
    var i := 0;
    while i < |domains|
      invariant 0 <= i <= |domains|
      invariant None !in domains[..i]
      invariant targets == TargetFold(table, Keys(domains[..i]))
    {
      if domains[i].None? {
        return None;
      }
      var dl := Norm(domains[i].value);
      KeysNext(domains, i);
      FoldSnoc(table, Keys(domains[..i]), dl);
      targets := StepTargets(table, targets, dl);
      i := i + 1;
    }
    assert domains[..i] == domains;
    r := Some(targets);
  }

  /** One iteration of the `forEach`: the AI-term chain or the inner table walk. */
  method StepTargets(table: seq<(string, seq<string>)>, acc: seq<string>, dl: string)
    returns (r: seq<string>)
    ensures r == TargetStep(table, acc, dl)
  {
    if IsAiTerm(dl) {
      r := AddOnce(acc, AI);
    } else {
      r := AddMatchingDepartments(table, acc, dl);
    }
  }

  lemma KeysNext(domains: seq<Option<string>>, i: nat)
    requires i < |domains| && domains[i].Some?
    ensures Keys(domains[..i + 1]) == Keys(domains[..i]) + [Norm(domains[i].value)]
  {
    assert domains[..i + 1] == domains[..i] + [domains[i]];
  }

  lemma FoldSnoc(table: seq<(string, seq<string>)>, keys: seq<string>, dl: string)
    ensures TargetFold(table, keys + [dl]) == TargetStep(table, TargetFold(table, keys), dl)
  {
    assert (keys + [dl])[..|keys|] == keys;
  }

  /** The inner `Object.entries(table).forEach` for a non-AI domain `dl`. */
  method AddMatchingDepartments(table: seq<(string, seq<string>)>, acc: seq<string>, dl: string)
    returns (targets: seq<string>)
    ensures targets == AddMatching(table, acc, Hits(table, dl), |table|)
  {
    targets := acc;
    var j := 0;
    while j < |table|
      invariant 0 <= j <= |table|
      invariant targets == AddMatching(table, acc, Hits(table, dl), j)
    {
      var entry := table[j];
      if entry.0 != AI && HasFuzzyEntry(entry.1, dl) {
        targets := AddOnce(targets, entry.0);
      }
      j := j + 1;
    }
  }

  // ------------------------------------------------------------ the panel

  /** What the panel shows: "Open to all departments", a list of departments,
      or nothing at all because rendering threw. */
  datatype Panel = OpenToAll | Departments(names: seq<string>) | PanelThrows

  /** The panel as written: it is guarded by `safeDomains.length > 0`, so an
      internship without an array of domains is "open to all" whatever its
      `departments` field says. */
  function TargetPanel(i: Internship): (r: Panel)
    ensures r == OpenToAll <==> |SafeDomains(i.domains)| == 0
    ensures r == PanelThrows ==> |i.departments| == 0 && i.domains.List?
    ensures |i.departments| > 0 && i.domains.List? && |i.domains.items| > 0 ==> r == Departments(i.departments)
  {
    var ds := SafeDomains(i.domains);
    if |ds| == 0 then OpenToAll
    else match TargetDepartments(i.departments, ds)
      case None => PanelThrows
      case Some(names) => Departments(names)
  }

  /** The panel as evidently meant: the `departments` field is shown whenever it
      is non-empty, as the compatibility check uses it. */
  function TargetPanelFixed(i: Internship): Panel {
    if |i.departments| > 0 then Departments(i.departments) else TargetPanel(i)
  }

  /** A posting restricted to Civil Engineering but without domains is shown as
      open to all departments, while the page flags a Computer Science student
      as not compatible. */
  lemma PanelIgnoresDepartmentsWithoutDomains()
    ensures var i := Internship("x", None, None, Missing, ["Civil Engineering"], Absent, Absent, None,
                                "", FacultyRef("", ""));
            var u := StudentRecord("Computer Science", None, None, None, "");
            TargetPanel(i) == OpenToAll && DepartmentMismatch(Some(i), Some(u)) == Flag(true)
            && TargetPanelFixed(i) == Departments(["Civil Engineering"])
  {
  }

  /** The corrected panel never contradicts the compatibility flag: whenever the
      `departments` field is set, a department is listed exactly when the flag
      says it is compatible. */
  lemma PanelFixedAgreesWithMismatch(i: Internship, u: StudentRecord)
    requires |i.departments| > 0 && u.department != ""
    ensures TargetPanelFixed(i).Departments?
    ensures u.department in TargetPanelFixed(i).names <==> DepartmentMismatch(Some(i), Some(u)) == Flag(false)
    ensures TargetPanelFixed(i) != TargetPanel(i) ==> TargetPanel(i) == OpenToAll
  {
  }
}
