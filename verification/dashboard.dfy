/**
 * The faculty dashboard (faculty/Dashboard.jsx): the four-field profile gate,
 * the split of the faculty's internships into batches of ten for the
 * applications query, the grouping of applications by internship, the
 * applicant lists attached to each internship, deletion, and the two "post"
 * buttons guarded by the profile gate.
 */
module Dashboard {
  import opened Wrappers
  import opened Text
  import opened Seqs
  import opened Records
  import opened Profile

  // ------------------------------------------------------------ profile gate

  const GATE_FIELDS: seq<string> := ["firstName", "lastName", "department", "designation"]

  /** `requiredFields.every(field => userData?.[field])`: plain truthiness. */
  predicate ProfileGate(user: Option<UserDoc>)
    ensures ProfileGate(user) ==> user.Some? && forall k :: 0 <= k < |GATE_FIELDS| ==> GATE_FIELDS[k] in user.value
  {
    user.Some? && forall k :: 0 <= k < |GATE_FIELDS| ==> Truthy(Field(user.value, GATE_FIELDS[k]))
  }

  /** A profile the faculty completeness check finds complete passes the gate. */
  lemma CompleteProfilePassesGate(user: Option<UserDoc>)
    ensures FacultyMissing(user) == [] ==> ProfileGate(user)
  {
    if user.Some? && FacultyMissing(user) == [] {
      FacultyMissingRule(user);
      forall k | 0 <= k < |GATE_FIELDS| ensures Truthy(Field(user.value, GATE_FIELDS[k])) {
        var t := if k == 0 then 0 else if k == 1 then 1 else if k == 2 then 2 else 3;
        assert FACULTY_FIELDS[t].0 == GATE_FIELDS[k];
        assert FACULTY_FIELDS[t].1 !in FacultyMissing(user);
      }
    }
  }

  /** The converse fails: the gate does not trim, so a designation of blanks
      passes it while the completeness check reports the designation missing. */
  lemma BlankDesignationPassesGate()
    ensures var doc := map["firstName" := Str("A"), "lastName" := Str("B"), "department" := Str("C"),
                           "designation" := Str(" ")];
            ProfileGate(Some(doc)) && "Designation" in FacultyMissing(Some(doc))
  {
    var doc := map["firstName" := Str("A"), "lastName" := Str("B"), "department" := Str("C"),
                   "designation" := Str(" ")];
    FacultyMissingRule(Some(doc));
    assert FACULTY_FIELDS[3] == ("designation", "Designation");
    assert Field(doc, "designation") == Str(" ");
    assert Trim(" ") == "";
  }

  // ---------------------------------------------------------------- batches

  const BATCH_SIZE := 10

  /** The batches the loop produces: consecutive slices of ten, the last one
      shorter. */
  function Batches<T>(items: seq<T>): (r: seq<seq<T>>)
    ensures r == [] <==> items == []
    ensures forall k :: 0 <= k < |r| ==> 0 < |r[k]| <= BATCH_SIZE
    decreases |items|
  {
    if items == [] then []
    else if |items| <= BATCH_SIZE then [items]
    else [items[..BATCH_SIZE]] + Batches(items[BATCH_SIZE..])
  }

  /** The `for (let i = 0; i < n; i += batchSize)` loop pushing `slice(i, i + batchSize)`. */
  method SplitIntoBatches<T>(items: seq<T>) returns (batches: seq<seq<T>>)
    ensures batches == Batches(items)
  {
    batches := [];
    var i := 0;
    while i < |items|
      invariant 0 <= i && (i <= |items| || i - BATCH_SIZE < |items|)
      invariant batches + Batches(items[Min(i, |items|)..]) == Batches(items)
    {
      var end := Min(i + BATCH_SIZE, |items|);
      assert Batches(items[i..]) == [items[i..end]] + Batches(items[end..]) by {
        if |items[i..]| > BATCH_SIZE {
          assert items[i..][..BATCH_SIZE] == items[i..end];
          assert items[i..][BATCH_SIZE..] == items[end..];
        } else {
          assert items[i..end] == items[i..] && items[end..] == [];
        }
      }
      batches := batches + [items[i..end]];
      i := i + BATCH_SIZE;
    }
    assert items[Min(i, |items|)..] == [];
  }

  function Min(a: int, b: int): int {
    if a <= b then a else b
  }

  /**
   * Concatenating the batches gives the list back; every batch holds one to
   * ten items, all but the last exactly ten, and there are ⌈n/10⌉ of them.
   */
  lemma {:induction false} BatchesRule<T>(items: seq<T>)
    ensures Flatten(Batches(items)) == items
    ensures |Batches(items)| == (|items| + BATCH_SIZE - 1) / BATCH_SIZE
    ensures forall k :: 0 <= k < |Batches(items)| ==> 0 < |Batches(items)[k]| <= BATCH_SIZE
    ensures forall k :: 0 <= k < |Batches(items)| - 1 ==> |Batches(items)[k]| == BATCH_SIZE
    decreases |items|
  {
    if |items| > BATCH_SIZE {
      var rest := Batches(items[BATCH_SIZE..]);
      BatchesRule(items[BATCH_SIZE..]);
      FlattenPrepend(items[..BATCH_SIZE], rest);
      assert items[..BATCH_SIZE] + items[BATCH_SIZE..] == items;
      forall k | 0 <= k < |Batches(items)| ensures 0 < |Batches(items)[k]| <= BATCH_SIZE {
        if k > 0 { assert Batches(items)[k] == rest[k - 1]; }
      }
      forall k | 0 <= k < |Batches(items)| - 1 ensures |Batches(items)[k]| == BATCH_SIZE {
        if k > 0 { assert Batches(items)[k] == rest[k - 1]; }
      }
    } else if items != [] {
      assert Flatten([items]) == Flatten([]) + items;
    }
  }

  lemma {:induction false} FlattenPrepend<T>(s: seq<T>, ss: seq<seq<T>>)
    ensures Flatten([s] + ss) == s + Flatten(ss)
    decreases |ss|
  {
    if ss == [] {
      assert Flatten([s]) == Flatten([]) + s;
    } else {
      var init := ss[..|ss| - 1];
      FlattenPrepend(s, init);
      assert ([s] + ss)[..|ss|] == [s] + init;
      assert ([s] + ss)[|ss|] == ss[|ss| - 1];
    }
  }

  // ------------------------------------------------------------ applications

  /** An application document: its own id and the internship it is for. */
  datatype Application = Application(id: string, internshipId: string, studentId: string)

  function BatchIds(batch: seq<Internship>): (r: seq<string>)
    ensures |r| == |batch| && forall k :: 0 <= k < |batch| ==> r[k] == batch[k].id
  {
    seq(|batch|, k requires 0 <= k < |batch| => batch[k].id)
  }

  /** What the queries return, one result per batch; `query` stands for the
      Firestore query `where('internshipId', 'in', batchIds)`. */
  function BatchResults(batches: seq<seq<Internship>>, query: seq<string> -> seq<Application>): (r: seq<seq<Application>>)
    ensures |r| == |batches| && forall k :: 0 <= k < |batches| ==> r[k] == query(BatchIds(batches[k]))
  {
    seq(|batches|, k requires 0 <= k < |batches| => query(BatchIds(batches[k])))
  }

  /** The `for (const batch of batches)` loop growing `applicationsData`. */
  method CollectApplications(batches: seq<seq<Internship>>, query: seq<string> -> seq<Application>)
    returns (applications: seq<Application>)
    ensures applications == Flatten(BatchResults(batches, query))
  {
    applications := [];
    var j := 0;
    while j < |batches|
      invariant 0 <= j <= |batches|
      invariant applications == Flatten(BatchResults(batches[..j], query))
    {
      var batchData := query(BatchIds(batches[j]));
      assert BatchResults(batches[..j + 1], query) == BatchResults(batches[..j], query) + [batchData];
      FlattenAppendOne(BatchResults(batches[..j], query), batchData);
      applications := applications + batchData;
      j := j + 1;
    }
    assert batches[..j] == batches;
  }

  // ---------------------------------------------------------------- grouping

  /** `acc[id] || []` for a grouping `acc`. */
  function Get(g: map<string, seq<Application>>, id: string): seq<Application> {
    if id in g then g[id] else []
  }

  /** The `reduce` that groups the applications by `internshipId`. */
  function Group(apps: seq<Application>): (r: map<string, seq<Application>>)
    ensures forall id :: id in r ==> |r[id]| > 0
  {
    if apps == [] then map[]
    else
      var g := Group(apps[..|apps| - 1]);
      var a := apps[|apps| - 1];
      g[a.internshipId := Get(g, a.internshipId) + [a]]
  }

  function For(id: string): Application -> bool {
    (a: Application) => a.internshipId == id
  }

  /** The reduce callback, step by step: create the group if absent, then push. */
  method GroupByInternship(apps: seq<Application>) returns (acc: map<string, seq<Application>>)
    ensures acc == Group(apps)
  {
    acc := map[];
    var i := 0;
    while i < |apps|
      invariant 0 <= i <= |apps|
      invariant acc == Group(apps[..i])
    {
      var application := apps[i];
      assert apps[..i + 1][..i] == apps[..i];
      if application.internshipId !in acc {
        acc := acc[application.internshipId := []];
      }
      acc := acc[application.internshipId := acc[application.internshipId] + [application]];
      i := i + 1;
    }
    assert apps[..i] == apps;
  }

  /** Each application lands in exactly the group of its internship, and groups
      keep the applications' order. */
  lemma {:induction false} GroupContents(apps: seq<Application>)
    ensures forall id :: Get(Group(apps), id) == Filter(For(id), apps)
  {
    if apps != [] {
      var init := apps[..|apps| - 1];
      var a := apps[|apps| - 1];
      GroupContents(init);
      assert init + [a] == apps;
      forall id ensures Get(Group(apps), id) == Filter(For(id), apps) {
        FilterAppend(For(id), init, [a]);
      }
    }
  }

  /** A group exists exactly for an internship that has applications. */
  lemma {:induction false} GroupKey(apps: seq<Application>, id: string)
    ensures id in Group(apps) <==> exists k :: 0 <= k < |apps| && apps[k].internshipId == id
  {
    if apps != [] {
      var init := apps[..|apps| - 1];
      var a := apps[|apps| - 1];
      GroupKey(init, id);
      assert id in Group(apps) <==> id in Group(init) || id == a.internshipId;
      if exists k :: 0 <= k < |init| && init[k].internshipId == id {
        var k :| 0 <= k < |init| && init[k].internshipId == id;
        assert apps[k] == init[k];
      }
      if exists k :: 0 <= k < |apps| && apps[k].internshipId == id {
        var k :| 0 <= k < |apps| && apps[k].internshipId == id;
        if k < |init| { assert init[k] == apps[k]; }
      }
    }
  }

  /** The grouping as a whole: each group holds its internship's applications in
      order, and a group exists only for an internship that has applications. */
  lemma GroupRule(apps: seq<Application>)
    ensures forall id :: Get(Group(apps), id) == Filter(For(id), apps)
    ensures forall id :: id in Group(apps) <==> exists k :: 0 <= k < |apps| && apps[k].internshipId == id
  {
    GroupContents(apps);
    forall id ensures id in Group(apps) <==> exists k :: 0 <= k < |apps| && apps[k].internshipId == id {
      GroupKey(apps, id);
    }
  }

  /** The internship ids in order of their first application. */
  function GroupKeys(apps: seq<Application>): seq<string> {
    if apps == [] then []
    else
      var ks := GroupKeys(apps[..|apps| - 1]);
      var id := apps[|apps| - 1].internshipId;
      if id in ks then ks else ks + [id]
  }

  /** The sizes of the groups named by `keys`, added up. */
  function SumSizes(g: map<string, seq<Application>>, keys: seq<string>): nat {
    if keys == [] then 0 else SumSizes(g, keys[..|keys| - 1]) + |Get(g, keys[|keys| - 1])|
  }

  lemma {:induction false} SumSizesUpdate(g: map<string, seq<Application>>, keys: seq<string>, x: string, v: seq<Application>)
    requires NoDuplicates(keys)
    ensures x in keys ==> SumSizes(g[x := v], keys) + |Get(g, x)| == SumSizes(g, keys) + |v|
    ensures x !in keys ==> SumSizes(g[x := v], keys) == SumSizes(g, keys)
  {
    if keys != [] {
      var init := keys[..|keys| - 1];
      var last := keys[|keys| - 1];
      assert keys == init + [last];
      SumSizesUpdate(g, init, x, v);
      if x == last {
        assert x !in init;
      }
    }
  }

  /** Every application is counted once: the group sizes add up to the number
      of applications, over the distinct ids that have a group. */
  lemma {:induction false} GroupSizes(apps: seq<Application>)
    ensures NoDuplicates(GroupKeys(apps))
    ensures forall id :: id in GroupKeys(apps) <==> id in Group(apps)
    ensures SumSizes(Group(apps), GroupKeys(apps)) == |apps|
  {
    if apps != [] {
      var init := apps[..|apps| - 1];
      var a := apps[|apps| - 1];
      var g := Group(init);
      var ks := GroupKeys(init);
      GroupSizes(init);
      SumSizesUpdate(g, ks, a.internshipId, Get(g, a.internshipId) + [a]);
      if a.internshipId !in ks {
        var ks' := ks + [a.internshipId];
        assert ks'[..|ks|] == ks;
      }
    }
  }

  // ---------------------------------------------------------------- listings

  /** An internship of the dashboard; `applicants` is absent (`undefined`) on a
      list that was refetched after posting. */
  datatype Listed = Listed(internship: Internship, applicants: Option<seq<Application>>)

  /** `internship.applicants?.length || 0` */
  function ApplicantCount(l: Listed): (r: nat)
    ensures r == 0 <==> l.applicants.None? || l.applicants.value == []
  {
    if l.applicants.Some? then |l.applicants.value| else 0
  }

  /** `internshipsWithCounts`: each internship with its group, or `[]`. */
  function AttachApplicants(internships: seq<Internship>, g: map<string, seq<Application>>): (r: seq<Listed>)
    ensures |r| == |internships|
    ensures forall k :: 0 <= k < |r| ==> r[k].internship == internships[k] && r[k].applicants.Some?
  {
    seq(|internships|, k requires 0 <= k < |internships| => Listed(internships[k], Some(Get(g, internships[k].id))))
  }

  /** Same length and order as the internships, nothing changed but the added
      applicant list, which holds exactly that internship's applications. */
  lemma AttachRule(internships: seq<Internship>, apps: seq<Application>)
    ensures var r := AttachApplicants(internships, Group(apps));
            |r| == |internships|
            && forall k :: 0 <= k < |r| ==>
                 r[k].internship == internships[k]
                 && r[k].applicants == Some(Filter(For(internships[k].id), apps))
                 && ApplicantCount(r[k]) == Count(For(internships[k].id), apps)
  {
    GroupRule(apps);
  }

  /** `prev.filter(internship => internship.id !== internshipId)` */
  function RemoveInternship(list: seq<Listed>, id: string): (r: seq<Listed>)
    ensures |r| <= |list|
    ensures forall k :: 0 <= k < |r| ==> r[k].internship.id != id && r[k] in list
  {
    FilterSpec((l: Listed) => l.internship.id != id, list);
    Filter((l: Listed) => l.internship.id != id, list)
  }

  /** Deleting removes exactly the entries with that id and keeps the rest in
      order. */
  lemma RemoveRule(list: seq<Listed>, id: string)
    ensures SubsequenceOf(RemoveInternship(list, id), list)
    ensures forall l :: l in RemoveInternship(list, id) <==> l in list && l.internship.id != id
  {
    FilterIsSubsequence((l: Listed) => l.internship.id != id, list);
    FilterMembers((l: Listed) => l.internship.id != id, list);
  }

  // ------------------------------------------------------------ page state

  const PROFILE_ERROR := "Please complete your profile before posting an internship"
  const LOAD_ERROR := "Failed to load dashboard data"
  const DELETE_ERROR := "Failed to delete internship"

  /** The dashboard's state; Firestore calls are replaced by their results. */
  class DashboardPage {
    var internships: seq<Listed>
    var applications: seq<Application>
    var error: string
    var loading: bool
    var showForm: bool
    var profileComplete: bool

    constructor ()
      ensures internships == [] && applications == [] && error == "" && loading
      ensures !showForm && !profileComplete
    {
      internships := [];
      applications := [];
      error := "";
      loading := true;
      showForm := false;
      profileComplete := false;
    }

    /** While `error` is set the page shows only the error. */
    predicate ShowsOnlyError()
      reads this
    {
      !loading && error != ""
    }

    /**
     * `fetchDashboardData`: the gate from the user record, then the internships
     * in batches, the applications of every batch, the grouping and the
     * attachment; `fails` is a query failing after the gate was set.
     */
    method Load(user: Option<UserDoc>, fetched: seq<Internship>, query: seq<string> -> seq<Application>, fails: bool)
      modifies this
      ensures profileComplete == ProfileGate(user) && !loading && showForm == old(showForm)
      ensures fails ==> error == LOAD_ERROR && internships == old(internships) && applications == old(applications)
      ensures ShowsOnlyError() <==> fails
      ensures !fails ==>
                error == ""
                && applications == Flatten(BatchResults(Batches(fetched), query))
                && internships == AttachApplicants(fetched, Group(applications))
    {
      loading := true;
      error := "";
      profileComplete := ProfileGate(user);
      if fails {
        error := LOAD_ERROR;
        loading := false;
        return;
      }
      var batches := SplitIntoBatches(fetched);
      var applicationsData := CollectApplications(batches, query);
      var byInternship := GroupByInternship(applicationsData);
      internships := AttachApplicants(fetched, byInternship);
      applications := applicationsData;
      loading := false;
    }

    /** `handleDeleteInternship` after the confirmation: on success the entries
        with that id go, on failure the error is set. */
    method DeleteInternship(id: string, confirmed: bool, fails: bool)
      modifies this
      ensures !confirmed ==> internships == old(internships) && error == old(error)
      ensures confirmed && !fails ==> internships == RemoveInternship(old(internships), id) && error == old(error)
      ensures confirmed && fails ==> internships == old(internships) && error == DELETE_ERROR
      ensures applications == old(applications) && showForm == old(showForm)
      ensures profileComplete == old(profileComplete) && loading == old(loading)
      ensures confirmed && fails && !loading ==> ShowsOnlyError()
    {
      if confirmed {
        if fails {
          error := DELETE_ERROR;
        } else {
          internships := RemoveInternship(internships, id);
        }
      }
    }

    /** The "Post New Internship" / "Cancel" button. */
    method TogglePostForm()
      modifies this
      ensures !old(profileComplete) ==> error == PROFILE_ERROR && showForm == old(showForm)
      ensures old(profileComplete) ==> showForm == !old(showForm) && error == old(error)
      ensures !old(profileComplete) && !loading ==> ShowsOnlyError()
      ensures internships == old(internships) && applications == old(applications)
      ensures profileComplete == old(profileComplete) && loading == old(loading)
    {
      if !profileComplete {
        error := PROFILE_ERROR;
        return;
      }
      showForm := !showForm;
    }

    /** The "Post Your First Internship" button of an empty list. */
    method PostFirstInternship()
      modifies this
      ensures !old(profileComplete) ==> error == PROFILE_ERROR && showForm == old(showForm)
      ensures old(profileComplete) ==> showForm && error == old(error)
      ensures !old(profileComplete) && !loading ==> ShowsOnlyError()
      ensures internships == old(internships) && applications == old(applications)
      ensures profileComplete == old(profileComplete) && loading == old(loading)
    {
      if !profileComplete {
        error := PROFILE_ERROR;
        return;
      }
      showForm := true;
    }

    /** `handleInternshipSuccess`: the list is refetched without applicants and
        the form closes. */
    method InternshipPosted(refetched: seq<Internship>)
      modifies this
      ensures internships == Unattached(refetched) && !showForm
      ensures error == old(error) && applications == old(applications)
      ensures profileComplete == old(profileComplete) && loading == old(loading)
    {
      internships := Unattached(refetched);
      showForm := false;
    }

    /** The same, re-attaching the applications already loaded. */
    method InternshipPostedFixed(refetched: seq<Internship>)
      modifies this
      ensures internships == AttachApplicants(refetched, Group(applications)) && !showForm
      ensures error == old(error) && applications == old(applications)
      ensures profileComplete == old(profileComplete) && loading == old(loading)
    {
      var byInternship := GroupByInternship(applications);
      internships := AttachApplicants(refetched, byInternship);
      showForm := false;
    }
  }

  /** The refetched documents, which carry no `applicants` field. */
  function Unattached(internships: seq<Internship>): (r: seq<Listed>)
    ensures |r| == |internships|
    ensures forall k :: 0 <= k < |r| ==> r[k] == Listed(internships[k], None)
  {
    seq(|internships|, k requires 0 <= k < |internships| => Listed(internships[k], None))
  }

  /**
   * After a successful post every card shows zero applicants, whatever the
   * loaded applications hold; re-attaching keeps the loaded counts.
   */
  lemma PostingResetsApplicantCounts(refetched: seq<Internship>, apps: seq<Application>)
    ensures forall k :: 0 <= k < |refetched| ==> ApplicantCount(Unattached(refetched)[k]) == 0
    ensures forall k :: 0 <= k < |refetched| ==>
              ApplicantCount(AttachApplicants(refetched, Group(apps))[k]) == Count(For(refetched[k].id), apps)
    ensures var i := Internship("a", None, None, Missing, [], Absent, Absent, None, "", FacultyRef("", ""));
            var app := Application("p", "a", "s");
            ApplicantCount(Unattached([i])[0]) == 0 && ApplicantCount(AttachApplicants([i], Group([app]))[0]) == 1
  {
    AttachRule(refetched, apps);
    var i := Internship("a", None, None, Missing, [], Absent, Absent, None, "", FacultyRef("", ""));
    var app := Application("p", "a", "s");
    AttachRule([i], [app]);
    assert [app][1..] == [];
    assert Filter(For("a"), [app]) == [app];
  }
}
