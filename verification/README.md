# InternshipBooth: department matching, visibility and profile completeness

InternshipBooth is a React/Firestore portal where faculty members post
internships and students browse and apply for them. This project models, in
Dafny, the rules the portal applies to that data, once it has been fetched:

- **Department-to-domain matching** (`department_table.dfy`,
  `department_match.dfy`).
  - The details page keeps a table from each department to its domains.
  - It decides whether an internship is compatible with a student's department.
    A non-empty `departments` field decides alone.
  - Otherwise the internship's `domains` are compared, lower-cased and
    trimmed, with the department's domains. The comparison uses an exact test,
    AI-only terms (`machine learning`, `ml`, `nlp`, …) and two-way substring
    matching.
  - The model keeps the effect's failure modes as an outcome of their own: a
    string-valued `domains`, and a department the table does not know.
  - A department named like a property every plain object inherits
    (`constructor`, `toString`, `__proto__`, …) is not in the table, yet
    `DEPARTMENT_DOMAINS[name]` is truthy for it. The recommendation filter's
    `!departmentDomains` guard lets it through and `.some` then throws; the
    model lists these names and treats them so.
- **The "Target Departments" panel** (`target_departments.dfy`). It lists the
  `departments` field, or the departments inferred from the domains. The
  inference is a `forEach` loop that adds to a `Set` and keeps insertion
  order. It is modelled as methods with loop invariants, proved against a fold.
- **Eligibility and the apply guards** (`eligibility.dfy`).
  - `isEligible` tests the year gate, then the percentage rule (CGPA × 9.5)
    or the CGPA rule, with `NaN` for a figure that does not parse.
  - `handleApply` tests its guards in a fixed order.
- **"More for you"** (`recommendations.dfy`). The recent internships are
  filtered step by step:
  1. the one on view is removed;
  2. expired ones are removed;
  3. those outside the student's department are removed.

  The first three are kept. The section then hides the ones already applied to.
- **The listing page** (`listing.dfy`).
  - Domains are normalised to an array.
  - The list is filtered by applied ids, deadline, search text and department.
  - Each card gets its `canApply` and `hasMatchingDomains` annotations.
  - The list is split into active and expired counts for the heading.
- **The listing card** (`card.dfy`). It renders the initials, the domain tags,
  the expired flag, the "Department mismatch" badge and the button style.
- **Profile completeness** (`profile.dfy`).
  - The student and faculty checks walk their field tables with JavaScript
    truthiness plus `trim()`. The walk is modelled as a loop.
  - The student check adds a 10-digit phone rule.
  - The notification text is built from the missing fields.
- **The faculty dashboard** (`dashboard.dfy`), as a class whose fields are
  the page's state.
  - The profile gate.
  - Splitting the internships into batches of ten (the limit of Firestore's
    `in` query).
  - Concatenating the per-batch results and grouping applications by
    internship, through a `reduce` into an object.
  - Attaching the applicant lists.
  - Deleting an internship, toggling the post form, and reloading after a post.

`wrappers.dfy`, `text.dfy`, `seqs.dfy` and `records.dfy` hold the support
definitions:

- `Option`;
- ASCII case mapping, `trim`, `includes`, `split`/`join` and decimal numbers;
- `filter`, subsequences and flattening;
- the document shapes.

A stored `domains` field is `Missing`, a lone string, or a list whose entries
may be `null`.

### Where the model follows the code rather than the documented behaviour

- **A deadline equal to the current instant has not passed.**
  - The listing hides an internship only when its deadline is strictly before
    now (`Home.jsx:221`).
  - The active count and the recommendations keep `deadline >= now`.
  - So `DeadlineBoundary` and `ExpiryRule` state that `At(now)` is live.
- **An empty or `null` domain matches every department.**
  - Its key is `''`, and every string `includes('')` (InternshipDetails.jsx:294, 334).
  - `BlankDomainMatchesEveryDepartment` proves this. `MatchingDomainsRule`
    proves the same for interests on the listing page.
- **The listing's `canApply` consults only the `departments` field.** It
  ignores eligibility, expiry and the domains (`Home.jsx:390-400`).
  `CanApplyRule` states the independence.
- **A missing deadline on a card is replaced by the render time**
  (`InternshipCard.jsx:21`). The card then compares that value with a second
  reading of the clock, so a card without a deadline can show as expired.
  `IsExpired` takes both instants as parameters.
- **A CGPA that does not parse passes the CGPA rule** (`NaN < min` is false).
- **The listing page's department table (`Home.jsx:165-208`) is never read.**
  Only the details page's table is modelled.

Other behaviours the lemmas pin down:

- Applied ids are removed after the cut to three, so fewer than three
  recommendations can show while more were suitable
  (`AppliedRemovedAfterTruncation`).
- An internship with neither departments nor domains counts as compatible on
  its own page, yet it is never recommended (`NoDomainsPolicies`).
- A name made only of blanks gives empty initials (`BlankNameInitials`).
- The dashboard's profile gate does not trim, so a blank designation passes it
  (`BlankDesignationPassesGate`).
- An error replaces the whole dashboard (`Dashboard.jsx:155`,
  `ShowsOnlyError`). A failed load, a failed delete, or either post button
  pressed with an incomplete profile puts the loaded page in that state, so the
  in-page error banner of lines 185-189 is never reached
  (`Load`, `DeleteInternship`, `TogglePostForm`, `PostFirstInternship`).

## Model

Paths are relative to the repository root.

| member | source | states |
|---|---|---|
| DepartmentTable.Lookup | src/pages/internships/InternshipDetails.jsx:135-136 | `DEPARTMENT_DOMAINS[dept]`: when found, the table holds that exact row; when not found, no row has that name |
| DepartmentTable.KnownDepartmentHasDomains | src/pages/internships/InternshipDetails.jsx:227-269 | every department in the table has at least one domain |
| DepartmentTable.InheritedNotInTable | src/pages/internships/InternshipDetails.jsx:227-269 | no name a plain object inherits (`constructor`, `toString`, …) is a department of the table |
| DepartmentMatch.PairMatches | src/pages/internships/InternshipDetails.jsx:138-180 | for one domain/department-domain pair: an AI term matches exactly its own text or, for the AI department, anything; a non-AI term matches by equality or by substring in either direction |
| DepartmentMatch.MatchesDepartment | src/pages/internships/InternshipDetails.jsx:293-334 | a match needs at least one domain and one department entry; a domain equal to an entry after lower-casing and trimming always matches |
| DepartmentMatch.AiDomainMatch | src/pages/internships/InternshipDetails.jsx:299-331 | an AI-only domain matches a department exactly when the department is Artificial Intelligence or the domain equals one of its entries |
| DepartmentMatch.NonAiDomainMatch | src/pages/internships/InternshipDetails.jsx:294-334 | a domain without AI terms matches exactly when some department domain contains it or is contained in it |
| DepartmentMatch.BlankDomainMatchesEveryDepartment | src/pages/internships/InternshipDetails.jsx:294-334 | a `null`, empty or all-blank domain matches every department |
| DepartmentMatch.DepartmentMismatch | src/pages/internships/InternshipDetails.jsx:272-342 | no flag without an internship, a record or a department; the `departments` field decides alone; no domains means no mismatch; the effect throws exactly for a non-empty string `domains` or an unknown department with domains; for a non-empty domain list and a known department the flag is set exactly when no domain matches the department |
| DepartmentMatch.DepartmentsFieldDecides | src/pages/internships/InternshipDetails.jsx:277-281 | with a `departments` field set, the domains cannot change the verdict |
| DepartmentMatch.DepartmentMismatchFixed | src/pages/internships/InternshipDetails.jsx:284-295 | agrees with the effect wherever the effect yields a flag; an unknown department with domains is a mismatch |
| DepartmentMatch.LoneStringReadAsList | src/pages/internships/InternshipDetails.jsx:284-293 | under the corrected flag a string-valued `domains` is judged as the one-element list the listing page stores (an empty string as no domains) |
| DepartmentMatch.UnknownDepartmentThrows | src/pages/internships/InternshipDetails.jsx:292-295 | a student of a department missing from the table, viewing an internship with domains, makes the effect throw |
| DepartmentMatch.InheritedDepartmentThrows | src/pages/internships/InternshipDetails.jsx:292-295 | a department named like an inherited property, with domains and no `departments`, makes the effect throw |
| DepartmentMatch.SingleStringDomainThrows | src/pages/internships/InternshipDetails.jsx:284-293 | a string-valued `domains` makes the effect throw |
| TargetDepartments.AddOnceKeeps | src/pages/internships/InternshipDetails.jsx:693 | `Set.add` keeps the entries distinct and adds exactly the new name |
| TargetDepartments.AddMatchingMembers | src/pages/internships/InternshipDetails.jsx:682-695 | the scan over the table adds exactly the non-AI departments that have a hit, without duplicates |
| TargetDepartments.TargetStepMembers | src/pages/internships/InternshipDetails.jsx:659-696 | one domain adds the AI department for an AI term, else every non-AI department it matches, and nothing else |
| TargetDepartments.TargetFoldMembers | src/pages/internships/InternshipDetails.jsx:656-697 | the set built over all domains is duplicate-free and holds exactly the departments some domain targets |
| TargetDepartments.TargetDepartments | src/pages/internships/InternshipDetails.jsx:645-697 | a non-empty `departments` field is listed as it is; the inference fails only when some domain is `null` |
| TargetDepartments.TargetDepartmentsRule | src/pages/internships/InternshipDetails.jsx:645-697 | a `departments` field is listed as is; otherwise a `null` domain throws, and the result is exactly the targeted departments, each once |
| TargetDepartments.InferTargetDepartments | src/pages/internships/InternshipDetails.jsx:645-697 | the panel's loop computes the specified target list |
| TargetDepartments.InferFromDomains | src/pages/internships/InternshipDetails.jsx:656-697 | the `forEach` throws exactly when some domain is `null`; otherwise it yields the fold over the domain keys |
| TargetDepartments.StepTargets | src/pages/internships/InternshipDetails.jsx:659-696 | one iteration of the `forEach` equals one step of the fold |
| TargetDepartments.AddMatchingDepartments | src/pages/internships/InternshipDetails.jsx:682-695 | the inner `Object.entries(...).forEach` computes the specified additions |
| TargetDepartments.TargetPanel | src/pages/internships/InternshipDetails.jsx:639-653 | "Open to all departments" exactly when there is no array of domains; with `departments` set and domains present it lists `departments`; it throws only without `departments`, on a domain array |
| TargetDepartments.PanelIgnoresDepartmentsWithoutDomains | src/pages/internships/InternshipDetails.jsx:639-653 | an internship with a `departments` field but no array of domains shows "Open to all departments", while the same page flags a student of another department as a mismatch |
| TargetDepartments.PanelFixedAgreesWithMismatch | src/pages/internships/InternshipDetails.jsx:645-653 | with `departments` set, the corrected panel lists them, the student's department is listed exactly when there is no mismatch, and it differs from the page's panel only where that one says "Open to all" |
| Eligibility.IsEligible | src/pages/internships/InternshipDetails.jsx:344-375 | viewing is not blocked without an internship, a record or a student; the year gate rejects first; the percentage rule needs all three figures at the minimum (CGPA × 9.5); the CGPA rule rejects only a parsed CGPA below a numeric minimum |
| Eligibility.EligibilityMonotoneInCgpa | src/pages/internships/InternshipDetails.jsx:361-374 | raising the CGPA never makes a student ineligible |
| Eligibility.UnparsedCgpaPassesCgpaRule | src/pages/internships/InternshipDetails.jsx:373 | a CGPA that does not parse passes the CGPA rule |
| Eligibility.PercentageRuleScalesCgpa | src/pages/internships/InternshipDetails.jsx:365-368 | a CGPA of 8 (76 per cent) fails an 80 per cent minimum, and 8.5 passes it |
| Eligibility.ApplyDecision | src/pages/internships/InternshipDetails.jsx:377-442 | each outcome holds exactly when every guard before it passed and its own test fails: ignored while submitting, then login, students only, eligibility, department, loaded internship, required fields; the application is written exactly when all pass |
| Eligibility.ApplyOnLoadedInternship | src/pages/internships/InternshipDetails.jsx:386-402 | a year-blocked student hears about eligibility, not the department; a non-student is turned away first; a submission implies a student who passes the year gate and is compatible |
| Recommendations.RecommendVerdict | src/pages/internships/InternshipDetails.jsx:119-182 | the `departments` field decides alone; no domains, or an unknown department that is not an inherited name, drops the internship; it throws exactly when domains are present and either the department is an inherited name or `domains` is a string and the department is known; for a domain list and a known department it keeps exactly the internships that match |
| Recommendations.FirstThree | src/pages/internships/InternshipDetails.jsx:186 | `slice(0, 3)` is a prefix of at most three elements: exactly three when available, the whole list when shorter |
| Recommendations.Pool | src/pages/internships/InternshipDetails.jsx:101-116 | the first two filters keep no more than was fetched, and exactly the fetched internships that are not on view and whose deadline has not passed |
| Recommendations.PoolFacts | src/pages/internships/InternshipDetails.jsx:101-116 | the first two filters keep a subsequence of the fetched list, without the current internship or any passed deadline |
| Recommendations.ShortlistFacts | src/pages/internships/InternshipDetails.jsx:185-186 | the first three of a sub-selection remain a subsequence of the fetched list |
| Recommendations.MoreForYou | src/pages/internships/InternshipDetails.jsx:101-186 | the effect leaves the list untouched exactly when the department filter throws; otherwise it stores at most three internships, in fetched order, none current, none expired, each kept by the department filter |
| Recommendations.ShownRecommendations | src/pages/internships/InternshipDetails.jsx:482-484 | the section shows exactly the stored internships whose ids were not applied to, in their stored order |
| Recommendations.AppliedRemovedAfterTruncation | src/pages/internships/InternshipDetails.jsx:482-484 | with four suitable internships and the first applied to, only the second and third are shown |
| Recommendations.NoDomainsPolicies | src/pages/internships/InternshipDetails.jsx:128-133 | without departments and domains, an internship is no mismatch on its page but is never recommended |
| Recommendations.RecommendationAgreesWithDetails | src/pages/internships/InternshipDetails.jsx:119-136 | where both decide from the same data, the filter throws only for an inherited name, and otherwise "recommended" is exactly "no mismatch" under the corrected flag |
| Recommendations.InheritedNameThrows | src/pages/internships/InternshipDetails.jsx:135-138 | with domains and no `departments`, a department named like an inherited property passes the guard and the filter throws |
| Recommendations.UnknownNameDropped | src/pages/internships/InternshipDetails.jsx:135-136 | a department outside the table such as "Biotechnology" drops the internship |
| Listing.NormalizeRule | src/pages/Home.jsx:99-103 | after loading, `domains` is always an array: unchanged if it was one, `[s]` for a string, `[]` when falsy; nothing else changes; normalising twice equals once |
| Listing.Normalize | src/pages/Home.jsx:99-103 | the stored `domains` is an array, no other field changes, and an array is kept as it is |
| Listing.FilteredListing | src/pages/Home.jsx:211-252 | the filtered list is a subsequence of the loaded one holding exactly the internships the filter retains |
| Listing.MatchesSearch | src/pages/Home.jsx:227-232 | an empty term matches everything; a non-empty term matches only a record with a title, a company name or a non-`null` domain |
| Listing.Retained | src/pages/Home.jsx:211-252 | the early returns amount to a conjunction: show-all or not applied, expired shown or deadline not passed, the search matches, and outside show-all the department test passes |
| Listing.AppliedHiddenOutsideShowAll | src/pages/Home.jsx:213-215 | an applied internship is retained only in show-all mode, and then as if not applied |
| Listing.DeadlineBoundary | src/pages/Home.jsx:218-224 | a deadline of exactly now, or a blank deadline, is treated as no deadline; one instant earlier is hidden unless expired ones are shown |
| Listing.SearchIgnoresCase | src/pages/Home.jsx:227-232 | upper- or lower-casing the search term does not change the match |
| Listing.SearchWithoutText | src/pages/Home.jsx:227-232 | an empty term matches everything; a record with no title, company or domains matches no non-empty term |
| Listing.ShowAllIgnoresDepartment | src/pages/Home.jsx:235-237 | in show-all mode only the deadline and search decide; department settings do not matter |
| Listing.DepartmentViewRule | src/pages/Home.jsx:240-251 | the department view with filtering keeps only internships whose `departments` list the student's department; without a department there is no filtering |
| Listing.CanApply | src/pages/Home.jsx:390-400 | always true outside show-all and for a student without a department; in show-all with a department, true only where `departments` lists it |
| Listing.CanApplyRule | src/pages/Home.jsx:390-400 | `canApply` ignores deadline, criteria and domains; it is always true outside show-all; in show-all it equals the department rule |
| Listing.HasMatchingDomains | src/pages/Home.jsx:403-415 | a match needs both the interests and the domains to be non-empty |
| Listing.MatchingDomainsRule | src/pages/Home.jsx:403-415 | the interest/domain match is symmetric, an interest equal to a domain after trimming and lower-casing matches, and a blank entry on either side matches any non-empty other side |
| Listing.CountsSplit | src/pages/Home.jsx:341-345 | active and expired counts add up to the filtered length; expired counts those whose deadline has passed |
| Listing.CountHeading | src/pages/Home.jsx:341-357 | the active/expired form is chosen exactly when expired ones are shown and some filtered internship has passed its deadline; it then carries the active count and the number of passed deadlines, which add up to the filtered length; otherwise the total is the filtered length |
| Listing.HiddenExpiredMeansAllActive | src/pages/Home.jsx:341-357 | when expired ones are hidden, none is counted as expired and the heading shows the "Found" total |
| Card.SafeDomainsRule | src/components/InternshipCard.jsx:34 | on a normalised internship the card shows the loaded domains; a raw string would show none |
| Card.FullName | src/components/InternshipCard.jsx:28 | the name is empty, so the initials fall back to "F", exactly when there is no `facultyName` and the first or last name is missing |
| Card.IsExpired | src/components/InternshipCard.jsx:21-37 | a card is expired exactly when its deadline, or the render time standing in for a missing one, lies strictly before now: the listing's test |
| Card.ExpiryRule | src/components/InternshipCard.jsx:21-37 | a set or blank deadline is expired exactly when it has passed (a deadline of now is not); a missing one compares the render time with now |
| Card.TwoWordInitials | src/components/InternshipCard.jsx:29-32 | "First Last" yields the two upper-cased initials |
| Card.FirstChars | src/components/InternshipCard.jsx:30-31 | `map(n => n[0]).join('')` yields one character per non-empty word, its first, in order; empty words add nothing |
| Card.Initials | src/components/InternshipCard.jsx:29-32 | "F" for an empty name; otherwise one character per non-empty space-separated word, in order: its first character upper-cased |
| Card.BlankNameInitials | src/components/InternshipCard.jsx:30-32 | a name that is a single blank gives no initials, not "F" |
| Card.DomainTags | src/components/InternshipCard.jsx:70-75 | no more tags than domains, and no tag is empty |
| Card.RenderCard | src/components/InternshipCard.jsx:6-110 | nothing exactly for a missing internship; otherwise the expired flag is `IsExpired`, the button is active exactly when the student can apply and the card has not expired, the badge shows exactly in show-all mode when the student cannot apply, badge and active button never appear together, and every tag has text |
| Card.ListingCardRule | src/components/InternshipCard.jsx:101-110 | the mismatch badge shows exactly in show-all mode for a department the `departments` field omits; in the department view the button is active exactly when not expired; an active button implies not expired |
| Card.DomainTagsMembers | src/components/InternshipCard.jsx:70-75 | a tag is shown for exactly the non-empty domains |
| Card.DomainTagsOrder | src/components/InternshipCard.jsx:72-74 | the tags keep the domains' order |
| Profile.BlankRule | src/utils/profileUtils.js:45 | a value counts as missing exactly when it is `undefined`, `null`, `false`, `0`, `NaN` or an all-whitespace string |
| Profile.PhoneMatches | src/utils/profileUtils.js:52 | a phone that passes the format test is a string or a number, and never blank |
| Profile.CollectMissing | src/utils/profileUtils.js:40-49 | the `forEach` collects the specified missing labels |
| Profile.MissingLabelsRule | src/utils/profileUtils.js:42-49 | for a table of distinct labels, the missing labels are in table order, without duplicates, and a label is reported exactly when its field is blank |
| Profile.StudentLabelsDistinct | src/utils/profileUtils.js:21-38 | the sixteen student labels are distinct and none is the phone-format label |
| Profile.FacultyLabelsDistinct | src/utils/profileUtils.js:83-92 | the eight faculty labels are distinct and include no phone label |
| Profile.CheckProfileCompletion | src/utils/profileUtils.js:10-68 | the result lists the specified missing fields and is complete exactly when that list is empty |
| Profile.StudentMissing | src/utils/profileUtils.js:10-56 | no record gives the catch-all label alone; the phone-format note appears only for a truthy phone that fails the format test |
| Profile.StudentMissingRule | src/utils/profileUtils.js:13-56 | no record gives "All profile information"; otherwise each field is reported exactly when blank, and the phone-format note is added, last, exactly when the phone is set but not ten digits |
| Profile.CheckFacultyProfileCompletion | src/utils/profileUtils.js:75-115 | the result lists the specified missing faculty fields and is complete exactly when that list is empty |
| Profile.FacultyMissing | src/utils/profileUtils.js:75-103 | no record gives the catch-all label alone; otherwise at most the eight labels and never a phone label |
| Profile.FacultyMissingRule | src/utils/profileUtils.js:78-103 | no record gives "All profile information"; otherwise each of the eight fields is reported exactly when blank, never a phone field |
| Profile.StudentMessageRule | src/utils/profileUtils.js:132-138 | the message starts with the base text; up to three fields are each named; beyond that the count appears in decimal and reads back as the count |
| Profile.NotificationMessage | src/utils/profileUtils.js:123-139 | no message exactly when nothing is missing; faculty get the fixed text |
| Profile.NotificationRule | src/utils/profileUtils.js:123-139 | no message exactly when nothing is missing; faculty get the fixed text; students get the base text with the fields or the count |
| Dashboard.CompleteProfilePassesGate | src/pages/faculty/Dashboard.jsx:33-34 | a faculty profile that passes the completeness check passes the dashboard's gate |
| Dashboard.BlankDesignationPassesGate | src/pages/faculty/Dashboard.jsx:33-34 | the converse fails: a blank designation passes the gate but is reported missing |
| Dashboard.ProfileGate | src/pages/faculty/Dashboard.jsx:33-34 | passing the gate needs a record that stores every one of the four gate fields |
| Dashboard.Batches | src/pages/faculty/Dashboard.jsx:56-62 | no batches exactly for no internships, and every batch holds 1 to 10 of them |
| Dashboard.SplitIntoBatches | src/pages/faculty/Dashboard.jsx:56-62 | the loop computes the specified batches |
| Dashboard.BatchesRule | src/pages/faculty/Dashboard.jsx:56-62 | the batches concatenate back to the list; there are ⌈n/10⌉ of them; each holds 1 to 10 items; all but the last hold 10 |
| Dashboard.CollectApplications | src/pages/faculty/Dashboard.jsx:65-79 | the loop concatenates the per-batch query results in batch order |
| Dashboard.GroupByInternship | src/pages/faculty/Dashboard.jsx:83-89 | the `reduce` computes the specified grouping |
| Dashboard.Group | src/pages/faculty/Dashboard.jsx:83-89 | every group the `reduce` creates holds at least one application |
| Dashboard.GroupContents | src/pages/faculty/Dashboard.jsx:83-89 | each group holds exactly its internship's applications, in order |
| Dashboard.GroupKey | src/pages/faculty/Dashboard.jsx:83-89 | a group exists exactly for an internship id some application carries |
| Dashboard.GroupRule | src/pages/faculty/Dashboard.jsx:83-89 | each group holds exactly its internship's applications, in order; a key exists exactly when some application has it |
| Dashboard.GroupSizes | src/pages/faculty/Dashboard.jsx:83-89 | the keys are distinct, and the group sizes add up to the number of applications |
| Dashboard.AttachRule | src/pages/faculty/Dashboard.jsx:92-95 | each internship keeps its place and data and gets exactly its own applications; the count is their number |
| Dashboard.AttachApplicants | src/pages/faculty/Dashboard.jsx:92-95 | one entry per internship, in order, each keeping its internship and given an applicant list |
| Dashboard.ApplicantCount | src/pages/faculty/Dashboard.jsx:280 | the applicant count shown on a card (the list's length, or 0 without a list) is 0 exactly when the list is absent or empty |
| Dashboard.RemoveRule | src/pages/faculty/Dashboard.jsx:139 | deletion keeps, in order, exactly the listings with another id |
| Dashboard.RemoveInternship | src/pages/faculty/Dashboard.jsx:139 | the list does not grow, and every remaining entry comes from it and has another id |
| Dashboard.DashboardPage.constructor | src/pages/faculty/Dashboard.jsx:14-19 | the page starts empty, loading, with the form hidden and the profile not complete |
| Dashboard.DashboardPage.Load | src/pages/faculty/Dashboard.jsx:22-111 | the gate result is stored; on failure the error is set, the lists are kept and the page shows only the error (line 155); otherwise the applications are the batched query results, each internship carries its own group, and the page is not in the error state |
| Dashboard.DashboardPage.DeleteInternship | src/pages/faculty/Dashboard.jsx:133-145 | without confirmation nothing changes; a successful delete removes that id; a failed one sets the error, which then replaces the page; nothing else changes |
| Dashboard.DashboardPage.TogglePostForm | src/pages/faculty/Dashboard.jsx:228-235 | an incomplete profile sets the profile error and leaves the form, and the whole page then shows only that error (line 155); otherwise the form toggles |
| Dashboard.DashboardPage.PostFirstInternship | src/pages/faculty/Dashboard.jsx:256-262 | an incomplete profile sets the profile error, which then replaces the whole page; otherwise the form opens |
| Dashboard.DashboardPage.InternshipPosted | src/pages/faculty/Dashboard.jsx:114-130 | after a post the list is the refetched internships without applicant lists, and the form closes |
| Dashboard.Unattached | src/pages/faculty/Dashboard.jsx:123-128 | the refetched documents, in order, each without an applicant list |
| Dashboard.DashboardPage.InternshipPostedFixed | src/pages/faculty/Dashboard.jsx:114-130 | the corrected reload re-attaches the loaded applications to the refetched internships |
| Dashboard.PostingResetsApplicantCounts | src/pages/faculty/Dashboard.jsx:123-128 | after the page's reload every card counts 0 applicants, while the corrected reload keeps each internship's count |

## Left out

- Firestore reads and writes, authentication, navigation and the delayed
  redirect after applying. Fetched documents and query results are
  parameters, and a failed call is a boolean.
- `Promise.all`, effect ordering and races between effects, and the loading
  flags of the details page.
- `NotificationDropdown.jsx` is not part of this model. Only the message
  built for it is modelled.
- JSX layout, styling, the domain colour table, `console.log` and date
  formatting.
- Dates are whole numbers with the current instant passed in. `new Date`
  parsing of stored strings is not modelled.
- Numbers are reals. Floating-point rounding of `cgpa * 9.5` is not modelled.
- Case mapping is ASCII only. `trim` uses a fixed whitespace set rather than
  all of Unicode's. The phone check `/^[0-9]{10}$/` is modelled as "exactly
  ten ASCII digits".
- Profile.PhoneMatches: an array-valued phone number (which the regex
  stringifies) is treated as not matching.
- A `domains` field that is neither a string nor an array (a number, an
  object) is not modelled.
- Dashboard.DashboardPage.Load: a failure is modelled after the profile gate
  has been stored. A failure of `getUserData` itself, which leaves the gate
  unset, is not distinguished.
- Dashboard.GroupByInternship: the accumulator is a map. The JavaScript
  object's inherited keys (an internship id of `constructor`) are not
  modelled.
- Listing.CountHeading: the heading is modelled as its counts, not as its
  text.
- The listing page's fetch of the user's applications, the interests and the
  department, and the details page's fetch of the ten latest internships, are
  all inputs.
- The `hasApplied` check and the application document's fields other than
  the required ones.
- The listing page's own department table, because it is never read.

## Findings

| source | as written | input that shows it | evidently intended | confidence | as-written member | corrected member |
|---|---|---|---|---|---|---|
| src/pages/internships/InternshipDetails.jsx:292-295 | `DEPARTMENT_DOMAINS[userDepartment].some(...)` with no check that the department is in the table | a student of "Biotechnology" opens an internship with no `departments` and domains `["Web Development"]`: the effect throws a TypeError | a department the table does not know is not compatible, as the recommendations treat it (line 136) | not executed; high | DepartmentMatch.UnknownDepartmentThrows | DepartmentMatch.DepartmentMismatchFixed |
| src/pages/internships/InternshipDetails.jsx:284-293 | `(internship.domains \|\| []).some(...)` on a stored string | an internship stored with `domains: "Web Development"` and no `departments`, viewed by any student with a department: `.some` is not a function | read a lone string as a one-element list, as the listing page does (Home.jsx:99-103) | not executed; high | DepartmentMatch.SingleStringDomainThrows | DepartmentMatch.DepartmentMismatchFixed |
| src/pages/internships/InternshipDetails.jsx:639-653 | the `departments` field is consulted only inside the branch for a non-empty domain array | `departments: ["Civil Engineering"]`, no domains: the panel says "Open to all departments", while a Computer Science student is flagged "Not compatible" and cannot apply | list the `departments` field whenever it is set | not executed; medium | TargetDepartments.PanelIgnoresDepartmentsWithoutDomains | TargetDepartments.PanelFixedAgreesWithMismatch |
| src/pages/faculty/Dashboard.jsx:123-128 | the refetched internships replace the list without their `applicants` arrays | a faculty member with one internship and one application posts a new internship: the card shows "0 Applicants" (line 280) until the next full load | re-attach the loaded applications, as the first load does (lines 92-95) | not executed; high | Dashboard.PostingResetsApplicantCounts | Dashboard.DashboardPage.InternshipPostedFixed |
