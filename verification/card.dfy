/**
 * The derivations of an internship card (InternshipCard.jsx): nothing for a
 * missing internship, the domains it may render, the expiry flag, the poster's
 * name and initials, and the "Department mismatch" badge and button style
 * driven by the listing's `canApply`.
 */
module Card {
  import opened Wrappers
  import opened Text
  import opened Seqs
  import opened Records
  import opened Listing

  /** On the listing page the card receives normalised internships, whose domains
      it keeps whole; a lone string domain that was not normalised is dropped. */
  lemma SafeDomainsRule(i: Internship)
    ensures SafeDomains(Normalize(i).domains) == NormalizeDomains(i.domains)
    ensures i.domains.Single? ==> SafeDomains(i.domains) == []
  {
  }

  /** `isExpired`: a falsy deadline is never expired, a set one is when it lies
      strictly before `now`; an absent one defaults to `renderTime`, the moment
      the destructuring ran. */
  predicate IsExpired(d: Deadline, renderTime: int, now: int)
    ensures IsExpired(d, renderTime, now) <==> DeadlinePassed(if d == Absent then At(renderTime) else d, now)
  {
    match d
    case Absent => renderTime < now
    case Blank => false
    case At(t) => t < now
  }

  /** The card's expiry agrees with the listing's strict test for a stored
      deadline, so a deadline equal to `now` is not expired; only the defaulted
      one can differ, by the time elapsed between the two clock reads. */
  lemma ExpiryRule(d: Deadline, renderTime: int, now: int)
    ensures d != Absent ==> (IsExpired(d, renderTime, now) <==> DeadlinePassed(d, now))
    ensures !IsExpired(At(now), renderTime, now)
    ensures d == Absent ==> (IsExpired(d, renderTime, now) <==> renderTime < now)
  {
  }

  /** `fullName`: "first last" when both are truthy, else `facultyName`. */
  function FullName(i: Internship): (r: string)
    ensures r == "" <==> i.facultyName == "" && (i.faculty.firstName == "" || i.faculty.lastName == "")
  {
    if i.faculty.firstName != "" && i.faculty.lastName != "" then
      i.faculty.firstName + " " + i.faculty.lastName
    else i.facultyName
  }

  /** A word that contributes an initial: `n[0]` of an empty word is `undefined`. */
  predicate NonEmptyWord(w: string) {
    w != ""
  }

  /** `.map(n => n[0]).join('')`: the first character of every word; an empty
      word gives `undefined`, which `join` writes as nothing.  So the result has
      one character per non-empty word, its first one, in order. */
  function FirstChars(words: seq<string>): (r: string)
    ensures |r| == Count(NonEmptyWord, words)
    ensures forall k :: 0 <= k < |r| ==>
              |Filter(NonEmptyWord, words)[k]| > 0 && r[k] == Filter(NonEmptyWord, words)[k][0]
  {
    if words == [] then ""
    else (if words[0] == "" then "" else [words[0][0]]) + FirstChars(words[1..])
  }

  /** `initials`: "F" for an empty name, otherwise the upper-cased first
      character of each non-empty blank-separated word, in order. */
  function Initials(fullName: string): (r: string)
    ensures fullName == "" ==> r == "F"
    ensures fullName != "" ==> |r| <= |Split(fullName, ' ')|
    ensures fullName != "" ==>
              var words := Filter(NonEmptyWord, Split(fullName, ' '));
              |r| == |words|
              && forall k :: 0 <= k < |r| ==> |words[k]| > 0 && r[k] == UpperChar(words[k][0])
  {
    UpperSpec(FirstChars(Split(fullName, ' ')));
    FilterSpec(NonEmptyWord, Split(fullName, ' '));
    if fullName == "" then "F" else Upper(FirstChars(Split(fullName, ' ')))
  }

  /** The initials of "first last", neither containing a blank, are the two
      upper-cased first letters. */
  lemma TwoWordInitials(first: string, last: string)
    requires first != "" && last != "" && ' ' !in first && ' ' !in last
    ensures Initials(first + " " + last) == [UpperChar(first[0]), UpperChar(last[0])]
  {
    SplitAtFirst(first, last, ' ');
    SplitWithoutSeparator(last, ' ');
    assert first + " " + last == first + [' '] + last;
    var words := Split(first + " " + last, ' ');
    assert words == [first, last];
    assert words[1..] == [last] && [last][1..] == [];
    assert FirstChars([last]) == [last[0]];
    assert FirstChars(words) == [first[0], last[0]];
    UpperSpec([first[0], last[0]]);
  }

  /** A name of blanks only has no initials at all (not "F", which only the empty
      name gets). */
  lemma BlankNameInitials()
    ensures Initials(" ") == ""
  {
    assert Split(" ", ' ') == [""] + Split("", ' ');
    assert FirstChars(["", ""]) == "" + FirstChars([""]);
  }

  /** What a card shows, as far as the model goes. */
  datatype CardView = CardView(
    initials: string,
    domainTags: seq<string>,
    expired: bool,
    mismatchBadge: bool,
    activeButton: bool)

  /** The domains that get a tag: `domain ? <DomainTag/> : null`. */
  function DomainTags(ds: seq<Option<string>>): (r: seq<string>)
    ensures |r| <= |ds|
    ensures forall k :: 0 <= k < |r| ==> r[k] != ""
  {
    if ds == [] then []
    else (if ds[0].Some? && ds[0].value != "" then [ds[0].value] else []) + DomainTags(ds[1..])
  }

  /** The card for `internship`; `None` is the `null` rendered for a missing one. */
  function RenderCard(internship: Option<Internship>, canApply: bool, showAllMode: bool,
                      renderTime: int, now: int): (r: Option<CardView>)
    ensures r.None? <==> internship.None?
    ensures r.Some? ==> r.value.expired == IsExpired(internship.value.firstRoundDate, renderTime, now)
    ensures r.Some? ==> (r.value.activeButton <==> canApply && !r.value.expired)
    ensures r.Some? ==> (r.value.mismatchBadge <==> showAllMode && !canApply)
    ensures r.Some? ==> !(r.value.mismatchBadge && r.value.activeButton)
    ensures r.Some? ==> forall k :: 0 <= k < |r.value.domainTags| ==> r.value.domainTags[k] != ""
  {
    if internship.None? then None
    else
      var i := internship.value;
      var expired := IsExpired(i.firstRoundDate, renderTime, now);
      Some(CardView(Initials(FullName(i)), DomainTags(SafeDomains(i.domains)), expired,
                    showAllMode && !canApply, canApply && !expired))
  }

  /**
   * On the listing page: the badge appears only in show-all mode and exactly for
   * a student with a department that the `departments` field does not list;
   * in the department view the button is active exactly when the internship has
   * not expired.
   */
  lemma ListingCardRule(v: HomeView, i: Internship, renderTime: int)
    ensures var c := RenderCard(Some(i), CanApply(v, i), v.showAll, renderTime, v.now).value;
            (c.mismatchBadge <==> v.showAll && v.userDepartment != "" && v.userDepartment !in i.departments)
            && (!v.showAll ==> (c.activeButton <==> !IsExpired(i.firstRoundDate, renderTime, v.now)))
            && (c.activeButton ==> !c.expired)
    ensures RenderCard(None, CanApply(v, i), v.showAll, renderTime, v.now).None?
  {
  }

  /** Every tag is the text of a domain, and every domain with text gets one;
      blank and `null` domains get none. */
  lemma {:induction false} DomainTagsMembers(ds: seq<Option<string>>)
    ensures forall x :: x in DomainTags(ds) <==> x != "" && Some(x) in ds
  {
    if ds != [] {
      DomainTagsMembers(ds[1..]);
      var head := if ds[0].Some? && ds[0].value != "" then [ds[0].value] else [];
      assert DomainTags(ds) == head + DomainTags(ds[1..]);
      forall x ensures x in DomainTags(ds) <==> x != "" && Some(x) in ds {
        assert Some(x) in ds <==> ds[0] == Some(x) || Some(x) in ds[1..] by {
          assert ds == [ds[0]] + ds[1..];
        }
      }
    }
  }

  /** The tags keep the order of the domains. */
  lemma {:induction false} DomainTagsOrder(ds: seq<Option<string>>)
    ensures SubsequenceOf(DomainTags(ds), Texts(ds))
  {
    if ds != [] {
      DomainTagsOrder(ds[1..]);
      var t := ds[0].GetOr("");
      assert Texts(ds) == [t] + Texts(ds[1..]);
      if ds[0].Some? && ds[0].value != "" {
        assert DomainTags(ds)[0] == t && DomainTags(ds)[1..] == DomainTags(ds[1..]);
      } else {
        assert DomainTags(ds) == DomainTags(ds[1..]);
        SubsequenceExtendLeft(DomainTags(ds[1..]), Texts(ds[1..]), [t]);
      }
    }
  }

  /** The domains as texts, `""` for `null`. */
  function Texts(ds: seq<Option<string>>): (r: seq<string>)
    ensures |r| == |ds|
  {
    if ds == [] then [] else [ds[0].GetOr("")] + Texts(ds[1..])
  }
}
