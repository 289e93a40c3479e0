/**
 * Profile completeness (profileUtils.js): the ordered list of missing required
 * fields for a student and for a faculty member, the phone-format addendum,
 * and the notification text built from the list.
 */
module Profile {
  import opened Wrappers
  import opened Text
  import opened Seqs

  /** A stored field value, as far as truthiness and the checks go. */
  datatype JsValue =
    | Undefined
    | Null
    | Bool(b: bool)
    | Num(x: real)   // a finite number
    | NaN
    | Str(s: string)
    | Object         // an object or an array: always truthy

  predicate Truthy(v: JsValue) {
    match v
    case Undefined => false
    case Null => false
    case Bool(b) => b
    case Num(x) => x != 0.0
    case NaN => false
    case Str(s) => s != ""
    case Object => true
  }

  /** `!value || (typeof value === 'string' && value.trim() === '')` */
  predicate Blank(v: JsValue) {
    !Truthy(v) || (v.Str? && Trim(v.s) == "")
  }

  /** A missing field is `""`, `null`, `undefined`, `false`, `0`, `NaN`, or a
      string of white space only. */
  lemma BlankRule(v: JsValue)
    ensures Blank(v) <==>
              v in {Undefined, Null, Bool(false), Num(0.0), NaN}
              || (v.Str? && forall i :: 0 <= i < |v.s| ==> IsSpace(v.s[i]))
  {
    if v.Str? {
      TrimEmptyIffAllSpace(v.s);
    }
  }

  /** A user document: absent keys read as `undefined`. */
  type UserDoc = map<string, JsValue>

  function Field(doc: UserDoc, key: string): JsValue {
    if key in doc then doc[key] else Undefined
  }

  /** `/^[0-9]{10}$/.test(value)`, which first turns the value into a string: a
      string is matched as it is, a number by its decimal rendering, which is ten
      digits exactly for the integers from 10^9 to 10^10 - 1. */
  predicate PhoneMatches(v: JsValue)
    ensures PhoneMatches(v) ==> (v.Str? || v.Num?) && !Blank(v)
  {
    match v
    case Str(s) => IsTenDigits(s)
    case Num(x) => x == x.Floor as real && 1000000000.0 <= x < 10000000000.0
    case _ => false
  }

  // ------------------------------------------------------------ the tables

  const ALL_INFO := "All profile information"
  const PHONE := "Phone Number"
  const VALID_PHONE := "Valid Phone Number (10 digits)"

  /** `requiredFields` of the student check: key and label, in declaration order. */
  const STUDENT_FIELDS: seq<(string, string)> := [
    ("firstName", "First Name"),
    ("lastName", "Last Name"),
    ("email", "Email"),
    ("phoneNumber", PHONE),
    ("department", "Department"),
    ("currentYear", "Current Year"),
    ("tenthPercentage", "10th Percentage"),
    ("twelfthPercentage", "12th Percentage"),
    ("cgpa", "CGPA"),
    ("passingYear", "Passing Year"),
    ("previousProjects", "Previous Projects"),
    ("githubLink", "GitHub Profile Link"),
    ("linkedinLink", "LinkedIn Profile Link"),
    ("cocubesScore", "CoCubes Score"),
    ("leetcodeLink", "LeetCode Profile Link"),
    ("codechefLink", "CodeChef Profile Link")
  ]

  /** `requiredFields` of the faculty check. */
  const FACULTY_FIELDS: seq<(string, string)> := [
    ("firstName", "First Name"),
    ("lastName", "Last Name"),
    ("department", "Department"),
    ("designation", "Designation"),
    ("specialization", "Specialization"),
    ("experience", "Years of Experience"),
    ("qualifications", "Qualifications"),
    ("contactEmail", "Contact Email")
  ]

  function Labels(fields: seq<(string, string)>): (r: seq<string>)
    ensures |r| == |fields| && forall t :: 0 <= t < |fields| ==> r[t] == fields[t].1
  {
    seq(|fields|, t requires 0 <= t < |fields| => fields[t].1)
  }

  /** No two fields of the table share a label. */
  ghost predicate DistinctLabels(fields: seq<(string, string)>) {
    forall a, b :: 0 <= a < b < |fields| ==> fields[a].1 != fields[b].1
  }

  // ------------------------------------------------------- specification

  /** The labels of the blank fields of `fields`, in table order: what the
      `forEach` over `requiredFields` pushes. */
  function MissingLabels(fields: seq<(string, string)>, doc: UserDoc): seq<string> {
    if fields == [] then []
    else
      var last := fields[|fields| - 1];
      MissingLabels(fields[..|fields| - 1], doc) + (if Blank(Field(doc, last.0)) then [last.1] else [])
  }

  /** What `checkProfileCompletion` returns as `missingFields`. */
  function StudentMissing(user: Option<UserDoc>): (r: seq<string>)
    ensures user.None? ==> r == [ALL_INFO]
    ensures user.Some? && VALID_PHONE in r ==>
              Truthy(Field(user.value, "phoneNumber")) && !PhoneMatches(Field(user.value, "phoneNumber"))
  {
    if user.None? then [ALL_INFO]
    else
      var base := MissingLabels(STUDENT_FIELDS, user.value);
      var phone := Field(user.value, "phoneNumber");
      StudentLabelsDistinct();
      MissingLabelsRule(STUDENT_FIELDS, user.value);
      SubsequenceMembers(base, Labels(STUDENT_FIELDS));
      if Truthy(phone) && !PhoneMatches(phone) && PHONE !in base then base + [VALID_PHONE] else base
  }

  /** What `checkFacultyProfileCompletion` returns as `missingFields`. */
  function FacultyMissing(user: Option<UserDoc>): (r: seq<string>)
    ensures user.None? ==> r == [ALL_INFO]
    ensures user.Some? ==> |r| <= |FACULTY_FIELDS| && PHONE !in r
  {
    if user.None? then [ALL_INFO]
    else
      FacultyLabelsDistinct();
      MissingLabelsRule(FACULTY_FIELDS, user.value);
      SubsequenceMembers(MissingLabels(FACULTY_FIELDS, user.value), Labels(FACULTY_FIELDS));
      MissingLabels(FACULTY_FIELDS, user.value)
  }

  /** The result object `{ isComplete, missingFields }`. */
  datatype Completion = Completion(isComplete: bool, missingFields: seq<string>)

  // ------------------------------------------------------------ the checks

  /** The `forEach` over `requiredFields`, pushing the label of each blank field. */
  method CollectMissing(fields: seq<(string, string)>, doc: UserDoc) returns (missing: seq<string>)
    ensures missing == MissingLabels(fields, doc)
  {
    missing := [];
    var i := 0;
    while i < |fields|
      invariant 0 <= i <= |fields|
      invariant missing == MissingLabels(fields[..i], doc)
    {
      var field := fields[i];
      assert fields[..i + 1][..i] == fields[..i];
      if Blank(Field(doc, field.0)) {
        missing := missing + [field.1];
      }
      i := i + 1;
    }
    assert fields[..i] == fields;
  }

  /** `checkProfileCompletion`. */
  method CheckProfileCompletion(user: Option<UserDoc>) returns (r: Completion)
    ensures r.missingFields == StudentMissing(user)
    ensures r.isComplete <==> r.missingFields == []
  {
    if user.None? {
      return Completion(false, [ALL_INFO]);
    }
    var missing := CollectMissing(STUDENT_FIELDS, user.value);
    var phone := Field(user.value, "phoneNumber");
    if Truthy(phone) && !PhoneMatches(phone) {
      if PHONE !in missing {
        missing := missing + [VALID_PHONE];
      }
    }
    r := Completion(|missing| == 0, missing);
  }

  /** `checkFacultyProfileCompletion`. */
  method CheckFacultyProfileCompletion(user: Option<UserDoc>) returns (r: Completion)
    ensures r.missingFields == FacultyMissing(user)
    ensures r.isComplete <==> r.missingFields == []
  {
    if user.None? {
      return Completion(false, [ALL_INFO]);
    }
    var missing := CollectMissing(FACULTY_FIELDS, user.value);
    r := Completion(|missing| == 0, missing);
  }

  // ---------------------------------------------------------------- lemmas

  /**
   * The missing labels keep table order, a field's label is listed exactly when
   * the field is blank (the table's labels being distinct), and no label is
   * listed twice.
   */
  lemma {:induction false} MissingLabelsRule(fields: seq<(string, string)>, doc: UserDoc)
    requires DistinctLabels(fields)
    ensures SubsequenceOf(MissingLabels(fields, doc), Labels(fields))
    ensures NoDuplicates(MissingLabels(fields, doc))
    ensures forall t :: 0 <= t < |fields| ==> (fields[t].1 in MissingLabels(fields, doc) <==> Blank(Field(doc, fields[t].0)))
  {
    if fields != [] {
      var init := fields[..|fields| - 1];
      var last := fields[|fields| - 1];
      var prev := MissingLabels(init, doc);
      assert Labels(fields) == Labels(init) + [last.1];
      assert DistinctLabels(init) by {
        forall a, b | 0 <= a < b < |init| ensures init[a].1 != init[b].1 {
          assert init[a] == fields[a] && init[b] == fields[b];
        }
      }
      MissingLabelsRule(init, doc);
      SubsequenceMembers(prev, Labels(init));
      assert last.1 !in Labels(init) by {
        forall t | 0 <= t < |init| ensures Labels(init)[t] != last.1 {
          assert init[t] == fields[t];
        }
      }
      SubsequenceSnoc(prev, Labels(init), last.1, Blank(Field(doc, last.0)));
      forall t | 0 <= t < |fields|
        ensures fields[t].1 in MissingLabels(fields, doc) <==> Blank(Field(doc, fields[t].0))
      {
        if t < |fields| - 1 {
          assert init[t] == fields[t];
          assert Labels(init)[t] == fields[t].1;
        }
      }
    }
  }

  /** Appending one element to the whole, and possibly to the part, keeps a
      subsequence; a fresh element keeps the part free of duplicates. */
  lemma SubsequenceSnoc(a: seq<string>, b: seq<string>, x: string, take: bool)
    requires SubsequenceOf(a, b) && NoDuplicates(a) && x !in a
    ensures SubsequenceOf(a + (if take then [x] else []), b + [x])
    ensures NoDuplicates(a + (if take then [x] else []))
  {
    SubsequenceAppend(a, b, if take then [x] else [], [x]);
  }

  lemma StudentLabelsDistinct()
    ensures DistinctLabels(STUDENT_FIELDS)
    ensures forall t :: 0 <= t < |STUDENT_FIELDS| ==> STUDENT_FIELDS[t].1 != VALID_PHONE
  {
  }

  lemma FacultyLabelsDistinct()
    ensures DistinctLabels(FACULTY_FIELDS)
    ensures forall t :: 0 <= t < |FACULTY_FIELDS| ==> FACULTY_FIELDS[t].1 != VALID_PHONE && FACULTY_FIELDS[t].1 != PHONE
  {
  }

  /**
   * The student check: no record gives the single catch-all label; otherwise
   * each required field's label is listed exactly when the field is blank, in
   * table order and at most once, and the phone-format label is added, last,
   * exactly when the phone number is filled in but not ten digits.  At most
   * seventeen labels, and the profile is complete exactly when none is listed.
   */
  lemma StudentMissingRule(user: Option<UserDoc>)
    ensures user.None? ==> StudentMissing(user) == [ALL_INFO]
    ensures user.Some? ==>
              var r := StudentMissing(user);
              var phone := Field(user.value, "phoneNumber");
              |r| <= |STUDENT_FIELDS| + 1
              && NoDuplicates(r)
              && (forall t :: 0 <= t < |STUDENT_FIELDS| ==>
                    (STUDENT_FIELDS[t].1 in r <==> Blank(Field(user.value, STUDENT_FIELDS[t].0))))
              && (VALID_PHONE in r <==> !Blank(phone) && !PhoneMatches(phone))
              && (VALID_PHONE in r ==> r[|r| - 1] == VALID_PHONE)
  {
    if user.Some? {
      var doc := user.value;
      var base := MissingLabels(STUDENT_FIELDS, doc);
      StudentLabelsDistinct();
      MissingLabelsRule(STUDENT_FIELDS, doc);
      SubsequenceMembers(base, Labels(STUDENT_FIELDS));
      assert STUDENT_FIELDS[3] == ("phoneNumber", PHONE);
      assert VALID_PHONE !in Labels(STUDENT_FIELDS);
      var r := StudentMissing(user);
      if r != base {
        forall a, b | 0 <= a < b < |r| ensures r[a] != r[b] {
          if b == |r| - 1 { assert r[a] in base; }
        }
      }
    }
  }

  /** The faculty check: the same rule over its eight fields; it never reports
      the phone number. */
  lemma FacultyMissingRule(user: Option<UserDoc>)
    ensures user.None? ==> FacultyMissing(user) == [ALL_INFO]
    ensures user.Some? ==>
              var r := FacultyMissing(user);
              |r| <= |FACULTY_FIELDS|
              && NoDuplicates(r)
              && (forall t :: 0 <= t < |FACULTY_FIELDS| ==>
                    (FACULTY_FIELDS[t].1 in r <==> Blank(Field(user.value, FACULTY_FIELDS[t].0))))
              && PHONE !in r && VALID_PHONE !in r
  {
    if user.Some? {
      var doc := user.value;
      FacultyLabelsDistinct();
      MissingLabelsRule(FACULTY_FIELDS, doc);
      SubsequenceMembers(MissingLabels(FACULTY_FIELDS, doc), Labels(FACULTY_FIELDS));
      assert VALID_PHONE !in Labels(FACULTY_FIELDS) && PHONE !in Labels(FACULTY_FIELDS);
    }
  }

  // ------------------------------------------------------------ the message

  const FACULTY_MESSAGE := "Your profile is incomplete. Please complete it."
  const BASE_MESSAGE := "Your profile is not complete. Please complete it to find better opportunities and connect with other people."

  /** The student text after `baseMessage`: the labels for up to three, the
      count beyond. */
  function StudentMessage(base: string, missing: seq<string>): string {
    if |missing| <= 3 then base + " Missing: " + Join(missing, ", ") + "."
    else base + " You have " + Decimal(|missing|) + " fields to complete."
  }

  /** `generateProfileNotificationMessage`; `None` is `null`. */
  function NotificationMessage(missing: seq<string>, role: string): (r: Option<string>)
    ensures r.None? <==> |missing| == 0
    ensures |missing| > 0 && role == "faculty" ==> r == Some(FACULTY_MESSAGE)
  {
    if |missing| == 0 then None
    else if role == "faculty" then Some(FACULTY_MESSAGE)
    else Some(StudentMessage(BASE_MESSAGE, missing))
  }

  /** The student text starts with the base message; with at most three labels
      it names every one of them, beyond that it states the count, which reads
      back as the list's length. */
  lemma StudentMessageRule(base: string, missing: seq<string>)
    ensures var m := StudentMessage(base, missing);
            |base| <= |m| && m[..|base|] == base
            && (|missing| <= 3 ==> forall k :: 0 <= k < |missing| ==> Contains(m, missing[k]))
            && (|missing| > 3 ==> Contains(m, Decimal(|missing|)) && ParseDecimal(Decimal(|missing|)) == |missing|)
  {
    var m := StudentMessage(base, missing);
    if |missing| <= 3 {
      var joined := Join(missing, ", ");
      assert m == (base + " Missing: ") + joined + ".";
      forall k | 0 <= k < |missing| ensures Contains(m, missing[k]) {
        JoinContainsEach(missing, ", ", k);
        ContainsExtendLeft(base + " Missing: ", joined, missing[k]);
        ContainsExtendRight((base + " Missing: ") + joined, missing[k], ".");
      }
    } else {
      var prefix := base + " You have ";
      var count := Decimal(|missing|);
      assert m == prefix + (count + " fields to complete.");
      ContainsPrefix(count, " fields to complete.");
      ContainsExtendLeft(prefix, count + " fields to complete.", count);
      DecimalRoundTrip(|missing|);
    }
  }

  /**
   * The notification: none for an empty list whatever the role, the fixed
   * faculty text for a faculty member, otherwise the student text.
   */
  lemma NotificationRule(missing: seq<string>, role: string)
    ensures |missing| == 0 <==> NotificationMessage(missing, role).None?
    ensures |missing| > 0 && role == "faculty" ==> NotificationMessage(missing, role) == Some(FACULTY_MESSAGE)
    ensures |missing| > 0 && role != "faculty" ==>
              var m := NotificationMessage(missing, role).value;
              m[..|BASE_MESSAGE|] == BASE_MESSAGE
              && (|missing| <= 3 ==> forall k :: 0 <= k < |missing| ==> Contains(m, missing[k]))
              && (|missing| > 3 ==> Contains(m, Decimal(|missing|)) && ParseDecimal(Decimal(|missing|)) == |missing|)
  {
    StudentMessageRule(BASE_MESSAGE, missing);
  }
}
