/** A course of the catalog: its JSON decoder, its key-only constructor, and the
    `Hashable` identity (`hashValue` and `==`) of `Course`. */
module Courses {
  import opened Results
  import opened Json
  import opened CourseSections
  import Decimal
  import Int64

  datatype Course = Course(
    subjectCode: string,
    courseNumber: int,
    title: Option<string>,
    credits: Option<string>,
    description: Option<string>,
    abbr: Option<string>,
    sections: seq<Section>)

  /** `key` holds a value whose `.int` view is `n`: a number, or a boolean read as 0 or 1. */
  ghost predicate HoldsInt(j: JSON, key: string, n: int) {
    Holds(j, key, JNumber(n)) || (Holds(j, key, JBool(true)) && n == 1) || (Holds(j, key, JBool(false)) && n == 0)
  }

  predicate AllSectionsDecode(items: seq<JSON>) {
    forall k :: 0 <= k < |items| ==> DecodeSection(items[k]).Success?
  }

  /** `sections` are the decoded `items`, one for one and in document order. */
  predicate SectionsFrom(items: seq<JSON>, sections: seq<Section>)
    requires AllSectionsDecode(items)
  {
    |sections| == |items| && forall k :: 0 <= k < |items| ==> sections[k] == DecodeSection(items[k]).value
  }

  /** `e` reports the first element of `items` whose section decode stops, and why. */
  predicate FirstSectionFailure(items: seq<JSON>, e: DecodeError) {
    && e.InSection?
    && e.index < |items|
    && DecodeSection(items[e.index]) == Failure(e.cause)
    && forall k :: 0 <= k < e.index ==> DecodeSection(items[k]).Success?
  }

  /** The sections array decoded element by element, stopping at the first element that stops. */
  function DecodeSections(items: seq<JSON>): (r: Result<seq<Section>, DecodeError>)
    ensures r.Success? <==> AllSectionsDecode(items)
    ensures r.Success? ==> SectionsFrom(items, r.value)
    ensures r.Failure? ==> FirstSectionFailure(items, r.error)
  {
    if items == [] then Success([])
    else
      match DecodeSection(items[0])
      case Failure(e) => Failure(InSection(0, e))
      case Success(s) =>
        match DecodeSections(items[1..])
        case Failure(e) =>
          assert forall k :: 0 < k <= e.index ==> items[k] == items[1..][k - 1];
          Failure(InSection(e.index + 1, e.cause))
        case Success(rest) =>
          assert forall k :: 0 < k < |items| ==> items[k] == items[1..][k - 1];
          Success([s] + rest)
  }

  /** At most one element can be the first to stop. */
  lemma FirstSectionFailureUnique(items: seq<JSON>, e1: DecodeError, e2: DecodeError)
    requires FirstSectionFailure(items, e1) && FirstSectionFailure(items, e2)
    ensures e1 == e2
  {
  }

  lemma SectionsFromUnique(items: seq<JSON>, s1: seq<Section>, s2: seq<Section>)
    requires AllSectionsDecode(items) && SectionsFrom(items, s1) && SectionsFrom(items, s2)
    ensures s1 == s2
  {
  }

  /** The sections of a course record: empty unless `sections` holds an array. */
  function SectionsOf(j: JSON): Result<seq<Section>, DecodeError> {
    match AsArray(Member(j, "sections"))
    case None => Success([])
    case Some(items) => DecodeSections(items)
  }

  /** `init(courseJSON:)` as a function of the document: `subjectCode` must hold a string and
      `courseNumber` an integer, optional strings are read permissively, `abbr` is derived and
      every element of a `sections` array becomes a section, in order. */
  function CourseOf(j: JSON): (r: Result<Course, DecodeError>)
    ensures !HasString(j, "subjectCode") ==> r == Failure(MissingRequiredField("subjectCode"))
    ensures HasString(j, "subjectCode") && !HasInt(j, "courseNumber") ==> r == Failure(MissingRequiredField("courseNumber"))
    ensures HasString(j, "subjectCode") && HasInt(j, "courseNumber") ==>
              (r.Success? <==> !HasArray(j, "sections") || AllSectionsDecode(j.fields["sections"].items))
    ensures HasString(j, "subjectCode") && HasInt(j, "courseNumber") && r.Failure? ==>
              HasArray(j, "sections") && FirstSectionFailure(j.fields["sections"].items, r.error)
    ensures r.Success? ==>
              var c := r.value;
              && Holds(j, "subjectCode", JString(c.subjectCode))
              && HoldsInt(j, "courseNumber", c.courseNumber)
              && c.abbr == Some(c.subjectCode + " " + Decimal.IntToDecimal(c.courseNumber))
              && StringField(j, "title", c.title)
              && StringField(j, "credits", c.credits)
              && StringField(j, "description", c.description)
              && (!HasArray(j, "sections") ==> c.sections == [])
              && (HasArray(j, "sections") ==> SectionsFrom(j.fields["sections"].items, c.sections))
  {
    match AsString(Member(j, "subjectCode"))
    case None => Failure(MissingRequiredField("subjectCode"))
    case Some(subjectCode) =>
      match AsInt(Member(j, "courseNumber"))
      case None => Failure(MissingRequiredField("courseNumber"))
      case Some(courseNumber) =>
        match SectionsOf(j)
        case Failure(e) => Failure(e)
        case Success(sections) =>
          Success(Course(
            subjectCode := subjectCode,
            courseNumber := courseNumber,
            title := AsString(Member(j, "title")),
            credits := AsString(Member(j, "credits")),
            description := AsString(Member(j, "description")),
            abbr := Some(subjectCode + " " + Decimal.IntToDecimal(courseNumber)),
            sections := sections))
  }

  /** `init(courseJSON:)`: reads the fields in the order the initializer does and builds the
      sections by appending each decoded element of the `sections` array. */
  method DecodeCourse(j: JSON) returns (r: Result<Course, DecodeError>)
    ensures r == CourseOf(j)
  {
    var title := AsString(Member(j, "title"));
    var subjectCode := AsString(Member(j, "subjectCode"));
    if subjectCode.None? {
      return Failure(MissingRequiredField("subjectCode"));
    }
    var courseNumber := AsInt(Member(j, "courseNumber"));
    if courseNumber.None? {
      return Failure(MissingRequiredField("courseNumber"));
    }
    var credits := AsString(Member(j, "credits"));
    var description := AsString(Member(j, "description"));
    var abbr := Some(subjectCode.value + " " + Decimal.IntToDecimal(courseNumber.value));
    var sections: seq<Section> := [];

    var sectionArray := AsArray(Member(j, "sections"));
    if sectionArray.Some? {
      var items := sectionArray.value;
      var i := 0;
      while i < |items|
        invariant 0 <= i <= |items|
        invariant |sections| == i
        invariant forall k :: 0 <= k < i ==> DecodeSection(items[k]).Success? && sections[k] == DecodeSection(items[k]).value
      {
        var section := DecodeSection(items[i]);
        if section.Failure? {
          r := Failure(InSection(i, section.error));
          FirstSectionFailureUnique(items, DecodeSections(items).error, r.error);
          CourseOfSectionFailure(j, subjectCode.value, courseNumber.value, r.error);
          return;
        }
        sections := sections + [section.value];
        i := i + 1;
      }
      assert SectionsFrom(items, sections);
      SectionsFromUnique(items, DecodeSections(items).value, sections);
    }
    assert SectionsOf(j) == Success(sections);
    CourseOfSuccess(j, subjectCode.value, courseNumber.value, sections);
    r := Success(Course(subjectCode.value, courseNumber.value, title, credits, description, abbr, sections));
  }

  /** `init(subjectCode:courseNumber:)`: a course standing for its key alone. */
  function KeyCourse(subjectCode: string, courseNumber: int): (c: Course)
    ensures c.subjectCode == subjectCode && c.courseNumber == courseNumber
    ensures c.title == None && c.credits == None && c.description == None && c.abbr == None
    ensures c.sections == []
  {
    Course(subjectCode, courseNumber, None, None, None, None, [])
  }

  // Identity. `strHash` stands for `String.hashValue`, which is seeded per process;
  // `Int.hashValue` is the integer itself.

  /** `hashValue`: `subjectCode.hashValue ^ (courseNumber.hashValue &* 16777619)`. */
  function HashValue(strHash: string -> int, c: Course): (h: int)
    ensures Int64.IsInt64(h)
  {
    Int64.Xor(strHash(c.subjectCode), Int64.WrappingMul(c.courseNumber, Int64.HashPrime))
  }

  /** `==` as written: two courses are equal when their hash values are. Courses with the
      same subject code and course number are always equal. */
  predicate Equal(strHash: string -> int, a: Course, b: Course): (r: bool)
    ensures SameIdentity(a, b) ==> r
  {
    HashValue(strHash, a) == HashValue(strHash, b)
  }

  /** The identity the model intends: the same subject code and course number. */
  predicate SameIdentity(a: Course, b: Course) {
    a.subjectCode == b.subjectCode && a.courseNumber == b.courseNumber
  }

  /** `==` looks at the subject code and the course number only. */
  lemma EqualityIgnoresDescriptiveFields(strHash: string -> int, a: Course, b: Course)
    requires a.subjectCode == b.subjectCode && a.courseNumber == b.courseNumber
    ensures Equal(strHash, a, b)
  {
  }

  /** `==` is an equivalence, and equal courses have equal hash values. */
  lemma EqualityIsEquivalence(strHash: string -> int, a: Course, b: Course, c: Course)
    ensures Equal(strHash, a, a)
    ensures Equal(strHash, a, b) ==> Equal(strHash, b, a)
    ensures Equal(strHash, a, b) && Equal(strHash, b, c) ==> Equal(strHash, a, c)
    ensures Equal(strHash, a, b) ==> HashValue(strHash, a) == HashValue(strHash, b)
  {
  }

  /** Within one subject code, `==` tells 64-bit course numbers apart: multiplying by the odd
      constant and xoring with a fixed string hash both lose no bits. */
  lemma SameSubjectEqualityIsNumberEquality(strHash: string -> int, a: Course, b: Course)
    requires a.subjectCode == b.subjectCode
    requires Int64.IsInt64(a.courseNumber) && Int64.IsInt64(b.courseNumber)
    ensures Equal(strHash, a, b) <==> a.courseNumber == b.courseNumber
  {
    if Equal(strHash, a, b) {
      var ma := Int64.WrappingMul(a.courseNumber, Int64.HashPrime);
      var mb := Int64.WrappingMul(b.courseNumber, Int64.HashPrime);
      Int64.XorCancel(strHash(a.subjectCode), ma, mb);
      Int64.UnsignedInjective(ma, mb);
      Int64.WrappingMulByHashPrimeInjective(a.courseNumber, b.courseNumber);
      Int64.UnsignedInjective(a.courseNumber, b.courseNumber);
    }
  }

  /** Comparing hash values equates different courses: with string hashes 0 for "CS" and
      16777619 for "MTH", CS 1 and MTH 0 both hash to 16777619. */
  lemma HashEqualityCollides(strHash: string -> int)
    requires strHash("CS") == 0 && strHash("MTH") == Int64.HashPrime
    ensures Equal(strHash, KeyCourse("CS", 1), KeyCourse("MTH", 0))
    ensures !SameIdentity(KeyCourse("CS", 1), KeyCourse("MTH", 0))
  {
    assert Int64.WrappingMul(1, Int64.HashPrime) == Int64.HashPrime;
    assert Int64.WrappingMul(0, Int64.HashPrime) == 0;
    Int64.XorZero(Int64.HashPrime);
  }

  /** Comparing hash values equates different courses whatever the string hashes are: for
      any two different subject codes, every course of the first is `==` to some course of
      the second, because `^` with a fixed value and `&*` by 16777619 both reach every `Int`. */
  lemma HashEqualityCollidesForEveryHash(strHash: string -> int, s1: string, n1: int, s2: string)
    requires s1 != s2
    ensures exists n2 :: Int64.IsInt64(n2) && Equal(strHash, KeyCourse(s1, n1), KeyCourse(s2, n2))
                                          && !SameIdentity(KeyCourse(s1, n1), KeyCourse(s2, n2))
  {
    var target := HashValue(strHash, KeyCourse(s1, n1));
    var m2 := Int64.Xor(strHash(s2), target);
    Int64.XorInvolution(strHash(s2), target);
    Int64.WrappingMulByHashPrimeSurjective(m2);
    var n2 :| Int64.IsInt64(n2) && Int64.WrappingMul(n2, Int64.HashPrime) == m2;
    assert HashValue(strHash, KeyCourse(s2, n2)) == target;
  }

  /** The intended identity is an equivalence that `hashValue` respects, so it is a valid
      `Hashable` equality; unlike `Equal`, it never equates different course numbers. */
  lemma SameIdentityIsHashableEquality(strHash: string -> int, a: Course, b: Course, c: Course)
    ensures SameIdentity(a, a)
    ensures SameIdentity(a, b) ==> SameIdentity(b, a)
    ensures SameIdentity(a, b) && SameIdentity(b, c) ==> SameIdentity(a, c)
    ensures SameIdentity(a, b) ==> Equal(strHash, a, b) && HashValue(strHash, a) == HashValue(strHash, b)
    ensures a.courseNumber != b.courseNumber ==> !SameIdentity(a, b)
  {
  }

  /** The key-only course of a decoded course is the same course to `==` and to the intended
      identity, but it carries no `abbr`. */
  lemma KeyCourseIdentifiesDecoded(strHash: string -> int, j: JSON)
    requires CourseOf(j).Success?
    ensures var c := CourseOf(j).value;
            var k := KeyCourse(c.subjectCode, c.courseNumber);
            SameIdentity(k, c) && Equal(strHash, k, c) && k.abbr == None && c.abbr.Some?
  {
  }

  /** Within one subject code the derived `abbr` names the course number. */
  lemma AbbrDeterminesCourseNumber(j1: JSON, j2: JSON)
    requires CourseOf(j1).Success? && CourseOf(j2).Success?
    requires CourseOf(j1).value.subjectCode == CourseOf(j2).value.subjectCode
    requires CourseOf(j1).value.abbr == CourseOf(j2).value.abbr
    ensures CourseOf(j1).value.courseNumber == CourseOf(j2).value.courseNumber
  {
    var c1, c2 := CourseOf(j1).value, CourseOf(j2).value;
    var prefix := c1.subjectCode + " ";
    var d1, d2 := Decimal.IntToDecimal(c1.courseNumber), Decimal.IntToDecimal(c2.courseNumber);
    assert (prefix + d1)[|prefix|..] == d1;
    assert (prefix + d2)[|prefix|..] == d2;
    Decimal.IntToDecimalInjective(c1.courseNumber, c2.courseNumber);
  }

  /** The members of the meeting time of `CatalogExample`. */
  lemma CatalogExampleMeetingMembers(meeting: JSON)
    requires meeting == JObject(map["buildingCode" := JString("KEC"), "days" := JString("MWF"),
                                    "startTime" := JString("10:00"), "endTime" := JString("10:50"),
                                    "roomNumber" := JString("1001")])
    ensures Member(meeting, "buildingCode") == JString("KEC") && Member(meeting, "days") == JString("MWF")
    ensures Member(meeting, "startTime") == JString("10:00") && Member(meeting, "endTime") == JString("10:50")
    ensures Member(meeting, "roomNumber") == JString("1001")
  {
  }

  /** The members of the section of `CatalogExample`. */
  lemma CatalogExampleSectionMembers(meeting: JSON, section: JSON)
    requires section == JObject(map["term" := JString("Fall 2024"), "crn" := JNumber(12345),
                                    "meetingTimes" := JArray([meeting]),
                                    "capacity" := JNumber(30), "currentEnrollment" := JNumber(28)])
    ensures Member(section, "term") == JString("Fall 2024") && Member(section, "crn") == JNumber(12345)
    ensures Member(section, "meetingTimes") == JArray([meeting])
    ensures Member(section, "capacity") == JNumber(30) && Member(section, "currentEnrollment") == JNumber(28)
    ensures Member(section, "instructor") == JNull && Member(section, "type") == JNull
    ensures Member(section, "status") == JNull && Member(section, "fees") == JNull
    ensures Member(section, "restrictions") == JNull && Member(section, "waitlistcurrent") == JNull
  {
  }

  /** The members of the course record of `CatalogExample`. */
  lemma CatalogExampleCourseMembers(section: JSON, course: JSON)
    requires course == JObject(map["subjectCode" := JString("CS"), "courseNumber" := JNumber(161),
                                   "sections" := JArray([section])])
    ensures Member(course, "subjectCode") == JString("CS") && Member(course, "courseNumber") == JNumber(161)
    ensures Member(course, "sections") == JArray([section])
    ensures Member(course, "title") == JNull && Member(course, "credits") == JNull
    ensures Member(course, "description") == JNull
  {
  }

  /** The section of `CatalogExample` decodes field by field. */
  lemma CatalogExampleSection(meeting: JSON, section: JSON)
    requires meeting == JObject(map["buildingCode" := JString("KEC"), "days" := JString("MWF"),
                                    "startTime" := JString("10:00"), "endTime" := JString("10:50"),
                                    "roomNumber" := JString("1001")])
    requires section == JObject(map["term" := JString("Fall 2024"), "crn" := JNumber(12345),
                                    "meetingTimes" := JArray([meeting]),
                                    "capacity" := JNumber(30), "currentEnrollment" := JNumber(28)])
    ensures DecodeSection(section) == Success(
      Section(term := Some("Fall 2024"), crn := Some(12345), instructor := None,
              buildingCode := Some("KEC"), days := Some("MWF"), startTime := Some("10:00"),
              endTime := Some("10:50"), roomNumber := Some("1001"), sectionType := None,
              status := None, capacity := Some(30), currentEnrollment := Some(28),
              waitlistCurrent := Some(0), fees := None, restrictions := None))
  {
    CatalogExampleMeetingMembers(meeting);
    CatalogExampleSectionMembers(meeting, section);
  }

  /** A catalog record with one section and one meeting time: the sections keep their
      content, absent strings are `None`, and the absent `waitlistcurrent` reads as 0. */
  lemma CatalogExample(meeting: JSON, section: JSON, course: JSON)
    requires meeting == JObject(map["buildingCode" := JString("KEC"), "days" := JString("MWF"),
                                    "startTime" := JString("10:00"), "endTime" := JString("10:50"),
                                    "roomNumber" := JString("1001")])
    requires section == JObject(map["term" := JString("Fall 2024"), "crn" := JNumber(12345),
                                    "meetingTimes" := JArray([meeting]),
                                    "capacity" := JNumber(30), "currentEnrollment" := JNumber(28)])
    requires course == JObject(map["subjectCode" := JString("CS"), "courseNumber" := JNumber(161),
                                   "sections" := JArray([section])])
    ensures CourseOf(course) == Success(Course("CS", 161, None, None, None, Some("CS 161"), [
      Section(term := Some("Fall 2024"), crn := Some(12345), instructor := None,
              buildingCode := Some("KEC"), days := Some("MWF"), startTime := Some("10:00"),
              endTime := Some("10:50"), roomNumber := Some("1001"), sectionType := None,
              status := None, capacity := Some(30), currentEnrollment := Some(28),
              waitlistCurrent := Some(0), fees := None, restrictions := None)]))
  {
    CatalogExampleSection(meeting, section);
    CatalogExampleCourse(section, course);
  }

  /** The course record of `CatalogExample`, whichever its one section decodes to. */
  lemma CatalogExampleCourse(section: JSON, course: JSON)
    requires DecodeSection(section).Success?
    requires course == JObject(map["subjectCode" := JString("CS"), "courseNumber" := JNumber(161),
                                   "sections" := JArray([section])])
    ensures CourseOf(course) == Success(Course("CS", 161, None, None, None, Some("CS 161"), [DecodeSection(section).value]))
  {
    CatalogExampleCourseMembers(section, course);
    var sec := DecodeSection(section).value;
    assert SectionsOf(course) == Success([sec]) by {
      assert [section][0] == section && [section][1..] == [];
      assert [sec] + [] == [sec];
    }
    assert Decimal.IntToDecimal(161) == "161" by {
      assert Decimal.NatToDecimal(16) == "16";
    }
    assert "CS" + " " + "161" == "CS 161";
    CourseOfSuccess(course, "CS", 161, [sec]);
  }

  /** `CourseOf` stops where the sections stop, once its key fields are known. */
  lemma CourseOfSectionFailure(j: JSON, subjectCode: string, courseNumber: int, e: DecodeError)
    requires Member(j, "subjectCode") == JString(subjectCode)
    requires AsInt(Member(j, "courseNumber")) == Some(courseNumber)
    requires SectionsOf(j) == Failure(e)
    ensures CourseOf(j) == Failure(e)
  {
  }

  /** `CourseOf` once its key fields and sections are known. */
  lemma CourseOfSuccess(j: JSON, subjectCode: string, courseNumber: int, sections: seq<Section>)
    requires Member(j, "subjectCode") == JString(subjectCode)
    requires AsInt(Member(j, "courseNumber")) == Some(courseNumber)
    requires SectionsOf(j) == Success(sections)
    ensures CourseOf(j) == Success(Course(subjectCode, courseNumber, AsString(Member(j, "title")),
              AsString(Member(j, "credits")), AsString(Member(j, "description")),
              Some(subjectCode + " " + Decimal.IntToDecimal(courseNumber)), sections))
  {
  }
}
