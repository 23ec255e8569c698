# Classmere course catalog: JSON decoding model

A Dafny model of the data layer of the Classmere iOS client. The client
decodes course-catalog records into two value types. `Course` is a subject
code, a course number, optional descriptive strings, a derived `abbr` label
and the course's sections. `CourseSection` is a section's term, CRN,
instructor, first meeting time, status and enrollment counts. The model
covers:

- the section decoder `CourseSection.init(sectionJSON:)` (module
  `CourseSections`). It is a pure function. Strings are read with `.string`,
  so a missing key or a non-string value gives `None`. Integers are read with
  `.intValue`, so they are never `nil` and a missing key or `null` gives `0`.
  The five meeting fields come from element 0 of `meetingTimes` only.
- the course decoder `Course.init(courseJSON:)` (module `Courses`). It is
  modelled twice: as a function `CourseOf`, which serves as its
  specification, and as the method `DecodeCourse`, which grows the section
  sequence in a loop, as the initializer does. The method is proved equal to
  the function.
- the key-only initializer `Course.init(subjectCode:courseNumber:)`.
- the `Hashable` conformance: `hashValue` and `==`.

JSON is the datatype `Json.JSON`. The SwiftyJSON accessors the code uses are
small total functions over it: `Member` is `json[key]`, and then `AsString`,
`AsInt`, `AsIntValue` and `AsArray`. `Decimal` gives Swift's `String(Int)`.
`Int64` gives the 64-bit wrap-around that `&*` and `^` need.

Each force-unwrap in the source would stop the process. The model turns it
into `Failure(e)` of a `Result`, where `e` says which unwrap failed:
- `MissingRequiredField("subjectCode")` or
  `MissingRequiredField("courseNumber")` for the two course keys;
- `NoMeetingTime` when `meetingTimes` is an empty array, because
  `meetingTimes[0]` indexes a Swift array out of range;
- `MissingStartTime` when the first meeting time has no string `startTime`,
  because of `print(startTime!)`;
- `InSection(i, e)` when section `i` of a course stops with `e`.
In the source a trap in any section ends the whole course decode; in the
model, the course decode returns that failure.

`Course.swift` builds its sections with `Section(sectionJSON:)`, but the
only section decoder in the sources is `CourseSection` in
`classmereApp/CourseSection.swift`. The model takes `CourseSection` to be
that `Section`.

Some behaviour of the code differs from what a reader might expect, and the
model follows the code:
- An empty `meetingTimes` array makes the decode stop. It does not leave the
  meeting fields absent.
- `crn`, `capacity`, `currentEnrollment` and `waitlistCurrent` have Swift
  type `Int?` but are never `nil`.
- `waitlistCurrent` is read from the lower-case key `waitlistcurrent`.
- A boolean `courseNumber` is accepted, because SwiftyJSON's `.int` reads
  `true` as 1 and `false` as 0.

## Model

| member | source | states |
|---|---|---|
| `Json.StringMember` | classmereApp/CourseSection.swift:41-43 | `json[key].string` is `Some(s)` exactly when the object holds the JSON string `s` under `key`; in every other case (key missing, non-object, non-string) it is `None` |
| `Json.IntValueMember` | classmereApp/CourseSection.swift:81-83 | `json[key].intValue` is never `nil`: a number reads as itself, a missing key or `null` reads as 0 |
| `Json.IntValueOfDigitlessString` | classmereApp/CourseSection.swift:83 | a string without a digit, such as `"not-a-number"`, reads as 0 under `.intValue`, not as `nil` and not as an error |
| `Json.IntMember` | Classmere/Classmere/Course.swift:20 | `json[key].int` is present exactly when `key` holds a number or a boolean, and a number reads as itself |
| `CourseSections.DecodeSection` | classmereApp/CourseSection.swift:40-90 | the section decoder only stops for a missing first meeting time or start time; the four integer fields are never `nil` |
| `CourseSections.DecodeSectionFields` | classmereApp/CourseSection.swift:40-83 | no `meetingTimes` array gives five absent meeting fields; an empty array stops with `NoMeetingTime`; otherwise the decode succeeds exactly when element 0 has a string `startTime` (else `MissingStartTime`), and the five meeting fields follow the string policy on element 0; term, instructor, type, status, fees and restrictions follow the string policy, and crn, waitlistcurrent, currentEnrollment and capacity the zero-defaulting integer policy, on the section object |
| `CourseSections.UnreadKeyIgnored` | classmereApp/CourseSection.swift:40-90 | adding or changing a key the decoder does not read leaves the decoded section unchanged |
| `CourseSections.CamelCaseWaitlistIgnored` | classmereApp/CourseSection.swift:81 | a `waitlistCurrent` (camel-case) key has no effect: the count is read from `waitlistcurrent` |
| `CourseSections.OnlyFirstMeetingTimeRead` | classmereApp/CourseSection.swift:45-50 | two non-empty `meetingTimes` arrays with the same element 0 decode to the same result, success or failure |
| `CourseSections.LaterMeetingTimesIgnored` | classmereApp/CourseSection.swift:45-50 | appending meeting times after the first leaves the result unchanged |
| `Decimal.IntToDecimal` | Classmere/Classmere/Course.swift:23 | `String(n)` is decimal digits without leading zeros, preceded by `-` exactly when `n` is negative |
| `Decimal.NatToDecimalRoundTrip` | Classmere/Classmere/Course.swift:23 | the digits written for a natural number read back as that number |
| `Decimal.IntToDecimalRoundTrip` | Classmere/Classmere/Course.swift:23 | parsing `String(n)` gives back `n` |
| `Decimal.IntToDecimalInjective` | Classmere/Classmere/Course.swift:23 | different integers have different decimal text |
| `Courses.DecodeSections` | Classmere/Classmere/Course.swift:27-32 | the section list succeeds exactly when every element decodes; it then has one section per element, in document order, the i-th being the decode of the i-th element; otherwise the error names the first element that stops and its cause |
| `Courses.CourseOf` | Classmere/Classmere/Course.swift:17-33 | a `subjectCode` that is not a string fails with `MissingRequiredField("subjectCode")`; then a `courseNumber` that is not an integer fails with `MissingRequiredField("courseNumber")`; with both present the decode succeeds exactly when there is no `sections` array or every element decodes, and a failure names the first failing section; on success the keys are the record's, `abbr` is `subjectCode + " " + String(courseNumber)`, title, credits and description follow the string policy, and the sections are empty without an array and the in-order decodes of its elements with one |
| `Courses.DecodeCourse` | Classmere/Classmere/Course.swift:17-33 | the initializer's field reads and its append loop over `sections` compute exactly `CourseOf` |
| `Courses.KeyCourse` | Classmere/Classmere/Course.swift:34-42 | the key-only course keeps the two key fields and has no title, credits, description, abbr or sections |
| `Courses.KeyCourseIdentifiesDecoded` | Classmere/Classmere/Course.swift:17-42 | the key-only course built from a decoded course's keys is `==` to it and has the same intended identity, but unlike the decoded course it has no `abbr` |
| `Courses.AbbrDeterminesCourseNumber` | Classmere/Classmere/Course.swift:23 | two decoded courses with the same subject code and the same `abbr` have the same course number |
| `Courses.HashValue` | Classmere/Classmere/Course.swift:46-48 | `hashValue` is a 64-bit `Int` |
| `Int64.WrappingMul` | Classmere/Classmere/Course.swift:47 | `&*` gives the `Int` whose 64-bit pattern is the product modulo 2^64, which is the product itself when that fits in an `Int` |
| `Int64.Xor` | Classmere/Classmere/Course.swift:47 | `^` gives the `Int` whose 64-bit pattern is the bitwise exclusive or of the two operands' patterns |
| `Int64.XorSelf` | Classmere/Classmere/Course.swift:47 | `x ^ x == 0` for every integer |
| `Int64.XorInvolution` | Classmere/Classmere/Course.swift:47 | `h ^ (h ^ t) == t` for every `Int` `t` |
| `Int64.XorCancel` | Classmere/Classmere/Course.swift:47 | xoring with one fixed value keeps every 64-bit pattern apart |
| `Int64.XorZero` | Classmere/Classmere/Course.swift:47 | xoring a 64-bit integer with 0, on either side, leaves it unchanged |
| `Int64.WrappingMulByHashPrimeInjective` | Classmere/Classmere/Course.swift:47 | wrapping multiplication by 16777619 keeps every 64-bit pattern apart, because 16777619 is odd and so invertible modulo 2^64 |
| `Int64.WrappingMulByHashPrimeSurjective` | Classmere/Classmere/Course.swift:47 | every `Int` is `n &* 16777619` for some `Int` `n` |
| `Courses.Equal` | Classmere/Classmere/Course.swift:50-52 | `==` compares the two hash values; courses with the same subject code and course number are always `==` |
| `Courses.EqualityIgnoresDescriptiveFields` | Classmere/Classmere/Course.swift:46-52 | two courses that agree on subject code and course number are `==`, whatever their title, abbr or sections |
| `Courses.EqualityIsEquivalence` | Classmere/Classmere/Course.swift:45-52 | `==` is reflexive, symmetric and transitive, and `==` courses have equal `hashValue` |
| `Courses.SameSubjectEqualityIsNumberEquality` | Classmere/Classmere/Course.swift:46-52 | within one subject code, two courses with 64-bit course numbers are `==` exactly when their course numbers are equal |
| `Courses.HashEqualityCollides` | Classmere/Classmere/Course.swift:50-52 | with string hashes 0 for "CS" and 16777619 for "MTH", the key-only courses CS 1 and MTH 0 are `==` although their identities differ |
| `Courses.HashEqualityCollidesForEveryHash` | Classmere/Classmere/Course.swift:46-52 | whatever the string hashes, for two different subject codes every course of the first is `==` to some course, with a 64-bit course number, of the second |
| `Courses.SameIdentityIsHashableEquality` | Classmere/Classmere/Course.swift:45-52 | equality on (subjectCode, courseNumber) is an equivalence that `hashValue` respects, and it never equates different course numbers |
| `Courses.CatalogExample` | Classmere/Classmere/Course.swift:17-33 | the CS 161 record with one section (term Fall 2024, CRN 12345, one meeting time in KEC 1001, MWF 10:00–10:50, capacity 30, enrollment 28) decodes to `abbr` "CS 161", that section with the given fields, waitlist 0 and every other field absent |

## Findings

| source | as written | input that shows it | evidently intended | confidence | as-written member | corrected member |
|---|---|---|---|---|---|---|
| Classmere/Classmere/Course.swift:50-52 | `==` compares `hashValue`s, and `hashValue` mixes the per-process `String.hashValue` of the subject code with the course number | string hashes `hash("CS") == 0` and `hash("MTH") == 16777619`: then `Course(subjectCode: "CS", courseNumber: 1) == Course(subjectCode: "MTH", courseNumber: 0)` | courses are equal exactly when subject code and course number are equal | not executed; collisions exist for every string hash function, and which pairs collide depends on the string hashes | `Courses.HashEqualityCollidesForEveryHash` | `Courses.SameIdentityIsHashableEquality` |

## Left out

- `Classmere/Classmere/TableViewCells/MapCell.swift` is not part of this model. It is UIKit and MapKit view code, with asynchronous geocoding callbacks and floating-point map coordinates.
- The date-formatter block and the `print` calls (`classmereApp/CourseSection.swift:52-67`) are not modelled, except for the trap of the force-unwrap at line 52. The block stores nothing, so no decoded field depends on whether the date parses. The model has no input for the parse, so this fact is not stated as a lemma.
- `String.hashValue` is left arbitrary: it is a parameter `strHash` of the hashing members, and every lemma about hashing holds for every `strHash`.
- `Int.hashValue` is taken to be the integer itself, as in Swift releases before 4.2. Later releases seed it per process, which the model does not capture.
- JSON numbers are integers. Fractional numbers, and the truncation `.int` and `.intValue` apply to them, are not modelled. Nor are numbers outside the 64-bit range.
- `Json.AsIntValue`: a string is read as a number only when it is an optional `-` followed by decimal digits, and as 0 otherwise. SwiftyJSON parses strings with `NSDecimalNumber`, which also accepts other forms, so `"2.5"` reads as 2 and `"1e3"` as 1000 there but as 0 in the model. Only strings without a digit, which both read as 0, are described by a lemma (`Json.IntValueOfDigitlessString`).
- `CourseSections.DecodeSectionFields`: the integer-field policy is stated only for missing keys, `null` and numbers. The decoder's results for booleans, strings, arrays and objects are computed by `AsIntValue` but not described by the contract.
- `Courses.SameSubjectEqualityIsNumberEquality`: available only for course numbers within the 64-bit range, because `Int` cannot hold others.
- A trap stops the whole process in the source. The model returns a `Failure` value instead, and does not model what the rest of the app does after it.
