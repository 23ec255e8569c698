/** One offered section of a course and its field-by-field JSON decoder
    (`CourseSection.init(sectionJSON:)`). */
module CourseSections {
  import opened Results
  import opened Json

  /** A section record. `sectionType` is the source's `type` field. */
  datatype Section = Section(
    term: Option<string>,
    crn: Option<int>,
    instructor: Option<string>,
    buildingCode: Option<string>,
    days: Option<string>,
    startTime: Option<string>,
    endTime: Option<string>,
    roomNumber: Option<string>,
    sectionType: Option<string>,
    status: Option<string>,
    capacity: Option<int>,
    currentEnrollment: Option<int>,
    waitlistCurrent: Option<int>,
    fees: Option<string>,
    restrictions: Option<string>)

  /** Where decoding a catalog record stops. */
  datatype DecodeError =
    | MissingRequiredField(key: string)            // a force-unwrapped course key is not of the right type
    | NoMeetingTime                                // `meetingTimes[0]` on an empty array
    | MissingStartTime                             // `startTime!` on a first meeting time without a string `startTime`
    | InSection(index: nat, cause: DecodeError)    // the section at `index` of a course stopped with `cause`

  /** The keys the section decoder reads from the section object itself. */
  const SectionKeys: set<string> := {
    "term", "crn", "instructor", "meetingTimes", "type", "status", "fees",
    "restrictions", "waitlistcurrent", "currentEnrollment", "capacity"
  }

  /** The fields read from the section object itself, each under its own policy. */
  ghost predicate TopLevelFieldsFrom(j: JSON, sec: Section) {
    && StringField(j, "term", sec.term)
    && IntField(j, "crn", sec.crn)
    && StringField(j, "instructor", sec.instructor)
    && StringField(j, "type", sec.sectionType)
    && StringField(j, "status", sec.status)
    && StringField(j, "fees", sec.fees)
    && StringField(j, "restrictions", sec.restrictions)
    && IntField(j, "waitlistcurrent", sec.waitlistCurrent)
    && IntField(j, "currentEnrollment", sec.currentEnrollment)
    && IntField(j, "capacity", sec.capacity)
  }

  /** The five meeting fields, read from the meeting-time object `m`. */
  ghost predicate MeetingFieldsFrom(m: JSON, sec: Section) {
    && StringField(m, "buildingCode", sec.buildingCode)
    && StringField(m, "days", sec.days)
    && StringField(m, "startTime", sec.startTime)
    && StringField(m, "endTime", sec.endTime)
    && StringField(m, "roomNumber", sec.roomNumber)
  }

  predicate NoMeetingFields(sec: Section) {
    sec.buildingCode.None? && sec.days.None? && sec.startTime.None? && sec.endTime.None? && sec.roomNumber.None?
  }

  function MakeSection(j: JSON, buildingCode: Option<string>, days: Option<string>, startTime: Option<string>,
                       endTime: Option<string>, roomNumber: Option<string>): Section
  {
    Section(
      term := AsString(Member(j, "term")),
      crn := Some(AsIntValue(Member(j, "crn"))),
      instructor := AsString(Member(j, "instructor")),
      buildingCode := buildingCode,
      days := days,
      startTime := startTime,
      endTime := endTime,
      roomNumber := roomNumber,
      sectionType := AsString(Member(j, "type")),
      status := AsString(Member(j, "status")),
      capacity := Some(AsIntValue(Member(j, "capacity"))),
      currentEnrollment := Some(AsIntValue(Member(j, "currentEnrollment"))),
      waitlistCurrent := Some(AsIntValue(Member(j, "waitlistcurrent"))),
      fees := AsString(Member(j, "fees")),
      restrictions := AsString(Member(j, "restrictions")))
  }

  /** Decode a section object (`CourseSection.init(sectionJSON:)`). */
  function DecodeSection(j: JSON): (r: Result<Section, DecodeError>)
    ensures r.Failure? ==> r.error == NoMeetingTime || r.error == MissingStartTime
    ensures r.Success? ==> r.value.crn.Some? && r.value.capacity.Some? && r.value.currentEnrollment.Some? && r.value.waitlistCurrent.Some?
  {
    match AsArray(Member(j, "meetingTimes"))
    case None => Success(MakeSection(j, None, None, None, None, None))
    case Some(meetingTimes) =>
      if |meetingTimes| == 0 then Failure(NoMeetingTime)
      else
        var first := meetingTimes[0];
        var startTime := AsString(Member(first, "startTime"));
        if startTime.None? then Failure(MissingStartTime)
        else
          Success(MakeSection(j,
            AsString(Member(first, "buildingCode")),
            AsString(Member(first, "days")),
            startTime,
            AsString(Member(first, "endTime")),
            AsString(Member(first, "roomNumber"))))
  }

  /** Without a `meetingTimes` array the meeting fields are absent; with one, they come from
      its first element only, and an empty array or a first element without a string
      `startTime` stops the decoder. The other fields follow their key's policy. */
  lemma DecodeSectionFields(j: JSON)
    ensures !HasArray(j, "meetingTimes") ==> DecodeSection(j).Success? && NoMeetingFields(DecodeSection(j).value)
    ensures HasArray(j, "meetingTimes") && j.fields["meetingTimes"].items == [] ==> DecodeSection(j) == Failure(NoMeetingTime)
    ensures HasArray(j, "meetingTimes") && j.fields["meetingTimes"].items != [] ==>
              var first := j.fields["meetingTimes"].items[0];
              && (DecodeSection(j).Success? <==> HasString(first, "startTime"))
              && (DecodeSection(j).Failure? ==> DecodeSection(j).error == MissingStartTime)
              && (DecodeSection(j).Success? ==> MeetingFieldsFrom(first, DecodeSection(j).value))
    ensures DecodeSection(j).Success? ==> TopLevelFieldsFrom(j, DecodeSection(j).value)
  {
  }

  /** A key the decoder does not read, whatever it holds, changes nothing. */
  lemma UnreadKeyIgnored(m: map<string, JSON>, k: string, v: JSON)
    requires k !in SectionKeys
    ensures DecodeSection(JObject(m[k := v])) == DecodeSection(JObject(m))
  {
    var j, j' := JObject(m), JObject(m[k := v]);
    forall key | key in SectionKeys
      ensures Member(j', key) == Member(j, key)
    {
      assert key != k;
    }
  }

  /** `waitlistCurrent` is read from the lower-case key: the camel-case spelling is ignored. */
  lemma CamelCaseWaitlistIgnored(m: map<string, JSON>, v: JSON)
    ensures DecodeSection(JObject(m["waitlistCurrent" := v])) == DecodeSection(JObject(m))
  {
    UnreadKeyIgnored(m, "waitlistCurrent", v);
  }

  /** Only the first meeting time is read: arrays that agree on it decode alike. */
  lemma OnlyFirstMeetingTimeRead(m: map<string, JSON>, a: seq<JSON>, b: seq<JSON>)
    requires |a| > 0 && |b| > 0 && a[0] == b[0]
    ensures DecodeSection(JObject(m["meetingTimes" := JArray(a)])) == DecodeSection(JObject(m["meetingTimes" := JArray(b)]))
  {
    var ja, jb := JObject(m["meetingTimes" := JArray(a)]), JObject(m["meetingTimes" := JArray(b)]);
    assert Member(ja, "meetingTimes") == JArray(a) && Member(jb, "meetingTimes") == JArray(b);
    forall key | key != "meetingTimes"
      ensures Member(ja, key) == Member(jb, key)
    {
    }
  }

  /** Appending meeting times after the first leaves the section as it was. */
  lemma LaterMeetingTimesIgnored(m: map<string, JSON>, a: seq<JSON>, more: seq<JSON>)
    requires |a| > 0
    ensures DecodeSection(JObject(m["meetingTimes" := JArray(a + more)])) == DecodeSection(JObject(m["meetingTimes" := JArray(a)]))
  {
    OnlyFirstMeetingTimeRead(m, a + more, a);
  }
}
