/** The request-time checks of the serializer layer: the availability time
    and duplicate checks, the one-profile-per-user check, the active job
    post ceiling, the one-bid-per-job check, the certificate type and size
    checks, and the contact-request output that reveals the teacher's phone
    only once a request is accepted. Each check reads a snapshot of the
    tables it queries. */
module Serializers {
  import opened Wrappers
  import opened Models

  /** Why a serializer refuses its input: a validation error under a key
      (`end_time`, `detail`, a field name), or an uncaught lookup error,
      which the framework answers with a server error. */
  datatype Failure =
    | Invalid(key: string, message: string)
    | Required(fields: seq<string>)
    | Fault(reason: string)

  // ---------------------------------------------------------------------
  // AvailabilitySerializer and JobPostAvailabilitySerializer
  // ---------------------------------------------------------------------

  /** The writable fields of an availability payload; a field the request
      leaves out is `None`. */
  datatype AvailabilityData = AvailabilityData(day: Option<Day>, start: Option<Time>, end: Option<Time>)

  const EndBeforeStart := "End time must be after the start time."
  const DuplicateSlot := "This availability slot already exists for this tutor."

  /** The time-range check both availability serializers run: only when
      both times are given, and then the start must precede the end. */
  function CheckTimeRange(start: Option<Time>, end: Option<Time>): (r: Outcome<Failure>)
    ensures r.Fail? <==> start.Some? && end.Some? && start.value >= end.value
    ensures r.Fail? ==> r.error == Invalid("end_time", EndBeforeStart)
  {
    if start.Some? && end.Some? && start.value >= end.value then Fail(Invalid("end_time", EndBeforeStart))
    else Pass
  }

  /** The serializer's time check admits exactly what `Availability.clean`
      admits, so the two layers agree on the time rule. */
  lemma TimeRangeAgreesWithClean(start: Option<Time>, end: Option<Time>)
    ensures CheckTimeRange(start, end).Pass? <==> CleanAvailability(start, end).Pass?
  {
  }

  /** `tutor` belongs to `user`: the join `tutor__user=user`. */
  predicate OwnedBy(profiles: seq<TeacherProfile>, tutor: TeacherId, user: UserId)
  {
    exists i :: 0 <= i < |profiles| && profiles[i].id == tutor && profiles[i].user == user
  }

  /** A stored slot of `user` with exactly this day and time range. */
  predicate SlotExists(profiles: seq<TeacherProfile>, rows: map<SlotId, Slot>, user: UserId, day: Day, start: Time, end: Time)
  {
    exists id :: id in rows && OwnedBy(profiles, rows[id].tutor, user)
                 && rows[id].day == day && rows[id].start == start && rows[id].end == end
  }

  /** `AvailabilitySerializer.validate`, with the requesting user passed in.
      It returns the data unchanged, or refuses a reversed time range under
      `end_time`, or, when day and both times are given, refuses a slot the
      user already has with that day and those times. */
  function ValidateAvailability(data: AvailabilityData, user: UserId, profiles: seq<TeacherProfile>,
                                rows: map<SlotId, Slot>): (r: Result<AvailabilityData, Failure>)
    ensures r.Success? ==> r.value == data
    ensures CheckTimeRange(data.start, data.end).Fail? ==> r == Failure(Invalid("end_time", EndBeforeStart))
    ensures CheckTimeRange(data.start, data.end).Pass? ==>
              (r.Failure? <==> data.day.Some? && data.start.Some? && data.end.Some?
                               && SlotExists(profiles, rows, user, data.day.value, data.start.value, data.end.value))
    ensures r.Failure? && CheckTimeRange(data.start, data.end).Pass? ==> r.error == Invalid("detail", DuplicateSlot)
  {
    match CheckTimeRange(data.start, data.end)
    case Fail(f) => Failure(f)
    case Pass =>
      if data.day.Some? && data.start.Some? && data.end.Some?
         && SlotExists(profiles, rows, user, data.day.value, data.start.value, data.end.value)
      then Failure(Invalid("detail", DuplicateSlot))
      else Success(data)
  }

  /** The field names a full (non-partial) availability payload lacks. */
  function MissingFields(data: AvailabilityData): (r: seq<string>)
    ensures r == [] <==> data.day.Some? && data.start.Some? && data.end.Some?
  {
    (if data.day.None? then ["days_of_week"] else [])
    + (if data.start.None? then ["start_time"] else [])
    + (if data.end.None? then ["end_time"] else [])
  }

  /** `is_valid` on an AvailabilitySerializer: in a full write the three
      model fields are required; then `validate` runs. A partial write
      validates only the fields it carries. */
  function RunAvailabilityValidation(data: AvailabilityData, partial: bool, user: UserId,
                                     profiles: seq<TeacherProfile>, rows: map<SlotId, Slot>): (r: Result<AvailabilityData, Failure>)
    ensures !partial && MissingFields(data) != [] ==> r == Failure(Required(MissingFields(data)))
    ensures partial || MissingFields(data) == [] ==> r == ValidateAvailability(data, user, profiles, rows)
  {
    if !partial && MissingFields(data) != [] then Failure(Required(MissingFields(data)))
    else ValidateAvailability(data, user, profiles, rows)
  }

  /** A full write the serializer accepts names a new slot that `clean`
      will accept: start before end, and no slot of the user has the same
      day and times. */
  lemma AcceptedSlotIsNew(data: AvailabilityData, user: UserId, profiles: seq<TeacherProfile>, rows: map<SlotId, Slot>)
    requires RunAvailabilityValidation(data, false, user, profiles, rows).Success?
    ensures data.day.Some? && data.start.Some? && data.end.Some?
    ensures data.start.value < data.end.value
    ensures CleanAvailability(data.start, data.end).Pass?
    ensures !SlotExists(profiles, rows, user, data.day.value, data.start.value, data.end.value)
  {
  }

  /** The serializer keys duplicates on day and times, the storage on
      tutor and times only. A slot on another day with the same times
      passes the serializer and is then refused by the storage key. */
  lemma DuplicateKeysDisagree()
    ensures var profiles := [TeacherProfile(7, 1)];
            var rows := map[10 := Slot(7, MON, 540, 720)];
            var data := AvailabilityData(Some(TUE), Some(540), Some(720));
            ValidateAvailability(data, 1, profiles, rows).Success?
            && SaveOutcomeOf(rows, 11, Draft(Some(7), Some(TUE), Some(540), Some(720))) == IntegrityFailed
  {
    var profiles := [TeacherProfile(7, 1)];
    var rows := map[10 := Slot(7, MON, 540, 720)];
    assert !SlotExists(profiles, rows, 1, TUE, 540, 720);
    assert Clashes(rows, 11, Slot(7, TUE, 540, 720)) by {
      assert StorageKeyOf(rows[10]) == StorageKeyOf(Slot(7, TUE, 540, 720));
    }
  }

  /** The serializer context as a table of entries; `request` carries the
      requesting user. */
  type Context = map<string, UserId>

  /** `AvailabilitySerializer.validate` as written: after the time check it
      reads `self.context['request']`, which raises when the serializer
      was built without a context. */
  function ValidateAvailabilityAsWritten(data: AvailabilityData, context: Context, profiles: seq<TeacherProfile>,
                                         rows: map<SlotId, Slot>): (r: Result<AvailabilityData, Failure>)
    ensures "request" in context ==> r == ValidateAvailability(data, context["request"], profiles, rows)
    ensures "request" !in context ==> (r.Failure? && r.error.Fault? <==> CheckTimeRange(data.start, data.end).Pass?)
  {
    match CheckTimeRange(data.start, data.end)
    case Fail(f) => Failure(f)
    case Pass =>
      if "request" !in context then Failure(Fault("KeyError: 'request'"))
      else ValidateAvailability(data, context["request"], profiles, rows)
  }

  /** The views build the serializer without a context, so every payload
      with a consistent time range ends in the lookup error, even one that
      names a fresh slot. */
  lemma ContextlessValidationFails(data: AvailabilityData, profiles: seq<TeacherProfile>, rows: map<SlotId, Slot>)
    requires CheckTimeRange(data.start, data.end).Pass?
    ensures ValidateAvailabilityAsWritten(data, map[], profiles, rows) == Failure(Fault("KeyError: 'request'"))
  {
  }

  /** `JobPostAvailabilitySerializer.validate`: the time-range check alone. */
  function ValidateJobPostAvailability(data: AvailabilityData): (r: Result<AvailabilityData, Failure>)
    ensures r.Success? <==> !(data.start.Some? && data.end.Some? && data.start.value >= data.end.value)
    ensures r.Success? ==> r.value == data
    ensures r.Failure? ==> r.error == Invalid("end_time", EndBeforeStart)
  {
    match CheckTimeRange(data.start, data.end)
    case Fail(f) => Failure(f)
    case Pass => Success(data)
  }

  // ---------------------------------------------------------------------
  // TeacherProfileSerializer
  // ---------------------------------------------------------------------

  const ProfileExists := "A teacher profile already exists for this user."

  /** `TeacherProfileSerializer.validate`: a create (`instance` absent) is
      refused when the user already has a profile; an update always passes. */
  function ValidateTeacherProfile(profiles: seq<TeacherProfile>, user: UserId, instance: Option<TeacherId>): (r: Outcome<Failure>)
    ensures r.Fail? <==> instance.None? && HasProfile(profiles, user)
    ensures r.Fail? ==> r.error == Invalid("detail", ProfileExists)
  {
    if HasProfile(profiles, user) && instance.None? then Fail(Invalid("detail", ProfileExists)) else Pass
  }

  /** `TeacherProfileSerializer.validate` as written: the requesting user
      is looked up in the serializer's context before anything else, and a
      missing `request` entry raises a lookup error. */
  function ValidateTeacherProfileAsWritten(profiles: seq<TeacherProfile>, context: Context,
                                           instance: Option<TeacherId>): (r: Outcome<Failure>)
    ensures "request" in context ==> r == ValidateTeacherProfile(profiles, context["request"], instance)
    ensures "request" !in context ==> r == Fail(Fault("KeyError: 'request'"))
  {
    if "request" !in context then Fail(Fault("KeyError: 'request'"))
    else ValidateTeacherProfile(profiles, context["request"], instance)
  }

  /** The create and edit views build the serializer without a context, so
      every create and every update ends in the lookup error, even a create
      by a user without a profile, which the check means to admit. */
  lemma ContextlessProfileValidationFails(profiles: seq<TeacherProfile>, user: UserId, instance: Option<TeacherId>)
    ensures ValidateTeacherProfileAsWritten(profiles, map[], instance) == Fail(Fault("KeyError: 'request'"))
    ensures !HasProfile(profiles, user) || instance.Some? ==> ValidateTeacherProfile(profiles, user, instance) == Pass
  {
  }

  /** No user owns two profiles. */
  predicate OneProfilePerUser(profiles: seq<TeacherProfile>)
  {
    forall i, j :: 0 <= i < j < |profiles| ==> profiles[i].user != profiles[j].user
  }

  /** The profiles table after a series of create requests `(id, user)`,
      each passing through the create-time check before it is stored. */
  function CreateProfiles(profiles: seq<TeacherProfile>, requests: seq<TeacherProfile>): seq<TeacherProfile>
    decreases |requests|
  {
    if requests == [] then profiles
    else
      var before := CreateProfiles(profiles, requests[..|requests| - 1]);
      var p := requests[|requests| - 1];
      if ValidateTeacherProfile(before, p.user, None).Pass? then before + [p] else before
  }

  /** Creates through the serializer never give a user a second profile. */
  lemma {:induction false} CreatesKeepOneProfilePerUser(profiles: seq<TeacherProfile>, requests: seq<TeacherProfile>)
    requires OneProfilePerUser(profiles)
    ensures OneProfilePerUser(CreateProfiles(profiles, requests))
  {
    if requests != [] {
      var before := CreateProfiles(profiles, requests[..|requests| - 1]);
      CreatesKeepOneProfilePerUser(profiles, requests[..|requests| - 1]);
      var p := requests[|requests| - 1];
      if ValidateTeacherProfile(before, p.user, None).Pass? {
        var after := before + [p];
        forall i, j | 0 <= i < j < |after| ensures after[i].user != after[j].user {
          if j == |before| {
            assert !HasProfile(before, p.user);
            assert after[i] == before[i];
          }
        }
      }
    }
  }

  // ---------------------------------------------------------------------
  // JobPostSerializer
  // ---------------------------------------------------------------------

  /** A `JobPost` row: its poster and its status. */
  datatype JobPost = JobPost(postedBy: UserId, status: string)

  /** The ceiling the code enforces. */
  const MaxActivePosts := 2
  const TooManyPosts := "You cannot have more than 2 active job posts."

  /** `JobPost.objects.filter(posted_by=user, status='active').count()`. */
  function ActivePostCount(posts: seq<JobPost>, user: UserId): (n: nat)
    ensures n == multiset(posts)[JobPost(user, "active")]
    ensures n <= |posts|
    decreases |posts|
  {
    if posts == [] then 0
    else
      var init, last := posts[..|posts| - 1], posts[|posts| - 1];
      assert posts == init + [last];
      ActivePostCount(init, user) + (if last == JobPost(user, "active") then 1 else 0)
  }

  /** `JobPostSerializer.validate`: refused once the user holds two or more active posts. */
  function ValidateJobPost(posts: seq<JobPost>, user: UserId): (r: Outcome<Failure>)
    ensures r.Pass? <==> ActivePostCount(posts, user) < MaxActivePosts
    ensures r.Fail? ==> r.error == Invalid("detail", TooManyPosts)
  {
    if ActivePostCount(posts, user) >= MaxActivePosts then Fail(Invalid("detail", TooManyPosts)) else Pass
  }

  /** The posts table after a series of create requests, each validated
      against the table as it stands and stored with its poster and the
      status the new post receives. */
  function CreatePosts(posts: seq<JobPost>, requests: seq<JobPost>): seq<JobPost>
    decreases |requests|
  {
    if requests == [] then posts
    else
      var before := CreatePosts(posts, requests[..|requests| - 1]);
      var p := requests[|requests| - 1];
      if ValidateJobPost(before, p.postedBy).Pass? then before + [p] else before
  }

  /** A third active post is never admitted: starting at or below the
      ceiling, no series of creates takes any user above it. */
  lemma {:induction false} ActivePostCeiling(posts: seq<JobPost>, requests: seq<JobPost>, user: UserId)
    requires ActivePostCount(posts, user) <= MaxActivePosts
    ensures ActivePostCount(CreatePosts(posts, requests), user) <= MaxActivePosts
  {
    if requests != [] {
      var before := CreatePosts(posts, requests[..|requests| - 1]);
      ActivePostCeiling(posts, requests[..|requests| - 1], user);
      var p := requests[|requests| - 1];
      if ValidateJobPost(before, p.postedBy).Pass? {
        var after := before + [p];
        assert after[..|after| - 1] == before;
        if p == JobPost(user, "active") {
          assert ActivePostCount(before, user) < MaxActivePosts;
        }
      }
    }
  }

  // ---------------------------------------------------------------------
  // BidJobSerializer
  // ---------------------------------------------------------------------

  type JobPostId = nat

  /** A `BidJob` row: the bidding user and the job post. */
  datatype Bid = Bid(tutor: UserId, jobPost: JobPostId)

  const AlreadyBid := "You have already placed a bid on this job post."

  /** `BidJobSerializer.validate`. The job post comes from the serializer
      context, which holds it only when the request named an existing
      post; otherwise the lookup raises. A second bid by the same user on
      the same post is refused. */
  function ValidateBid(bids: seq<Bid>, tutor: UserId, jobPost: Option<JobPostId>): (r: Outcome<Failure>)
    ensures jobPost.None? ==> r.Fail? && r.error.Fault?
    ensures jobPost.Some? ==> (r.Fail? <==> Bid(tutor, jobPost.value) in bids)
    ensures jobPost.Some? && r.Fail? ==> r.error == Invalid("detail", AlreadyBid)
  {
    if jobPost.None? then Fail(Fault("KeyError: 'job_post'"))
    else if Bid(tutor, jobPost.value) in bids then Fail(Invalid("detail", AlreadyBid))
    else Pass
  }

  /** The bids table after a series of bid requests, each validated
      against the table as it stands. */
  function CreateBids(bids: seq<Bid>, requests: seq<Bid>): seq<Bid>
    decreases |requests|
  {
    if requests == [] then bids
    else
      var before := CreateBids(bids, requests[..|requests| - 1]);
      var b := requests[|requests| - 1];
      if ValidateBid(before, b.tutor, Some(b.jobPost)).Pass? then before + [b] else before
  }

  /** Bids placed through the serializer keep one bid per (tutor, job post). */
  lemma {:induction false} OneBidPerJob(bids: seq<Bid>, requests: seq<Bid>)
    requires Distinct(bids)
    ensures Distinct(CreateBids(bids, requests))
  {
    if requests != [] {
      var before := CreateBids(bids, requests[..|requests| - 1]);
      OneBidPerJob(bids, requests[..|requests| - 1]);
      var b := requests[|requests| - 1];
      if ValidateBid(before, b.tutor, Some(b.jobPost)).Pass? {
        var after := before + [b];
        forall i, j | 0 <= i < j < |after| ensures after[i] != after[j] {
          if j == |before| {
            assert after[i] == before[i];
          }
        }
      }
    }
  }

  // ---------------------------------------------------------------------
  // validate_certificates (AcademicProfileSerializer, QualificationSerializer)
  // ---------------------------------------------------------------------

  /** An uploaded file: its name and its size in bytes. */
  datatype UploadedFile = UploadedFile(name: string, size: nat)

  const MaxCertificateSize := 5 * 1024 * 1024
  const AllowedExtensions: seq<string> := [".pdf", ".jpg", ".jpeg", ".png"]
  const WrongType := "Only PDF and image files (JPG, JPEG, PNG) are allowed."
  const TooLarge := "File size cannot exceed 5 MB."

  /** Lower-casing of one character; only A-Z change. */
  function LowerChar(c: char): char
  {
    if 'A' <= c <= 'Z' then (c as int - 'A' as int + 'a' as int) as char else c
  }

  function Lower(s: string): (r: string)
    ensures |r| == |s|
    ensures forall i :: 0 <= i < |s| ==> r[i] == LowerChar(s[i])
  {
    if s == [] then [] else [LowerChar(s[0])] + Lower(s[1..])
  }

  /** Lower-casing twice is lower-casing once. */
  lemma LowerIdempotent(s: string)
    ensures Lower(Lower(s)) == Lower(s)
  {
  }

  predicate EndsWith(s: string, suffix: string)
  {
    |suffix| <= |s| && s[|s| - |suffix|..] == suffix
  }

  /** The lower-cased name ends in one of the whitelisted extensions. */
  predicate AllowedFileName(name: string)
  {
    exists k :: 0 <= k < |AllowedExtensions| && EndsWith(Lower(name), AllowedExtensions[k])
  }

  /** The error a `null` certificate raises: the field accepts `null`, and
      the validator reads `name` from it all the same. */
  const NoFileFault := "AttributeError: 'NoneType' object has no attribute 'name'"

  /** `validate_certificates`: the file type is checked first, then the
      size; a file passes unchanged only if both hold. `None` is an explicit
      `null`, which the field lets through to the validator. */
  function ValidateCertificates(value: Option<UploadedFile>): (r: Result<UploadedFile, Failure>)
    ensures value.None? ==> r == Failure(Fault(NoFileFault))
    ensures r.Success? <==> value.Some? && AllowedFileName(value.value.name) && value.value.size <= MaxCertificateSize
    ensures r.Success? ==> r.value == value.value
    ensures value.Some? && !AllowedFileName(value.value.name) ==> r == Failure(Invalid("certificates", WrongType))
    ensures value.Some? && AllowedFileName(value.value.name) && value.value.size > MaxCertificateSize ==>
              r == Failure(Invalid("certificates", TooLarge))
  {
    match value
    case None => Failure(Fault(NoFileFault))
    case Some(f) =>
      if !AllowedFileName(f.name) then Failure(Invalid("certificates", WrongType))
      else if f.size > MaxCertificateSize then Failure(Invalid("certificates", TooLarge))
      else Success(f)
  }

  /** The type check ignores case: a name and its lower-cased form are
      judged alike. */
  lemma {:induction false} CertificateCheckIgnoresCase(f: UploadedFile)
    ensures ValidateCertificates(Some(f)).Success? <==> ValidateCertificates(Some(UploadedFile(Lower(f.name), f.size))).Success?
  {
    LowerIdempotent(f.name);
  }

  /** An upper-case extension passes the type check. */
  lemma UpperCaseExtensionAccepted()
    ensures ValidateCertificates(Some(UploadedFile("CV.PDF", 1000))).Success?
  {
    var l := Lower("CV.PDF");
    assert l[2] == '.' && l[3] == 'p' && l[4] == 'd' && l[5] == 'f';
    assert l[2..] == ".pdf";
    assert EndsWith(l, AllowedExtensions[0]);
  }

  /** A whitelisted extension in the middle of the name does not count:
      only the end of the name is checked. */
  lemma InnerExtensionRejected()
    ensures ValidateCertificates(Some(UploadedFile("scan.pdf.exe", 1000))) == Failure(Invalid("certificates", WrongType))
  {
    LastCharDecides("scan.pdf.exe");
  }

  /** Every whitelisted extension ends in `f` or `g`, so a name whose
      lower-cased last character is neither is refused. */
  lemma LastCharDecides(name: string)
    requires name != [] && LowerChar(name[|name| - 1]) != 'f' && LowerChar(name[|name| - 1]) != 'g'
    ensures !AllowedFileName(name)
  {
    var l := Lower(name);
    forall k | 0 <= k < |AllowedExtensions| ensures !EndsWith(l, AllowedExtensions[k]) {
      var ext := AllowedExtensions[k];
      assert ext[|ext| - 1] == 'f' || ext[|ext| - 1] == 'g';
      if EndsWith(l, ext) {
        SuffixLastChar(l, ext);
      }
    }
  }

  /** A string ends with the last character of each of its non-empty
      suffixes. */
  lemma SuffixLastChar(s: string, suffix: string)
    requires EndsWith(s, suffix) && suffix != []
    ensures s[|s| - 1] == suffix[|suffix| - 1]
  {
    assert s[|s| - |suffix|..][|suffix| - 1] == s[|s| - 1];
  }

  /** The size ceiling is inclusive: exactly 5 MiB passes, one byte more fails. */
  lemma SizeCeilingInclusive(name: string)
    requires AllowedFileName(name)
    ensures ValidateCertificates(Some(UploadedFile(name, 5 * 1024 * 1024))).Success?
    ensures ValidateCertificates(Some(UploadedFile(name, 5 * 1024 * 1024 + 1))) == Failure(Invalid("certificates", TooLarge))
  {
  }

  // ---------------------------------------------------------------------
  // ContactRequestSerializer.to_representation
  // ---------------------------------------------------------------------

  /** A JSON value of the serialized output. */
  datatype Value = Null | Str(s: string) | Num(n: int) | Other

  /** The teacher a contact request points at, as `hasattr(teacher, 'phone')`
      sees it; `phone` is `None` when the profile has no such attribute. */
  datatype ContactTeacher = ContactTeacher(phone: Option<string>)

  /** A `ContactRequest` with its status and its teacher, `None` when the
      related profile no longer exists. */
  datatype ContactRequest = ContactRequest(status: string, teacher: Option<ContactTeacher>)

  const PhoneKey := "teacher_phone"

  /** The phone value shown for an accepted request. */
  function PhoneValue(teacher: Option<ContactTeacher>): Value
  {
    match teacher
    case None => Null
    case Some(t) => if t.phone.Some? then Str(t.phone.value) else Null
  }

  /** `ContactRequestSerializer.to_representation`: starting from the base
      representation, the phone entry is added only for an accepted request;
      every other entry is left as it was. */
  method ToRepresentation(instance: ContactRequest, base: map<string, Value>) returns (representation: map<string, Value>)
    ensures instance.status == "accepted" ==> PhoneKey in representation && representation[PhoneKey] == PhoneValue(instance.teacher)
    ensures instance.status != "accepted" ==> representation == base
    ensures forall k :: k != PhoneKey ==> (k in representation <==> k in base)
    ensures forall k :: k != PhoneKey && k in base ==> representation[k] == base[k]
  {
    representation := base;
    if instance.status == "accepted" {
      match instance.teacher
      case None =>
        representation := representation[PhoneKey := Null];
      case Some(t) =>
        representation := representation[PhoneKey := if t.phone.Some? then Str(t.phone.value) else Null];
    }
  }

  /** A phone number is revealed only when the teacher's profile exists
      and carries one. */
  lemma PhoneRevealedOnlyWithNumber(teacher: Option<ContactTeacher>)
    ensures PhoneValue(teacher) != Null <==> teacher.Some? && teacher.value.phone.Some?
  {
  }
}
