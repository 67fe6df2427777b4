/** The records of the tutoring backend and the rules its model layer
    enforces when they are stored: the day codes of an availability slot,
    the slot's time check and uniqueness key, the teacher-profile location
    check, the certificate upload path and the delete overrides that remove
    a certificate file before its record. */
module Models {
  import opened Wrappers

  // ---------------------------------------------------------------------
  // Days and times
  // ---------------------------------------------------------------------

  /** `Availability.DAY_CHOICES`: the seven values of `days_of_week`. */
  datatype Day = MON | TUE | WED | THU | FRI | SAT | SUN

  /** The stored three-letter codes, Monday first. */
  const DayCodes: seq<string> := ["MON", "TUE", "WED", "THU", "FRI", "SAT", "SUN"]

  function DayCode(d: Day): (code: string)
    ensures code in DayCodes
  {
    match d
    case MON => "MON"
    case TUE => "TUE"
    case WED => "WED"
    case THU => "THU"
    case FRI => "FRI"
    case SAT => "SAT"
    case SUN => "SUN"
  }

  /** The day a stored code stands for; `None` for a code outside the choices. */
  function ParseDay(code: string): (r: Option<Day>)
    ensures r.Some? <==> code in DayCodes
    ensures r.Some? ==> DayCode(r.value) == code
  {
    if code == "MON" then Some(MON)
    else if code == "TUE" then Some(TUE)
    else if code == "WED" then Some(WED)
    else if code == "THU" then Some(THU)
    else if code == "FRI" then Some(FRI)
    else if code == "SAT" then Some(SAT)
    else if code == "SUN" then Some(SUN)
    else None
  }

  /** Exactly seven codes, all different, and each names the day it parses to. */
  lemma DayChoices()
    ensures |DayCodes| == 7 && Distinct(DayCodes)
    ensures forall d: Day :: ParseDay(DayCode(d)) == Some(d)
  {
    forall d: Day ensures ParseDay(DayCode(d)) == Some(d) {
      match d
      case MON =>
      case TUE =>
      case WED =>
      case THU =>
      case FRI =>
      case SAT =>
      case SUN =>
    }
  }

  const MinutesPerDay := 1440

  /** A time of day, in minutes after midnight. */
  type Time = m: int | 0 <= m < MinutesPerDay

  // ---------------------------------------------------------------------
  // Identities and rows
  // ---------------------------------------------------------------------

  type UserId = nat
  type TeacherId = nat
  type SlotId = int

  /** A `TeacherProfile` row: its id and the user it belongs to. */
  datatype TeacherProfile = TeacherProfile(id: TeacherId, user: UserId)

  /** A stored `Availability` row. */
  datatype Slot = Slot(tutor: TeacherId, day: Day, start: Time, end: Time)

  /** Some profile in the snapshot belongs to `user`. */
  predicate HasProfile(profiles: seq<TeacherProfile>, user: UserId)
  {
    exists i :: 0 <= i < |profiles| && profiles[i].user == user
  }

  /** `TeacherProfile.objects.filter(user=user).first()`: the id of the first
      profile of `user` in table order. */
  function FirstProfileOf(profiles: seq<TeacherProfile>, user: UserId): (r: Option<TeacherId>)
    ensures r.None? <==> !HasProfile(profiles, user)
    ensures r.Some? ==> exists i :: 0 <= i < |profiles| && profiles[i] == TeacherProfile(r.value, user)
                                    && forall j :: 0 <= j < i ==> profiles[j].user != user
  {
    if profiles == [] then None
    else if profiles[0].user == user then Some(profiles[0].id)
    else
      var r := FirstProfileOf(profiles[1..], user);
      assert forall i :: 1 <= i < |profiles| ==> profiles[i] == profiles[1..][i - 1];
      r
  }

  // ---------------------------------------------------------------------
  // Availability.clean / save and the unique_together key
  // ---------------------------------------------------------------------

  const InvalidTimeRange := "End time must be after start time."

  /** `Availability.clean`: the time check runs only when both times are set,
      and then demands that the slot starts before it ends. */
  function CleanAvailability(start: Option<Time>, end: Option<Time>): (r: Outcome<string>)
    ensures r.Fail? <==> start.Some? && end.Some? && start.value >= end.value
    ensures r.Fail? ==> r.error == InvalidTimeRange
  {
    if start.Some? && end.Some? && start.value >= end.value then Fail(InvalidTimeRange) else Pass
  }

  /** `unique_together = ('tutor', 'start_time', 'end_time')`: the day is not
      part of the key. */
  datatype StorageKey = StorageKey(tutor: TeacherId, start: Time, end: Time)

  function StorageKeyOf(s: Slot): StorageKey
  {
    StorageKey(s.tutor, s.start, s.end)
  }

  /** No two rows share a storage key. */
  ghost predicate KeysUnique(rows: map<SlotId, Slot>)
  {
    forall i, j :: i in rows && j in rows && i != j ==> StorageKeyOf(rows[i]) != StorageKeyOf(rows[j])
  }

  /** What every stored table satisfies: each slot starts before it ends and
      the storage keys are unique. */
  ghost predicate TableValid(rows: map<SlotId, Slot>)
  {
    (forall id :: id in rows ==> rows[id].start < rows[id].end) && KeysUnique(rows)
  }

  /** A row other than `target` already holds the storage key of `s`. */
  predicate Clashes(rows: map<SlotId, Slot>, target: SlotId, s: Slot)
  {
    exists id :: id in rows && id != target && StorageKeyOf(rows[id]) == StorageKeyOf(s)
  }

  /** The field values of an `Availability` instance when `save` is called:
      a field may still be unset. */
  datatype Draft = Draft(tutor: Option<TeacherId>, day: Option<Day>, start: Option<Time>, end: Option<Time>)

  /** What `Availability.save` does with a draft: `clean` runs first and its
      ValidationError stops the save; the database then refuses a NULL
      tutor, start or end column, or a second row with the same storage
      key (IntegrityError). A draft without a day is refused as well: the
      model has no value for the empty string Django would store there. */
  datatype SaveOutcome = Saved(id: SlotId, slot: Slot) | CleanFailed(message: string) | IntegrityFailed

  function SaveOutcomeOf(rows: map<SlotId, Slot>, target: SlotId, d: Draft): (r: SaveOutcome)
    ensures r.Saved? <==>
              CleanAvailability(d.start, d.end).Pass? && d.tutor.Some? && d.day.Some? && d.start.Some? && d.end.Some?
              && !Clashes(rows, target, Slot(d.tutor.value, d.day.value, d.start.value, d.end.value))
    ensures r.Saved? ==> r.id == target && r.slot == Slot(d.tutor.value, d.day.value, d.start.value, d.end.value)
    ensures r.Saved? ==> r.slot.start < r.slot.end
    ensures r.CleanFailed? <==> CleanAvailability(d.start, d.end).Fail?
  {
    match CleanAvailability(d.start, d.end)
    case Fail(msg) => CleanFailed(msg)
    case Pass =>
      if d.tutor.None? || d.day.None? || d.start.None? || d.end.None? then IntegrityFailed
      else
        var s := Slot(d.tutor.value, d.day.value, d.start.value, d.end.value);
        if Clashes(rows, target, s) then IntegrityFailed else Saved(target, s)
  }

  /** The table after a save with outcome `out`: only a successful save writes. */
  function Persist(rows: map<SlotId, Slot>, out: SaveOutcome): map<SlotId, Slot>
  {
    if out.Saved? then rows[out.id := out.slot] else rows
  }

  /** `save` never breaks the table invariant: no slot with start >= end and
      no duplicate storage key is ever stored. */
  lemma SaveKeepsTableValid(rows: map<SlotId, Slot>, target: SlotId, d: Draft)
    requires TableValid(rows)
    ensures TableValid(Persist(rows, SaveOutcomeOf(rows, target, d)))
  {
    var out := SaveOutcomeOf(rows, target, d);
    if out.Saved? {
      var rows' := rows[target := out.slot];
      forall i, j | i in rows' && j in rows' && i != j
        ensures StorageKeyOf(rows'[i]) != StorageKeyOf(rows'[j])
      {
        if i == target {
          assert !(j in rows && j != target && StorageKeyOf(rows[j]) == StorageKeyOf(out.slot));
        } else if j == target {
          assert !(i in rows && i != target && StorageKeyOf(rows[i]) == StorageKeyOf(out.slot));
        }
      }
    }
  }

  /** Two slots of one tutor with the same times are refused even on
      different days: the storage key has no day. */
  lemma SameTimesOtherDayRefused(rows: map<SlotId, Slot>, id: SlotId, target: SlotId, d: Day)
    requires id in rows && id != target && rows[id].day != d
    ensures !SaveOutcomeOf(rows, target, Draft(Some(rows[id].tutor), Some(d), Some(rows[id].start), Some(rows[id].end))).Saved?
  {
    var s := rows[id];
    var t := Slot(s.tutor, d, s.start, s.end);
    assert StorageKeyOf(rows[id]) == StorageKeyOf(t);
    assert Clashes(rows, target, t);
  }

  /** The part of `CustomUser` that `set_location` changes. */
  class CustomUser {
    var location: Option<string>

    constructor (location: Option<string>)
      ensures this.location == location
    {
      this.location := location;
    }
  }

  /** The `Availability` table. Rows are keyed by id; `nextId` is the next
      id the database hands out. */
  class AvailabilityTable {
    var rows: map<SlotId, Slot>
    var nextId: SlotId

    ghost predicate Valid()
      reads this
    {
      TableValid(rows) && forall id :: id in rows ==> id < nextId
    }

    constructor ()
      ensures Valid() && rows == map[]
    {
      rows := map[];
      nextId := 1;
    }

    /** `Availability.save`: `clean` first, then the store. A draft without a
        primary key is inserted under a fresh id; one with a key replaces
        the row with that id. */
    method Save(pk: Option<SlotId>, d: Draft) returns (out: SaveOutcome)
      requires Valid()
      modifies this
      ensures Valid()
      ensures out == SaveOutcomeOf(old(rows), if pk.Some? then pk.value else old(nextId), d)
      ensures rows == Persist(old(rows), out)
      ensures nextId == if out.Saved? && out.id >= old(nextId) then out.id + 1 else old(nextId)
    {
      var target := if pk.Some? then pk.value else nextId;
      out := SaveOutcomeOf(rows, target, d);
      SaveKeepsTableValid(rows, target, d);
      if out.Saved? {
        rows := rows[target := out.slot];
        if target >= nextId {
          nextId := target + 1;
        }
      }
    }
  }

  // ---------------------------------------------------------------------
  // TeacherProfile.clean
  // ---------------------------------------------------------------------

  /** A location value as Python sees it: absent or empty is falsy. */
  predicate IsSet(location: Option<string>)
  {
    location.Some? && location.value != ""
  }

  const LocationMissing := "User must update their location before creating a teacher profile."

  /** `TeacherProfile.clean`: rejected, under the `user` key, when the user has no location. */
  function CleanTeacherProfile(userLocation: Option<string>): (r: Outcome<(string, string)>)
    ensures r.Pass? <==> IsSet(userLocation)
    ensures r.Fail? ==> r.error == ("user", LocationMissing)
  {
    if IsSet(userLocation) then Pass else Fail(("user", LocationMissing))
  }

  // ---------------------------------------------------------------------
  // Certificates: upload path and delete ordering
  // ---------------------------------------------------------------------

  /** An `AcademicProfile` or a `Qualification`; `certificate` is the stored
      file name, empty when no file is attached. */
  datatype Credential =
    | AcademicProfile(teacher: TeacherId, degree: string, certificate: string)
    | Qualification(teacher: TeacherId, skill: string, certificate: string)

  /** The folder level of the upload path: the degree of an academic
      profile, the skill of a qualification. */
  function CertificateLabel(c: Credential): string
  {
    if c.AcademicProfile? then c.degree else c.skill
  }

  /** Index of the first '/' in `s`. */
  function SlashIndex(s: string): (i: nat)
    requires '/' in s
    ensures i < |s| && s[i] == '/'
    ensures forall k :: 0 <= k < i ==> s[k] != '/'
  {
    if s[0] == '/' then 0
    else
      assert '/' in s[1..] by {
        var k :| 0 <= k < |s| && s[k] == '/';
        assert s[1..][k - 1] == '/';
      }
      1 + SlashIndex(s[1..])
  }

  /** The '/'-separated segments of a path. */
  function Split(s: string): (parts: seq<string>)
    ensures |parts| >= 1
    decreases |s|
  {
    if '/' in s then
      var i := SlashIndex(s);
      [s[..i]] + Split(s[i + 1..])
    else [s]
  }

  lemma {:induction false} SplitJoin(a: string, b: string)
    requires '/' !in a
    ensures Split(a + "/" + b) == [a] + Split(b)
  {
    var s := a + "/" + b;
    assert s[|a|] == '/';
    var i := SlashIndex(s);
    assert i == |a|;
    assert s[..i] == a;
    assert s[i + 1..] == b;
  }

  /** A final segment without '/' stays a segment of its own. */
  lemma {:induction false} SplitAppend(a: string, b: string)
    requires '/' !in b
    ensures Split(a + "/" + b) == Split(a) + [b]
    decreases |a|
  {
    var s := a + "/" + b;
    if '/' in a {
      var i := SlashIndex(a);
      assert s[i] == '/';
      assert SlashIndex(s) == i;
      assert s[..i] == a[..i];
      assert s[i + 1..] == a[i + 1..] + "/" + b;
      SplitAppend(a[i + 1..], b);
    } else {
      SplitJoin(a, b);
    }
  }

  /** Two paths that end in a segment without '/' agree on that segment
      and on everything before it. */
  lemma LastSegment(a1: string, b1: string, a2: string, b2: string)
    requires '/' !in b1 && '/' !in b2
    requires a1 + "/" + b1 == a2 + "/" + b2
    ensures a1 == a2 && b1 == b2
  {
    var s := a1 + "/" + b1;
    assert s[|a1|] == '/' && s[|a2|] == '/';
    assert forall k :: |a1| < k < |s| ==> s[k] == b1[k - |a1| - 1];
    assert forall k :: |a2| < k < |s| ==> s[k] == b2[k - |a2| - 1];
    assert a1 == s[..|a1|] && a2 == s[..|a2|];
    assert b1 == s[|a1| + 1..] && b2 == s[|a2| + 1..];
  }

  /** Two paths that start with a segment without '/' agree on that
      segment and on everything after it. */
  lemma FirstSegment(a1: string, b1: string, a2: string, b2: string)
    requires '/' !in a1 && '/' !in a2
    requires a1 + "/" + b1 == a2 + "/" + b2
    ensures a1 == a2 && b1 == b2
  {
    var s := a1 + "/" + b1;
    assert s[|a1|] == '/' && s[|a2|] == '/';
    assert forall k :: 0 <= k < |a1| ==> s[k] == a1[k];
    assert forall k :: 0 <= k < |a2| ==> s[k] == a2[k];
    assert a1 == s[..|a1|] && a2 == s[..|a2|];
    assert b1 == s[|a1| + 1..] && b2 == s[|a2| + 1..];
  }

  /** The upload path splits at the two separators it adds after
      `certificates`, when the user name holds no '/'. */
  lemma SplitUploadPath(username: string, folder: string, filename: string)
    requires '/' !in username
    ensures Split("certificates/" + username + "/" + folder + "/" + filename)
            == ["certificates", username] + Split(folder + "/" + filename)
  {
    var rest := folder + "/" + filename;
    assert "certificates/" + username + "/" + folder + "/" + filename
           == "certificates" + "/" + (username + "/" + rest);
    SplitJoin("certificates", username + "/" + rest);
    SplitJoin(username, rest);
  }

  /** With no '/' in the user name or the folder, the folder is the third
      segment. */
  lemma SplitByFolder(username: string, folder: string, filename: string)
    ensures '/' !in username && '/' !in folder ==>
              Split("certificates/" + username + "/" + folder + "/" + filename)
              == ["certificates", username, folder] + Split(filename)
  {
    if '/' !in username && '/' !in folder {
      SplitUploadPath(username, folder, filename);
      SplitJoin(folder, filename);
    }
  }

  /** With no '/' in the user name or the file name, the file name is the
      last segment. */
  lemma SplitByFileName(username: string, folder: string, filename: string)
    ensures '/' !in username && '/' !in filename ==>
              Split("certificates/" + username + "/" + folder + "/" + filename)
              == ["certificates", username] + Split(folder) + [filename]
  {
    if '/' !in username && '/' !in filename {
      SplitUploadPath(username, folder, filename);
      SplitAppend(folder, filename);
    }
  }

  /** `certificate_upload_to`: the path `certificates/<username>/<folder>/<filename>`.
      When the user name holds no '/', the path splits into `certificates`
      and the user name followed by the segments of the folder and the file
      name; which of those segments belong to the folder is fixed when the
      folder or the file name holds no '/'. */
  function CertificateUploadTo(c: Credential, username: string, filename: string): (path: string)
    ensures |path| > 13 && path[..13] == "certificates/"
    ensures '/' !in username && '/' !in CertificateLabel(c) ==>
              Split(path) == ["certificates", username, CertificateLabel(c)] + Split(filename)
    ensures '/' !in username && '/' !in filename ==>
              Split(path) == ["certificates", username] + Split(CertificateLabel(c)) + [filename]
  {
    var folder := CertificateLabel(c);
    var path := "certificates/" + username + "/" + folder + "/" + filename;
    SplitByFolder(username, folder, filename);
    SplitByFileName(username, folder, filename);
    path
  }

  /** Different owners, labels or file names never share an upload path,
      as long as the user names hold no '/' and either both labels or both
      file names hold none. */
  lemma UploadPathsDistinct(c1: Credential, u1: string, f1: string, c2: Credential, u2: string, f2: string)
    requires '/' !in u1 && '/' !in u2
    requires ('/' !in CertificateLabel(c1) && '/' !in CertificateLabel(c2)) || ('/' !in f1 && '/' !in f2)
    requires CertificateUploadTo(c1, u1, f1) == CertificateUploadTo(c2, u2, f2)
    ensures u1 == u2 && CertificateLabel(c1) == CertificateLabel(c2) && f1 == f2
  {
    var l1, l2 := CertificateLabel(c1), CertificateLabel(c2);
    assert CertificateUploadTo(c1, u1, f1) == "certificates/" + u1 + "/" + l1 + "/" + f1;
    assert CertificateUploadTo(c2, u2, f2) == "certificates/" + u2 + "/" + l2 + "/" + f2;
    JoinedPathsDistinct(u1, l1, f1, u2, l2, f2);
  }

  /** The same fact on the joined strings themselves. */
  lemma JoinedPathsDistinct(u1: string, l1: string, f1: string, u2: string, l2: string, f2: string)
    requires '/' !in u1 && '/' !in u2
    requires ('/' !in l1 && '/' !in l2) || ('/' !in f1 && '/' !in f2)
    requires "certificates/" + u1 + "/" + l1 + "/" + f1 == "certificates/" + u2 + "/" + l2 + "/" + f2
    ensures u1 == u2 && l1 == l2 && f1 == f2
  {
    var p := "certificates/" + u1 + "/" + l1 + "/" + f1;
    var q := "certificates/" + u2 + "/" + l2 + "/" + f2;
    assert p[13..] == u1 + "/" + (l1 + "/" + f1);
    assert q[13..] == u2 + "/" + (l2 + "/" + f2);
    FirstSegment(u1, l1 + "/" + f1, u2, l2 + "/" + f2);
    if '/' !in f1 && '/' !in f2 {
      LastSegment(l1, f1, l2, f2);
    } else {
      FirstSegment(l1, f1, l2, f2);
    }
  }

  /** The guard above is needed: a '/' in both a label and a file name lets
      two different credentials share a path. */
  lemma UploadPathsCollide()
    ensures CertificateUploadTo(AcademicProfile(0, "BSc/Math", ""), "ana", "a.pdf")
            == CertificateUploadTo(AcademicProfile(0, "BSc", ""), "ana", "Math/a.pdf")
  {
    var joined := "certificates/ana/BSc/Math/a.pdf";
    assert "certificates/" + "ana" + "/" + "BSc/Math" + "/" + "a.pdf" == joined;
    assert "certificates/" + "ana" + "/" + "BSc" + "/" + "Math/a.pdf" == joined;
  }

  /** The two credential tables. */
  datatype CredentialTable = AcademicProfiles | Qualifications

  /** The storage calls the delete overrides make, in order. */
  datatype StoreEvent = FileRemoved(name: string) | RecordRemoved(table: CredentialTable, id: nat)

  /** The files a credential's certificate occupies in storage. */
  function CertificateFiles(c: Credential): set<string>
  {
    if c.certificate == "" then {} else {c.certificate}
  }

  /** The storage call `certificates.delete(save=False)` makes: none for an
      empty file field. */
  function FileEvents(c: Credential): seq<StoreEvent>
  {
    if c.certificate == "" then [] else [FileRemoved(c.certificate)]
  }

  /** The credential records and the file storage their certificates live in. */
  class CredentialStore {
    var academicProfiles: map<nat, Credential>
    var qualifications: map<nat, Credential>
    var files: set<string>
    ghost var events: seq<StoreEvent>

    constructor ()
      ensures academicProfiles == map[] && qualifications == map[] && files == {} && events == []
    {
      academicProfiles, qualifications, files := map[], map[], {};
      events := [];
    }

    /** `FieldFile.delete(save=False)`: removes the named file, if any. */
    method RemoveCertificate(c: Credential)
      modifies this
      ensures files == old(files) - CertificateFiles(c)
      ensures events == old(events) + FileEvents(c)
      ensures academicProfiles == old(academicProfiles) && qualifications == old(qualifications)
    {
      if c.certificate != "" {
        files := files - {c.certificate};
        events := events + [FileRemoved(c.certificate)];
      }
    }

    /** `AcademicProfile.delete`: the certificate file goes first, then the
        record; the other records and files stay. */
    method DeleteAcademicProfile(id: nat)
      requires id in academicProfiles
      modifies this
      ensures academicProfiles == old(academicProfiles) - {id}
      ensures qualifications == old(qualifications)
      ensures files == old(files) - CertificateFiles(old(academicProfiles[id]))
      ensures events == old(events) + FileEvents(old(academicProfiles[id])) + [RecordRemoved(AcademicProfiles, id)]
    {
      RemoveCertificate(academicProfiles[id]);
      academicProfiles := academicProfiles - {id};
      events := events + [RecordRemoved(AcademicProfiles, id)];
    }

    /** `Qualification.delete`: same order as for academic profiles. */
    method DeleteQualification(id: nat)
      requires id in qualifications
      modifies this
      ensures qualifications == old(qualifications) - {id}
      ensures academicProfiles == old(academicProfiles)
      ensures files == old(files) - CertificateFiles(old(qualifications[id]))
      ensures events == old(events) + FileEvents(old(qualifications[id])) + [RecordRemoved(Qualifications, id)]
    {
      RemoveCertificate(qualifications[id]);
      qualifications := qualifications - {id};
      events := events + [RecordRemoved(Qualifications, id)];
    }
  }
}
