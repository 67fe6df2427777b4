# Tutoring marketplace backend: a verified model of its rule logic

This project is a Dafny model of the rule logic of a Django backend that
matches tutors with students. The database is modelled as in-memory tables.
On top of those tables the model states, and proves, what the backend
promises in these areas:

- **Availability.** A teacher's weekly slots are stored as day, start and
  end, with times in minutes of the day. The model covers:
  - the search for tutors whose slot contains a desired window;
  - the grouping of one teacher's slots by time frame;
  - the time check and the storage key (tutor, start, end) enforced on save;
  - the batch create and batch edit endpoints.
- **Request-time validators.** The model covers:
  - the time-range and duplicate-slot checks;
  - one teacher profile per user;
  - at most two active job posts per user;
  - one bid per (tutor, job post);
  - the certificate file type and size checks.
- **Stored records.** The model covers:
  - the certificate upload path;
  - the delete overrides, which remove a certificate file before its record;
  - the location check `TeacherProfile.clean` defines. Django's model
    forms run it; the API's create path does not, because the serializer's
    `is_valid` and `save` never call `full_clean`.
- **Location update.** The model covers `set_location` twice. The first
  version is the code as written, which crashes once a location is stored
  and on a value the geography field does not accept.
  The second is the store/ask/refuse decision it evidently intends, with
  the distance between the two locations as an input in metres.
- **Permission.** The model covers the authenticated-and-not-banned check.

Modules:

| file | module | contents |
|---|---|---|
| wrappers.dfy | `Wrappers` | `Option`, `Result`, `Outcome`, `Distinct` |
| models.dfy | `Models` | days, slots, `Availability.clean`/`save`, the `AvailabilityTable` class, the `CustomUser` location field, `TeacherProfile.clean`, upload path, the `CredentialStore` class and its deletes |
| serializers.dfy | `Serializers` | the `validate` methods, `validate_certificates`, `ContactRequestSerializer.to_representation` |
| utils.dfy | `Utils` | `find_available_tutors`, `get_availability_grouped_by_time` |
| views.dfy | `Views` | `set_location`, `create_availability_slots`, `edit_availability_slots` |
| permissions.dfy | `Permissions` | `IsAuthenticatedAndNotBanned.has_permission` |

Imperative code is modelled as Dafny methods with loops, each proved
against a specification function:
- the search loop that fills a set;
- the grouping loop that fills a dictionary;
- the in-place loop that writes the teacher id into each slot object;
- the save loops of both batch views;
- the save and delete methods of the two table classes.

Every fold that stands for a loop drops its last element when it
recurses, so it follows the order the loop runs in. These folds are
`InsertAll`, `EditRunOf`, `CreateProfiles`, `CreatePosts`, `CreateBids`,
`DaysFor` and `DistinctKeys`; the active-post count `ActivePostCount`
is written the same way. The queries `FirstProfileOf`, `CoveringSlots` and
`SlotsOf` recurse on the tail, which keeps table order.

The availability table has two shapes. The views and `Models` hold it as
the id-keyed map of the `AvailabilityTable` class, which is what saves
update. The read-only queries in `Utils` take it as `seq<Slot>`: the rows
in the order the database returns them, which is the order those queries
depend on and which a map does not record.

Notes on behaviour the model keeps as the code has it:

- As written, `set_location` hands the raw request value to
  `calculate_distance`, which reads `x` and `y` from both arguments
  (base/utils.py:11). Once a location is stored, every request with a
  location therefore raises (see Findings). Without a stored location the
  raw value is assigned to the user's geography `PointField`
  (base/models.py:11), which accepts only a geometry literal; any other
  value, such as "23.8,90.4,5", raises there as well.
- The intended decision stores a location only when the user has none.
  When a location is already stored, both of its remaining branches answer
  without writing. This holds even when the client confirms with `update`
  (`Views.ConfirmedUpdateNotStored`).
- The comment at base/serializer.py:189 says five posts. The check itself
  allows at most two active posts per user, and the model follows the check.
- `edit_availability_slots` treats an `id` of 0 like a missing id, because
  `not slot_id` is true for 0.
- A partial edit validates only the fields it carries. The save then runs
  `Availability.clean` on the merged values. If that check fails, or the
  storage key clashes, Django raises an error the view does not catch. The
  result is a server error, and the entries saved before it stay saved.
- The serializer's duplicate check keys on day and times. The storage key
  has no day. A slot on another day with the same times therefore passes
  the serializer and is then refused by the database
  (`Serializers.DuplicateKeysDisagree`), which the views turn into a server
  error.
- `ContactRequestSerializer.to_representation` adds `teacher_phone` only
  for an accepted request. For any other request the key is absent.
  `TeacherProfile` declares no `phone` field, so the revealed value is null
  unless such an attribute exists.
- The availability serializer reads the requesting user from its context.
  In the model that user is a parameter, so the validator means what it
  evidently should. The as-written lookup is modelled separately (see
  Findings).
- `TeacherProfileSerializer.validate` reads the requesting user from its
  context in the same way. The create and edit views build it without one.
  The model keeps the user as a parameter, and the as-written lookup
  appears in Findings.
- An upload path splits back into its parts only when the parts hold no
  '/'. Django's user name validator admits no '/', and an uploaded file
  keeps only its base name, so the file name holds none either; a degree
  or a skill may hold one. Two credentials share a path only with a '/' in
  both the label and the file name (`Models.UploadPathsCollide`), which
  uploaded files never have; otherwise the path determines its parts
  (`Models.UploadPathsDistinct`).

## Model

| member | source | states |
|---|---|---|
| Models.ParseDay | base/models.py:133-141 | a code parses to a day exactly when it is one of the seven choices, and the day's code is that code |
| Models.DayChoices | base/models.py:133-141 | there are exactly seven distinct codes, MON to SUN, and each parses back to its day |
| Models.FirstProfileOf | base/views/genarel_views.py:78 | the first-profile query finds nothing exactly when the user has no profile; otherwise it finds that user's profile at the lowest table position that has one |
| Models.CleanAvailability | base/models.py:165-174 | the time check fails exactly when both times are set and start >= end, with the invalid-range message |
| Models.SaveOutcomeOf | base/models.py:176-178 | a save succeeds exactly when clean passes, the tutor, start and end are set, a day is set (see "## Left out") and no other row has the same (tutor, start, end); a saved slot has start < end; a failing clean stops the save |
| Models.SaveKeepsTableValid | base/models.py:162 | a save never stores a slot with start >= end and never creates two rows with the same storage key |
| Models.SameTimesOtherDayRefused | base/models.py:162 | a slot with the same tutor and times as another row is refused even on a different day |
| Models.AvailabilityTable.Save | base/models.py:176-178 | clean runs before the store; the table changes only on success, under the given id or a fresh one, and stays valid |
| Models.CleanTeacherProfile | base/models.py:120-125 | the profile check passes exactly when the user's location is set, else fails under `user` |
| Models.CertificateUploadTo | base/models.py:14-15 | the path starts with `certificates/`. With a user name without '/' it splits into `certificates`, then the username, then the degree or skill, then the file name. It does so when either the label or the file name holds no '/' |
| Models.UploadPathsCollide | base/models.py:14-15 | the degree `BSc/Math` with file `a.pdf` and the degree `BSc` with file `Math/a.pdf` get the same path |
| Models.UploadPathsDistinct | base/models.py:14-15 | two upload paths are equal only for the same username, folder and file name, whenever the usernames hold no '/' and either both labels or both file names hold none |
| Models.CredentialStore.RemoveCertificate | base/models.py:57 | deleting the file field removes its file, if any, and touches no record |
| Models.CredentialStore.DeleteAcademicProfile | base/models.py:53-58 | the certificate file is removed first and then the record; other records and files stay |
| Models.CredentialStore.DeleteQualification | base/models.py:74-79 | the same ordering and frame for qualifications |
| Serializers.CheckTimeRange | base/serializer.py:18-23 | the time check fails exactly when both times are given and start >= end, under `end_time` |
| Serializers.TimeRangeAgreesWithClean | base/serializer.py:20 | the serializer's time rule admits exactly what the model's clean admits |
| Serializers.ValidateAvailability | base/serializer.py:16-39 | a reversed range is refused under `end_time`; otherwise the data is refused exactly when day and both times are given and the user already has that slot; an accepted payload comes back unchanged |
| Serializers.MissingFields | base/serializer.py:10 | a full payload misses nothing exactly when day, start and end are all given |
| Serializers.RunAvailabilityValidation | base/serializer.py:7-39 | a full write lacking a model field is refused with the missing names; otherwise the validation decides |
| Serializers.AcceptedSlotIsNew | base/serializer.py:16-39 | an accepted full payload has start < end, passes clean and names a slot the user does not have |
| Serializers.DuplicateKeysDisagree | base/serializer.py:27-35 | a concrete payload that the serializer accepts and the storage key refuses |
| Serializers.ValidateAvailabilityAsWritten | base/serializer.py:25 | with a request in the context it is the validation above; without one, every payload with a consistent range fails with a lookup error |
| Serializers.ContextlessValidationFails | base/serializer.py:25 | validation without a context fails for every payload with a consistent range |
| Serializers.ValidateJobPostAvailability | base/serializer.py:224-231 | the data passes unchanged exactly when it is not the case that both times are given with start >= end |
| Serializers.ValidateTeacherProfile | base/serializer.py:96-100 | the check fails exactly on a create when the user already has a profile; an update always passes |
| Serializers.ValidateTeacherProfileAsWritten | base/serializer.py:96-100 | with a request in the context it is the check above; without one, it fails with a lookup error before checking anything |
| Serializers.ContextlessProfileValidationFails | base/serializer.py:97 | without a context, every create and update fails, including the ones the check admits |
| Serializers.CreatesKeepOneProfilePerUser | base/serializer.py:96-100 | creates through the check never give a user a second profile |
| Serializers.ActivePostCount | base/serializer.py:191 | the count is the number of rows of the user with status `active` (the multiplicity of that row in the table), and at most the table size |
| Serializers.ValidateJobPost | base/serializer.py:188-194 | a post is admitted exactly when the user holds fewer than two active posts |
| Serializers.ActivePostCeiling | base/serializer.py:188-194 | no series of creates takes a user above two active posts |
| Serializers.ValidateBid | base/serializer.py:206-214 | a missing job post raises a lookup error; otherwise a bid is refused exactly when the same (tutor, post) bid exists |
| Serializers.OneBidPerJob | base/serializer.py:206-214 | bids placed through the check stay unique per (tutor, post) |
| Serializers.Lower | base/serializer.py:122 | lower-casing keeps the length and maps each character |
| Serializers.LowerIdempotent | base/serializer.py:122 | lower-casing twice is lower-casing once |
| Serializers.ValidateCertificates | base/serializer.py:120-161 | in both the academic-profile and the qualification serializer: a `null` file, which the nullable field (base/models.py:47, 68) lets through, raises a lookup error. A file passes unchanged exactly when its lower-cased name ends in a whitelisted extension and its size is at most 5 MiB. The type error comes before the size error |
| Serializers.CertificateCheckIgnoresCase | base/serializer.py:122 | a name and its lower-cased form are judged alike |
| Serializers.UpperCaseExtensionAccepted | base/serializer.py:122-127 | `CV.PDF` passes the type check |
| Serializers.LastCharDecides | base/serializer.py:123-126 | a name whose lower-cased last character is neither `f` nor `g` is refused |
| Serializers.InnerExtensionRejected | base/serializer.py:123-127 | `scan.pdf.exe` is refused: only the end of the name counts |
| Serializers.SizeCeilingInclusive | base/serializer.py:130-132 | exactly 5 MiB passes and one byte more fails |
| Serializers.ToRepresentation | base/serializer.py:244-252 | `teacher_phone` is added only for an accepted request; every other entry is unchanged, and nothing changes otherwise |
| Serializers.PhoneRevealedOnlyWithNumber | base/serializer.py:247-251 | a non-null phone appears exactly when the profile exists and carries a phone |
| Utils.CoveringSlots | base/utils.py:72-76 | the query keeps exactly the slots on the day that contain the window |
| Utils.CoveringSlotsKeepsOrder | base/utils.py:72-76 | the query keeps table order: filtering a concatenation concatenates the filtered parts |
| Utils.CoveringSlotsCounts | base/utils.py:72-76 | each covering slot occurs in the result as often as in the table, and no other slot occurs |
| Utils.ListOf | base/utils.py:85 | the list holds every member of the set, once each |
| Utils.FindAvailableTutors | base/utils.py:47-85 | a reversed or empty window finds nobody; otherwise a tutor is listed exactly when one of their slots lies on the day with start <= desired start and end >= desired end; no tutor twice |
| Utils.MondayMorningExample | base/utils.py:72-76 | a 09:00-12:00 Monday slot serves 10:00-11:00 but not 08:00-11:00 or Tuesday |
| Utils.InclusiveContainment | base/utils.py:74-75 | a slot equal to the window qualifies; one starting a minute later does not |
| Utils.NarrowerWindowKeepsTutor | base/utils.py:72-76 | a tutor found for a window is found for every non-empty window inside it |
| Utils.SlotsOf | base/utils.py:95 | the query keeps exactly the teacher's slots |
| Utils.SlotsOfKeepsOrder | base/utils.py:95 | the query keeps table order: filtering a concatenation concatenates the filtered parts |
| Utils.SlotsOfCounts | base/utils.py:95 | each of the teacher's slots occurs in the result as often as in the table, and no other slot occurs |
| Utils.DistinctKeys | base/utils.py:96-105 | the dictionary keys are distinct and are exactly the time frames present |
| Utils.ValuesInOrder | base/utils.py:108 | the result lists the groups in key order |
| Utils.AccumulateSlot | base/utils.py:97-106 | one loop step keeps the dictionary equal to the grouping of the slots seen |
| Utils.AddSlot | base/utils.py:99-106 | one loop body files the slot under its frame and keeps the dictionary equal to the grouping of the slots seen |
| Utils.GroupByTime | base/utils.py:89-109 | the result is the grouping of the teacher's slots: one group per frame in first-occurrence order, each with its days |
| Utils.AccumulatedIsGrouping | base/utils.py:108 | the finished dictionary read in key order is the grouping |
| Utils.OneGroupPerTimeFrame | base/utils.py:99-105 | no two groups share a frame, and a frame has a group exactly when some slot has it |
| Utils.DayEntriesMatchSlots | base/utils.py:106 | the day counts over all groups add up to the number of slots |
| Utils.DaysForMembers | base/utils.py:106 | a day is in a group exactly when a slot with that frame has that day |
| Utils.GroupsInFirstOccurrenceOrder | base/utils.py:96-108 | a later group's frame first occurs after an earlier group's frame |
| Utils.DayAttribute | base/utils.py:106 | the day attribute exists only under `days_of_week` |
| Utils.GroupingReading | base/utils.py:106 | a grouping that completes is the intended one |
| Utils.GroupingAsWrittenFails | base/utils.py:106 | reading `day_of_week` fails for every non-empty slot list |
| Utils.GroupingCorrected | base/utils.py:106 | reading `days_of_week` gives the intended grouping |
| Permissions.HasPermission | base/custom_permission.py:9-18 | access is granted exactly to an authenticated user whose `banned` flag is not true |
| Permissions.UnauthenticatedDenied | base/custom_permission.py:10-11 | no user, or an unauthenticated one, is refused |
| Permissions.BannedDenied | base/custom_permission.py:15 | an authenticated banned user is refused |
| Permissions.NotBannedAllowed | base/custom_permission.py:15 | an authenticated unbanned user is admitted |
| Permissions.MissingBanFlagAllowed | base/custom_permission.py:16-18 | an authenticated user without the attribute is admitted |
| Views.LocationDecision | base/views/genarel_views.py:40-61 | the intended decision: a missing location gives the 400 reply; a store happens exactly when there was no previous location; confirmation is asked exactly when there was one, the distance is >= 200 m, and `update` is false |
| Views.StoredLocationNeverReplaced | base/views/genarel_views.py:48-65 | a stored location is never changed; an unset one becomes the requested one when that is set |
| Views.ConfirmedUpdateNotStored | base/views/genarel_views.py:51-61 | with a previous location, `update` true answers no-update and keeps the old location |
| Views.SetLocation | base/views/genarel_views.py:34-65 | the reply is the intended decision and the user's location is the stored location |
| Views.SetLocationAsWritten | base/views/genarel_views.py:40-65 | as written, a request with a location ends in a server error exactly when one is stored (base/utils.py:11 reads `x` and `y` from the raw request value) or the value is not a geometry literal the `PointField` of base/models.py:11 accepts; a missing location gives the 400 reply; a first location that the field accepts is stored |
| Views.StoredLocationRequestCrashes | base/views/genarel_views.py:44-61 | with a stored location the code crashes where the intended decision asks or answers no-update; wherever the code replies, it replies as the intended decision |
| Views.RequestedSlots | base/views/genarel_views.py:81-84 | the slot list is taken exactly when the body, or its `slots` entry, is a non-empty list |
| Views.WithTutor | base/views/genarel_views.py:87-88 | every entry gets the teacher id and keeps its other fields |
| Views.AttachTutor | base/views/genarel_views.py:87-88 | the loop writes the teacher id into each entry in place |
| Views.DraftsOf | base/views/genarel_views.py:93 | one draft per entry, in order, each carrying that entry's tutor, day and times |
| Views.ItemErrors | base/views/genarel_views.py:91-92 | an entry has no error exactly when it passes the full validation |
| Views.InsertAll | base/views/genarel_views.py:93 | the saved rows get consecutive fresh ids in request order, hold the drafts' values with start < end, and leave older rows alone; all are saved unless one raised, and a batch stops only at a draft whose save the table refuses |
| Views.InsertAllStopsAtFailure | base/views/genarel_views.py:93 | after a save raises, later entries change nothing |
| Views.InsertAllKeepsTableValid | base/views/genarel_views.py:93 | the batch save keeps the table valid |
| Views.SaveEach | base/views/genarel_views.py:93 | the save loop does exactly what the batch fold says |
| Views.CreateEffect | base/views/genarel_views.py:73-95 | a missing profile or slot list is refused and nothing changes. Otherwise the reply lists validation errors exactly when some entry, with the teacher id attached, fails validation; those are the per-entry errors, and nothing changes. A save is attempted exactly when every entry passes; then the new table and next id are those of the save loop `InsertAll` over the entries, and the reply is 201 with the saved slots exactly when no save was refused, else a server error |
| Views.CreatedSlotsMatchRequest | base/views/genarel_views.py:78-95 | a created batch had every entry pass validation. It is each requested slot, in order, owned by the teacher, with start < end, stored as returned |
| Views.CreateKeepsExistingRows | base/views/genarel_views.py:91-94 | creation never alters or drops an existing row and keeps the table valid |
| Views.CreateAvailabilitySlots | base/views/genarel_views.py:73-95 | the reply and the new table are those of the create effect, and the table stays valid |
| Views.ReadOnlyTutorDropped | base/serializer.py:10-13 | as written, an entry reaches storage without a tutor and is refused |
| Views.MergedDraft | base/views/genarel_views.py:127-129 | a partial update replaces the given fields and keeps the others and the tutor |
| Views.EditStep | base/views/genarel_views.py:117-132 | an entry without id or with id 0 is an id error; one not owned by the teacher is a not-found error; for an owned entry, it is rejected exactly when the partial validation fails, and then carries that failure; a validated entry is stored as the stored row merged with the provided fields when that save succeeds, and the step crashes exactly when that save is refused |
| Views.EditRunStopsAtCrash | base/views/genarel_views.py:128-129 | once a save raises, later entries change nothing |
| Views.EditRunOf | base/views/genarel_views.py:114-132 | the edit loop over the entries in order: every row id stays, each entry adds at most one updated slot or one error, and a crash leaves an entry unaccounted |
| Views.EditPartition | base/views/genarel_views.py:114-132 | unless a save raised, every entry lands in exactly one of the two lists |
| Views.EditTouchesOnlyOwnRows | base/views/genarel_views.py:116-132 | only the teacher's rows change, no row is added or removed, the table stays valid, and every updated slot is the teacher's |
| Views.EditRefusedEntryChangesNothing | base/views/genarel_views.py:116-125 | an entry without a usable id or with a foreign id adds one error and changes nothing else |
| Views.EditEffect | base/views/genarel_views.py:106-137 | a missing profile or slot list is refused unchanged. Otherwise the new table is that of the entry-by-entry run, a server error happens exactly when a save raised, and the reply carries the run's updated slots and errors. The reply is 200 exactly when a slot was updated; `errors` appears only when non-empty, and is absent exactly when every requested entry was updated |
| Views.EditEntry | base/views/genarel_views.py:117-132 | one loop step does what the edit step says and writes only the updated row |
| Views.ApplyEdits | base/views/genarel_views.py:114-132 | the loop's updated slots, errors, crash and new table are those of the edit run, and the table stays valid |
| Views.EditAvailabilitySlots | base/views/genarel_views.py:101-137 | the reply and the new table are those of the edit effect, and the table stays valid |

## Left out

- `calculate_distance` and `string_to_point` (geodesic distance, float parsing and rounding). In the intended location decision the distance is an input in whole metres.
- Google ID-token login, JWT issuance and refresh: external services and library wrappers.
- The other views, the URL routing, the settings and the admin registration: ORM and framework plumbing whose only logic is queryset filtering.
- Output formatting: `TeacherProfileSerializer.to_representation`, the documentation examples, the printed debug lines and the response message texts of `set_location`.
- Parsing of request fields: times and days arrive already parsed, a slot object is a record, and a non-object list entry is not modelled. The `update` flag of `set_location` is a boolean, whereas the code tests the truthiness of whatever the client sends, so the string "false" counts as true there.
- Authentication in the batch views: the caller is a user id. The `IsAuthenticated` guard is not re-modelled beside `Permissions`.
- Lower-casing handles ASCII letters only; full Unicode case mapping is not modelled.
- The storage backend's file name normalisation, and the file I/O behind the delete overrides. The deletes are modelled as changes to a set of file names plus an event log.
- Bulk deletes and cascade deletes, which bypass the `delete` overrides.
- Concurrent requests and database-level race arbitration.
- The ordering (`ordering` meta option, by username then start) in which the grouping query returns a teacher's slots: the model takes the table order as given.
- Views.LocationDecision: the requested location is taken to be a point the geography field accepts; the crash on any other value is modelled only in `Views.SetLocationAsWritten`.
- Views.CreateEffect: the list serializer's `errors` for a refused batch are modelled as one optional failure per entry, not as the framework's nested error dictionaries.
- Models.CertificateUploadTo: the split into segments is stated only for a user name without '/' and a label or a file name without '/'; with a '/' in both, `Models.UploadPathsCollide` shows the segments are ambiguous.
- Models.SaveOutcomeOf: a draft without a day is refused here, whereas `days_of_week` has neither `null` nor a default, so Django would store the empty string; no view saves such a draft, because a create requires the day and an edit merges with the stored one.
- Views.EditPartition: states the counts; the input order of the two lists follows from the fold `Views.EditRunOf`, which handles entries one at a time in order.

## Findings

| source | as written | input that shows it | evidently intended | confidence | as-written member | corrected member |
|---|---|---|---|---|---|---|
| base/utils.py:106 | each slot's day is read as `slot.day_of_week`, a field the model does not have (it is `days_of_week`) | any teacher with at least one slot: the lookup raises | append `slot.days_of_week` | not executed; high | Utils.GroupingAsWrittenFails | Utils.GroupByTime |
| base/serializer.py:25 | the validator reads `self.context['request']`, but the views build the serializer with no context (base/views/genarel_views.py:91, 127) | any payload whose time range is consistent, e.g. MON 09:00-10:00: the lookup raises | the requesting user is available to the validator | not executed; high | Serializers.ContextlessValidationFails | Serializers.ValidateAvailability |
| base/serializer.py:12 | `tutor` is read-only, so the teacher id that create_availability_slots writes into each entry never reaches the instance | any valid batch, e.g. one MON 09:00-10:00 entry: the insert lacks the tutor column and the database refuses it | the new slot is stored for the caller's teacher profile | not executed; medium | Views.ReadOnlyTutorDropped | Views.CreateAvailabilitySlots |
| base/views/genarel_views.py:49 | the raw request value is passed to `calculate_distance`, which reads `x` and `y` from it (base/utils.py:11) | a user with a stored location sends any location, e.g. "23.8,90.4,5": the attribute lookup raises | parse the request value into a point first, then compare distances | not executed; high | Views.StoredLocationRequestCrashes | Views.LocationDecision |
| base/serializer.py:97 | the validator reads `self.context['request']`, but the create and edit views build the serializer with no context (base/views/profile_views.py:20, 42; base/views.py:72, 94) | any create or edit of a teacher profile, e.g. the first profile of a user: the lookup raises | the requesting user is available to the validator | not executed; high | Serializers.ContextlessProfileValidationFails | Serializers.ValidateTeacherProfile |
