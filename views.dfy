/** The request handlers that carry rule logic: the location update with
    its confirmation step, and the batch creation and batch editing of a
    teacher's availability slots. The database is the `AvailabilityTable`
    of the model layer and a snapshot of the teacher profiles. */
module Views {
  import opened Wrappers
  import opened Models
  import opened Serializers

  // ---------------------------------------------------------------------
  // set_location
  // ---------------------------------------------------------------------

  /** A move of at least this many metres asks the client to confirm. */
  const UpdateThresholdMetres := 200

  /** The replies of `set_location`. Only `LocationRequired` is a 400. */
  datatype LocationReply =
    | LocationRequired
    | UpdateAvailable(distance: nat)
    | NoUpdateNeeded
    | LocationUpdated

  /** The branch `set_location` takes when the distance between the stored
      and the new location is known. `distance` is that distance in metres,
      as the view compares it. */
  function LocationDecision(previous: Option<string>, location: Option<string>, update: bool,
                            distance: nat): (r: LocationReply)
    ensures !IsSet(location) <==> r == LocationRequired
    ensures r == LocationUpdated <==> IsSet(location) && !IsSet(previous)
    ensures r.UpdateAvailable? <==>
              IsSet(location) && IsSet(previous) && distance >= UpdateThresholdMetres && !update
    ensures r.UpdateAvailable? ==> r.distance == distance
  {
    if !IsSet(location) then LocationRequired
    else if IsSet(previous) then
      if distance >= UpdateThresholdMetres && !update then UpdateAvailable(distance)
      else NoUpdateNeeded
    else LocationUpdated
  }

  /** The location the user has after the request. */
  function StoredLocation(previous: Option<string>, location: Option<string>, update: bool,
                          distance: nat): Option<string>
  {
    if LocationDecision(previous, location, update, distance) == LocationUpdated then location else previous
  }

  /** A stored location is never replaced: it changes only from unset to
      the requested value, and a user who had a location keeps it. */
  lemma StoredLocationNeverReplaced(previous: Option<string>, location: Option<string>, update: bool, distance: nat)
    ensures IsSet(previous) ==> StoredLocation(previous, location, update, distance) == previous
    ensures !IsSet(location) ==> StoredLocation(previous, location, update, distance) == previous
    ensures IsSet(location) && !IsSet(previous) ==> StoredLocation(previous, location, update, distance) == location
    ensures IsSet(previous) || IsSet(location) ==> IsSet(StoredLocation(previous, location, update, distance))
  {
  }

  /** Confirming with `update` does not store the new location either: the
      reply says no update is needed and the old location stays. */
  lemma ConfirmedUpdateNotStored(previous: Option<string>, location: Option<string>, distance: nat)
    requires IsSet(previous) && IsSet(location)
    ensures LocationDecision(previous, location, true, distance) == NoUpdateNeeded
    ensures StoredLocation(previous, location, true, distance) == previous
  {
  }

  /** What a `set_location` request ends in as the code is written: a reply,
      or a server error. */
  datatype LocationResult = Replied(reply: LocationReply) | LocationCrashed

  /** `set_location` as written. The view hands the raw request value to
      `calculate_distance`, which reads the `x` and `y` attributes of both
      arguments. A value parsed from the request body has neither, so once
      a location is stored every request with a location raises and ends
      in a server error. Without a stored location the raw value is
      assigned to the user's geography field and saved; `parses` says
      whether that field accepts it (a geometry literal), and any other
      value raises there too. */
  function SetLocationAsWritten(previous: Option<string>, location: Option<string>, update: bool,
                                parses: bool): (r: LocationResult)
    ensures r == LocationCrashed <==> IsSet(location) && (IsSet(previous) || !parses)
    ensures r == Replied(LocationRequired) <==> !IsSet(location)
    ensures r == Replied(LocationUpdated) <==> IsSet(location) && !IsSet(previous) && parses
  {
    if !IsSet(location) then Replied(LocationRequired)
    else if IsSet(previous) then LocationCrashed
    else if parses then Replied(LocationUpdated)
    else LocationCrashed
  }

  /** The discrepancy: with a stored location, the code as written crashes
      on every request, while the decision the view evidently intends asks
      for confirmation or answers that no update is needed. Where the code
      replies at all, it replies as the intended decision does. */
  lemma StoredLocationRequestCrashes(previous: Option<string>, location: Option<string>, update: bool, parses: bool,
                                     distance: nat)
    ensures IsSet(previous) && IsSet(location) ==>
              SetLocationAsWritten(previous, location, update, parses) == LocationCrashed
              && LocationDecision(previous, location, update, distance) in {UpdateAvailable(distance), NoUpdateNeeded}
    ensures SetLocationAsWritten(previous, location, update, parses).Replied? ==>
              SetLocationAsWritten(previous, location, update, parses).reply
                == LocationDecision(previous, location, update, distance)
  {
  }

  /** `set_location` with the distance check it evidently intends: refuses
      a missing location, answers without storing when the user already has
      one, and stores the location otherwise. */
  method SetLocation(user: CustomUser, location: Option<string>, update: bool, distance: nat)
    returns (reply: LocationReply)
    modifies user
    ensures reply == LocationDecision(old(user.location), location, update, distance)
    ensures user.location == StoredLocation(old(user.location), location, update, distance)
  {
    if !IsSet(location) {
      return LocationRequired;
    }
    var previous := user.location;
    if IsSet(previous) {
      if distance >= UpdateThresholdMetres && !update {
        return UpdateAvailable(distance);
      }
      return NoUpdateNeeded;
    }
    user.location := location;
    reply := LocationUpdated;
  }

  // ---------------------------------------------------------------------
  // Slot payloads and responses
  // ---------------------------------------------------------------------

  /** One slot object of a request body; a key the client leaves out is
      `None`. */
  datatype SlotData = SlotData(id: Option<int>, day: Option<Day>, start: Option<Time>, end: Option<Time>,
                               tutor: Option<TeacherId>)

  /** The fields the availability serializer writes. */
  function FieldsOf(s: SlotData): AvailabilityData
  {
    AvailabilityData(s.day, s.start, s.end)
  }

  /** The value under `slots` in an object body. */
  datatype SlotsField = SlotList(items: seq<SlotData>) | NotAList

  /** A request body: a bare list of slots, or an object that may carry
      them under `slots`. */
  datatype Payload = ListBody(items: seq<SlotData>) | ObjectBody(slots: Option<SlotsField>)

  /** The slot list both batch views accept: the body itself when it is a
      list, else its `slots` entry; `None` unless that is a non-empty list. */
  function RequestedSlots(p: Payload): (r: Option<seq<SlotData>>)
    ensures r.Some? ==> r.value != []
    ensures r.Some? <==>
              (p.ListBody? && p.items != [])
              || (p.ObjectBody? && p.slots.Some? && p.slots.value.SlotList? && p.slots.value.items != [])
    ensures r.Some? && p.ListBody? ==> r.value == p.items
    ensures r.Some? && p.ObjectBody? ==> r.value == p.slots.value.items
  {
    var candidate := if p.ListBody? then SlotList(p.items) else if p.slots.Some? then p.slots.value else SlotList([]);
    if candidate.SlotList? && candidate.items != [] then Some(candidate.items) else None
  }

  const NoProfileDetail := "Teacher profile does not exist. Please create a teacher profile first."
  const NoSlotsDetail := "A list of availability slots is required."

  /** Why one entry of a batch edit was not applied; each echoes the slot
      object as it stood at that point. */
  datatype EditError =
    | IdRequired(slot: SlotData)
    | SlotMissing(id: int, slot: SlotData)
    | Rejected(slot: SlotData, failure: Failure)

  /** The responses of the two batch views. An uncaught error while saving
      is a 500; the rows saved before it stay saved. */
  datatype Response =
    | Refused(detail: string)
    | ValidationErrors(entries: seq<Option<Failure>>)
    | ServerError
    | Created(slots: seq<(SlotId, Slot)>)
    | EditResult(updated: seq<(SlotId, Slot)>, errors: Option<seq<EditError>>)

  /** The HTTP status each reply is sent with; an edit that updated
      nothing is a 400 even though it is an ordinary result. */
  function StatusOf(r: Response): int
  {
    match r
    case Refused(_) => 400
    case ValidationErrors(_) => 400
    case ServerError => 500
    case Created(_) => 201
    case EditResult(updated, _) => if updated != [] then 200 else 400
  }

  /** A reply of a batch view together with the table it leaves behind. */
  datatype Effect = Effect(reply: Response, rows: map<SlotId, Slot>, next: SlotId)

  // ---------------------------------------------------------------------
  // create_availability_slots
  // ---------------------------------------------------------------------

  /** The slot list after the teacher's id is written into every entry. */
  function WithTutor(items: seq<SlotData>, teacher: TeacherId): (r: seq<SlotData>)
    ensures |r| == |items|
    ensures forall i :: 0 <= i < |r| ==>
              r[i].tutor == Some(teacher) && r[i].id == items[i].id && FieldsOf(r[i]) == FieldsOf(items[i])
  {
    seq(|items|, i requires 0 <= i < |items| => items[i].(tutor := Some(teacher)))
  }

  /** The loop that writes the teacher id into each slot object in place. */
  method AttachTutor(items: array<SlotData>, teacher: TeacherId)
    modifies items
    ensures items[..] == WithTutor(old(items[..]), teacher)
  {
    for i := 0 to items.Length
      invariant items[i..] == old(items[..])[i..]
      invariant items[..i] == WithTutor(old(items[..]), teacher)[..i]
    {
      items[i] := items[i].(tutor := Some(teacher));
    }
  }

  /** The per-entry errors of the list serializer: `None` for an entry that
      passes the full (non-partial) validation. */
  function ItemErrors(items: seq<SlotData>, user: UserId, profiles: seq<TeacherProfile>,
                      rows: map<SlotId, Slot>): (r: seq<Option<Failure>>)
    ensures |r| == |items|
    ensures forall i :: 0 <= i < |items| ==>
              (r[i].None? <==> RunAvailabilityValidation(FieldsOf(items[i]), false, user, profiles, rows).Success?)
  {
    seq(|items|, i requires 0 <= i < |items| =>
      match RunAvailabilityValidation(FieldsOf(items[i]), false, user, profiles, rows)
      case Success(_) => None
      case Failure(f) => Some(f))
  }

  /** The instances the list serializer saves, one per entry, in order. */
  function DraftsOf(items: seq<SlotData>): (drafts: seq<Draft>)
    ensures |drafts| == |items|
    ensures forall i :: 0 <= i < |items| ==> drafts[i] == DraftOf(items[i])
  {
    seq(|items|, i requires 0 <= i < |items| => DraftOf(items[i]))
  }

  predicate AllValid(errors: seq<Option<Failure>>)
  {
    forall i :: 0 <= i < |errors| ==> errors[i].None?
  }

  /** The instance a validated entry is saved as: the tutor comes from the
      entry. */
  function DraftOf(s: SlotData): Draft
  {
    Draft(s.tutor, s.day, s.start, s.end)
  }

  /** The instance `serializer.save()` builds from an entry as written:
      `tutor` is a read-only serializer field, so the validated data the
      model is created from has no tutor. */
  function DraftAsWritten(s: SlotData): Draft
  {
    Draft(None, s.day, s.start, s.end)
  }

  /** Inserting the drafts one by one: `saved` lists the new rows in order
      and `failed` records that a save raised, which ends the batch. */
  datatype Batch = Batch(rows: map<SlotId, Slot>, next: SlotId, saved: seq<(SlotId, Slot)>, failed: bool)

  function InsertAll(rows: map<SlotId, Slot>, next: SlotId, drafts: seq<Draft>): (b: Batch)
    ensures b.next == next + |b.saved|
    ensures |b.saved| <= |drafts|
    ensures !b.failed ==> |b.saved| == |drafts|
    ensures b.failed ==> |b.saved| < |drafts| && !SaveOutcomeOf(b.rows, b.next, drafts[|b.saved|]).Saved?
    ensures forall k :: 0 <= k < |b.saved| ==>
              b.saved[k].0 == next + k
              && drafts[k].tutor.Some? && drafts[k].day.Some? && drafts[k].start.Some? && drafts[k].end.Some?
              && b.saved[k].1 == Slot(drafts[k].tutor.value, drafts[k].day.value, drafts[k].start.value, drafts[k].end.value)
              && b.saved[k].1.start < b.saved[k].1.end
    ensures forall id :: id in b.rows <==> id in rows || next <= id < b.next
    ensures forall k :: 0 <= k < |b.saved| ==> b.rows[b.saved[k].0] == b.saved[k].1
    ensures forall id :: id in rows && !(next <= id < b.next) ==> b.rows[id] == rows[id]
    decreases |drafts|
  {
    if drafts == [] then Batch(rows, next, [], false)
    else
      var b := InsertAll(rows, next, drafts[..|drafts| - 1]);
      if b.failed then b
      else
        var out := SaveOutcomeOf(b.rows, b.next, drafts[|drafts| - 1]);
        if out.Saved? then Batch(b.rows[b.next := out.slot], b.next + 1, b.saved + [(b.next, out.slot)], false)
        else b.(failed := true)
  }

  /** Once a save has raised, later drafts change nothing. */
  lemma {:induction false} InsertAllStopsAtFailure(rows: map<SlotId, Slot>, next: SlotId, drafts: seq<Draft>, j: nat)
    requires j <= |drafts|
    requires InsertAll(rows, next, drafts[..j]).failed
    ensures InsertAll(rows, next, drafts) == InsertAll(rows, next, drafts[..j])
    decreases |drafts|
  {
    if j < |drafts| {
      var init := drafts[..|drafts| - 1];
      assert init[..j] == drafts[..j];
      InsertAllStopsAtFailure(rows, next, init, j);
    } else {
      assert drafts[..j] == drafts;
    }
  }

  /** Inserting keeps the table invariant. */
  lemma {:induction false} InsertAllKeepsTableValid(rows: map<SlotId, Slot>, next: SlotId, drafts: seq<Draft>)
    requires TableValid(rows)
    ensures TableValid(InsertAll(rows, next, drafts).rows)
    decreases |drafts|
  {
    if drafts != [] {
      var init := drafts[..|drafts| - 1];
      InsertAllKeepsTableValid(rows, next, init);
      var b := InsertAll(rows, next, init);
      if !b.failed {
        SaveKeepsTableValid(b.rows, b.next, drafts[|drafts| - 1]);
      }
    }
  }

  /** The whole effect of `create_availability_slots` on a table whose rows
      are `rows` and whose next id is `next`. */
  function CreateEffect(rows: map<SlotId, Slot>, next: SlotId, profiles: seq<TeacherProfile>, user: UserId,
                        payload: Payload): (e: Effect)
    ensures e.reply.Refused? || e.reply.ValidationErrors? ==> e.rows == rows && e.next == next
    ensures FirstProfileOf(profiles, user).None? ==> e.reply == Refused(NoProfileDetail)
    ensures FirstProfileOf(profiles, user).Some? && RequestedSlots(payload).None? ==> e.reply == Refused(NoSlotsDetail)
    ensures FirstProfileOf(profiles, user).Some? && RequestedSlots(payload).Some? ==>
              var errors := ItemErrors(WithTutor(RequestedSlots(payload).value, FirstProfileOf(profiles, user).value),
                                       user, profiles, rows);
              (e.reply.ValidationErrors? <==> !AllValid(errors))
              && (e.reply.ValidationErrors? ==> e.reply.entries == errors)
              && (e.reply.Created? || e.reply.ServerError? <==> AllValid(errors))
    ensures FirstProfileOf(profiles, user).Some? && RequestedSlots(payload).Some? ==>
              var items := WithTutor(RequestedSlots(payload).value, FirstProfileOf(profiles, user).value);
              var b := InsertAll(rows, next, DraftsOf(items));
              AllValid(ItemErrors(items, user, profiles, rows)) ==>
                e.rows == b.rows && e.next == b.next
                && (e.reply == ServerError <==> b.failed)
                && (e.reply == Created(b.saved) <==> !b.failed)
  {
    match FirstProfileOf(profiles, user)
    case None => Effect(Refused(NoProfileDetail), rows, next)
    case Some(teacher) =>
      match RequestedSlots(payload)
      case None => Effect(Refused(NoSlotsDetail), rows, next)
      case Some(requested) =>
        var items := WithTutor(requested, teacher);
        var errors := ItemErrors(items, user, profiles, rows);
        if !AllValid(errors) then Effect(ValidationErrors(errors), rows, next)
        else
          var b := InsertAll(rows, next, DraftsOf(items));
          Effect(if b.failed then ServerError else Created(b.saved), b.rows, b.next)
  }

  /** A created batch is the request, entry by entry: one new row per slot,
      in order, each owned by the caller's teacher profile and stored as
      returned; an entry the serializer refuses stops the whole batch. */
  lemma CreatedSlotsMatchRequest(rows: map<SlotId, Slot>, next: SlotId, profiles: seq<TeacherProfile>, user: UserId,
                                 payload: Payload)
    requires CreateEffect(rows, next, profiles, user, payload).reply.Created?
    ensures FirstProfileOf(profiles, user).Some? && RequestedSlots(payload).Some?
    ensures AllValid(ItemErrors(WithTutor(RequestedSlots(payload).value, FirstProfileOf(profiles, user).value),
                                user, profiles, rows))
    ensures var e := CreateEffect(rows, next, profiles, user, payload);
            var requested := RequestedSlots(payload).value;
            var created := e.reply.slots;
            |created| == |requested|
            && forall k :: 0 <= k < |created| ==>
                 created[k].1.tutor == FirstProfileOf(profiles, user).value
                 && Some(created[k].1.day) == requested[k].day
                 && Some(created[k].1.start) == requested[k].start
                 && Some(created[k].1.end) == requested[k].end
                 && created[k].1.start < created[k].1.end
                 && e.rows[created[k].0] == created[k].1
  {
  }

  /** Creation never alters or removes an existing row, and leaves the
      table valid, whatever the reply. */
  lemma CreateKeepsExistingRows(rows: map<SlotId, Slot>, next: SlotId, profiles: seq<TeacherProfile>, user: UserId,
                                payload: Payload)
    requires TableValid(rows) && forall id :: id in rows ==> id < next
    ensures var e := CreateEffect(rows, next, profiles, user, payload);
            TableValid(e.rows) && (forall id :: id in rows ==> id in e.rows && e.rows[id] == rows[id])
            && (forall id :: id in e.rows ==> id < e.next)
  {
    var e := CreateEffect(rows, next, profiles, user, payload);
    if FirstProfileOf(profiles, user).Some? && RequestedSlots(payload).Some? {
      var items := WithTutor(RequestedSlots(payload).value, FirstProfileOf(profiles, user).value);
      InsertAllKeepsTableValid(rows, next, DraftsOf(items));
    }
  }

  /** `create_availability_slots`: looks up the caller's teacher profile,
      takes the slot list, writes the teacher id into a copy of each entry,
      validates every entry against the current table and, when all pass,
      saves them one by one. */
  method CreateAvailabilitySlots(table: AvailabilityTable, profiles: seq<TeacherProfile>, user: UserId,
                                 payload: Payload) returns (reply: Response)
    requires table.Valid()
    modifies table
    ensures table.Valid()
    ensures var e := CreateEffect(old(table.rows), old(table.nextId), profiles, user, payload);
            reply == e.reply && table.rows == e.rows && table.nextId == e.next
  {
    var teacher := FirstProfileOf(profiles, user);
    if teacher.None? {
      return Refused(NoProfileDetail);
    }
    var requested := RequestedSlots(payload);
    if requested.None? {
      return Refused(NoSlotsDetail);
    }
    var slots := requested.value;
    var items := new SlotData[|slots|](i requires 0 <= i < |slots| => slots[i]);
    assert items[..] == slots;
    AttachTutor(items, teacher.value);
    var errors := ItemErrors(items[..], user, profiles, table.rows);
    if !AllValid(errors) {
      return ValidationErrors(errors);
    }
    var entries := items[..];
    var batch := SaveEach(table, DraftsOf(entries));
    reply := if batch.failed then ServerError else Created(batch.saved);
  }

  /** The list serializer's `save`: creates the drafts one by one under
      fresh ids and stops at the first save that raises. */
  method SaveEach(table: AvailabilityTable, drafts: seq<Draft>) returns (batch: Batch)
    requires table.Valid()
    modifies table
    ensures table.Valid()
    ensures batch == InsertAll(old(table.rows), old(table.nextId), drafts)
    ensures table.rows == batch.rows && table.nextId == batch.next
  {
    ghost var rows0, next0 := table.rows, table.nextId;
    var saved: seq<(SlotId, Slot)> := [];
    for i := 0 to |drafts|
      invariant table.Valid()
      invariant var b := InsertAll(rows0, next0, drafts[..i]);
                !b.failed && table.rows == b.rows && table.nextId == b.next && saved == b.saved
    {
      assert drafts[..i + 1][..i] == drafts[..i];
      var out := table.Save(None, drafts[i]);
      if !out.Saved? {
        InsertAllStopsAtFailure(rows0, next0, drafts, i + 1);
        return Batch(table.rows, table.nextId, saved, true);
      }
      saved := saved + [(out.id, out.slot)];
    }
    assert drafts[..|drafts|] == drafts;
    batch := Batch(table.rows, table.nextId, saved, false);
  }

  /** As written, every entry reaches storage without a tutor, and the
      database refuses it. */
  lemma ReadOnlyTutorDropped(rows: map<SlotId, Slot>, target: SlotId, s: SlotData)
    requires CleanAvailability(s.start, s.end).Pass?
    ensures SaveOutcomeOf(rows, target, DraftAsWritten(s)) == IntegrityFailed
  {
  }

  // ---------------------------------------------------------------------
  // edit_availability_slots
  // ---------------------------------------------------------------------

  /** The instance a partial update saves: provided fields replace the
      stored ones, the rest and the tutor are kept. */
  function MergedDraft(row: Slot, data: AvailabilityData): (d: Draft)
    ensures d.tutor == Some(row.tutor)
    ensures d.day == Some(if data.day.Some? then data.day.value else row.day)
    ensures d.start == Some(if data.start.Some? then data.start.value else row.start)
    ensures d.end == Some(if data.end.Some? then data.end.value else row.end)
  {
    Draft(Some(row.tutor),
          if data.day.Some? then data.day else Some(row.day),
          if data.start.Some? then data.start else Some(row.start),
          if data.end.Some? then data.end else Some(row.end))
  }

  /** What one entry of a batch edit does. */
  datatype Step = StepUpdated(id: SlotId, slot: Slot) | StepError(error: EditError) | StepCrashed

  /** One entry of `edit_availability_slots` against the current rows: an
      entry without an id (or with id 0) and one naming a slot the teacher
      does not own become errors; then the partial validation; then the
      save, whose refusal is uncaught. */
  function EditStep(rows: map<SlotId, Slot>, profiles: seq<TeacherProfile>, user: UserId, teacher: TeacherId,
                    item: SlotData): (r: Step)
    ensures r.StepError? && r.error.IdRequired? <==> item.id.None? || item.id.value == 0
    ensures r.StepError? && r.error.SlotMissing? <==>
              item.id.Some? && item.id.value != 0 && !(item.id.value in rows && rows[item.id.value].tutor == teacher)
    ensures r.StepUpdated? || r.StepCrashed? || (r.StepError? && r.error.Rejected?) ==>
              item.id.Some? && item.id.value in rows && rows[item.id.value].tutor == teacher
    ensures r.StepUpdated? ==> r.id == item.id.value && r.slot.tutor == teacher && r.slot.start < r.slot.end
    ensures r.StepError? && r.error.Rejected? ==>
              r.error.slot == item.(tutor := Some(teacher))
              && RunAvailabilityValidation(FieldsOf(item), true, user, profiles, rows) == Failure(r.error.failure)
    ensures item.id.Some? && item.id.value != 0 && item.id.value in rows && rows[item.id.value].tutor == teacher ==>
              var id := item.id.value;
              var v := RunAvailabilityValidation(FieldsOf(item), true, user, profiles, rows);
              (v.Failure? <==> r.StepError? && r.error.Rejected?)
              && (v.Success? && SaveOutcomeOf(rows, id, MergedDraft(rows[id], v.value)).Saved? ==>
                    r == StepUpdated(id, SaveOutcomeOf(rows, id, MergedDraft(rows[id], v.value)).slot))
              && (r.StepCrashed? <==> v.Success? && !SaveOutcomeOf(rows, id, MergedDraft(rows[id], v.value)).Saved?)
  {
    if item.id.None? || item.id.value == 0 then StepError(IdRequired(item))
    else
      var id := item.id.value;
      if id !in rows || rows[id].tutor != teacher then StepError(SlotMissing(id, item))
      else
        var echo := item.(tutor := Some(teacher));
        match RunAvailabilityValidation(FieldsOf(echo), true, user, profiles, rows)
        case Failure(f) => StepError(Rejected(echo, f))
        case Success(data) =>
          var out := SaveOutcomeOf(rows, id, MergedDraft(rows[id], data));
          if out.Saved? then StepUpdated(id, out.slot) else StepCrashed
  }

  /** The state of a batch edit after some entries. */
  datatype EditRun = EditRun(rows: map<SlotId, Slot>, updated: seq<(SlotId, Slot)>, errors: seq<EditError>, crashed: bool)

  /** The edit loop over `items`, entry by entry against the rows the
      earlier entries left: every row id stays, each entry yields at most
      one updated slot or one error, and a crash ends the loop early. */
  function EditRunOf(rows: map<SlotId, Slot>, profiles: seq<TeacherProfile>, user: UserId, teacher: TeacherId,
                     items: seq<SlotData>): (run: EditRun)
    ensures run.rows.Keys == rows.Keys
    ensures forall k :: 0 <= k < |run.updated| ==> run.updated[k].0 in rows
    ensures |run.updated| + |run.errors| <= |items|
    ensures run.crashed ==> |run.updated| + |run.errors| < |items|
    decreases |items|
  {
    if items == [] then EditRun(rows, [], [], false)
    else
      var run := EditRunOf(rows, profiles, user, teacher, items[..|items| - 1]);
      if run.crashed then run
      else
        match EditStep(run.rows, profiles, user, teacher, items[|items| - 1])
        case StepUpdated(id, slot) => run.(rows := run.rows[id := slot], updated := run.updated + [(id, slot)])
        case StepError(err) => run.(errors := run.errors + [err])
        case StepCrashed => run.(crashed := true)
  }

  /** Once a save has raised, later entries change nothing. */
  lemma {:induction false} EditRunStopsAtCrash(rows: map<SlotId, Slot>, profiles: seq<TeacherProfile>, user: UserId,
                                               teacher: TeacherId, items: seq<SlotData>, j: nat)
    requires j <= |items|
    requires EditRunOf(rows, profiles, user, teacher, items[..j]).crashed
    ensures EditRunOf(rows, profiles, user, teacher, items) == EditRunOf(rows, profiles, user, teacher, items[..j])
    decreases |items|
  {
    if j < |items| {
      var init := items[..|items| - 1];
      assert init[..j] == items[..j];
      EditRunStopsAtCrash(rows, profiles, user, teacher, init, j);
    } else {
      assert items[..j] == items;
    }
  }

  /** Unless a save raised, every entry lands in exactly one of the two
      lists. */
  lemma {:induction false} EditPartition(rows: map<SlotId, Slot>, profiles: seq<TeacherProfile>, user: UserId,
                                         teacher: TeacherId, items: seq<SlotData>)
    ensures var run := EditRunOf(rows, profiles, user, teacher, items);
            !run.crashed ==> |run.updated| + |run.errors| == |items|
    decreases |items|
  {
    if items != [] {
      EditPartition(rows, profiles, user, teacher, items[..|items| - 1]);
    }
  }

  /** A batch edit only rewrites rows of the caller's teacher profile,
      keeps every row id, keeps the table valid, and every updated slot
      belongs to the teacher. */
  lemma {:induction false} EditTouchesOnlyOwnRows(rows: map<SlotId, Slot>, profiles: seq<TeacherProfile>, user: UserId,
                                                  teacher: TeacherId, items: seq<SlotData>)
    requires TableValid(rows)
    ensures var run := EditRunOf(rows, profiles, user, teacher, items);
            run.rows.Keys == rows.Keys
            && (forall id :: id in rows && rows[id].tutor != teacher ==> run.rows[id] == rows[id])
            && (forall id :: id in rows && rows[id].tutor == teacher ==> run.rows[id].tutor == teacher)
            && (forall k :: 0 <= k < |run.updated| ==> run.updated[k].0 in rows && run.updated[k].1.tutor == teacher)
            && TableValid(run.rows)
    decreases |items|
  {
    if items != [] {
      var init := items[..|items| - 1];
      EditTouchesOnlyOwnRows(rows, profiles, user, teacher, init);
      var run := EditRunOf(rows, profiles, user, teacher, init);
      if !run.crashed {
        var item := items[|items| - 1];
        var step := EditStep(run.rows, profiles, user, teacher, item);
        if step.StepUpdated? {
          var echo := item.(tutor := Some(teacher));
          var data := RunAvailabilityValidation(FieldsOf(echo), true, user, profiles, run.rows).value;
          SaveKeepsTableValid(run.rows, step.id, MergedDraft(run.rows[step.id], data));
        }
      }
    }
  }

  /** An entry without a usable id, or naming a slot the teacher does not
      own, adds one error and changes nothing else. */
  lemma EditRefusedEntryChangesNothing(rows: map<SlotId, Slot>, profiles: seq<TeacherProfile>, user: UserId,
                                       teacher: TeacherId, items: seq<SlotData>, item: SlotData)
    requires !EditRunOf(rows, profiles, user, teacher, items).crashed
    requires var before := EditRunOf(rows, profiles, user, teacher, items).rows;
             item.id.None? || item.id.value == 0 || item.id.value !in before || before[item.id.value].tutor != teacher
    ensures var before := EditRunOf(rows, profiles, user, teacher, items);
            var after := EditRunOf(rows, profiles, user, teacher, items + [item]);
            after.rows == before.rows && after.updated == before.updated && !after.crashed
            && |after.errors| == |before.errors| + 1
  {
    assert (items + [item])[..|items|] == items;
  }

  /** The whole effect of `edit_availability_slots`. */
  function EditEffect(rows: map<SlotId, Slot>, next: SlotId, profiles: seq<TeacherProfile>, user: UserId,
                      payload: Payload): (e: Effect)
    ensures e.next == next
    ensures FirstProfileOf(profiles, user).None? ==> e.reply == Refused(NoProfileDetail) && e.rows == rows
    ensures FirstProfileOf(profiles, user).Some? && RequestedSlots(payload).None? ==>
              e.reply == Refused(NoSlotsDetail) && e.rows == rows
    ensures e.reply.EditResult? ==>
              (StatusOf(e.reply) == 200 <==> e.reply.updated != [])
              && (e.reply.errors.Some? ==> e.reply.errors.value != [])
    ensures e.reply.EditResult? ==>
              RequestedSlots(payload).Some?
              && (e.reply.errors.None? <==> |e.reply.updated| == |RequestedSlots(payload).value|)
    ensures FirstProfileOf(profiles, user).Some? && RequestedSlots(payload).Some? ==>
              var run := EditRunOf(rows, profiles, user, FirstProfileOf(profiles, user).value, RequestedSlots(payload).value);
              e.rows == run.rows
              && (e.reply == ServerError <==> run.crashed)
              && (e.reply.EditResult? <==> !run.crashed)
              && (e.reply.EditResult? ==> e.reply.updated == run.updated
                                          && (e.reply.errors.None? ==> run.errors == [])
                                          && (e.reply.errors.Some? ==> e.reply.errors.value == run.errors))
  {
    match FirstProfileOf(profiles, user)
    case None => Effect(Refused(NoProfileDetail), rows, next)
    case Some(teacher) =>
      match RequestedSlots(payload)
      case None => Effect(Refused(NoSlotsDetail), rows, next)
      case Some(items) =>
        var run := EditRunOf(rows, profiles, user, teacher, items);
        EditPartition(rows, profiles, user, teacher, items);
        if run.crashed then Effect(ServerError, run.rows, next)
        else Effect(EditResult(run.updated, if run.errors == [] then None else Some(run.errors)), run.rows, next)
  }

  /** `edit_availability_slots`: looks up the caller's teacher profile,
      takes the slot list and applies the entries one by one, collecting
      the updated slots and the errors. */
  method EditAvailabilitySlots(table: AvailabilityTable, profiles: seq<TeacherProfile>, user: UserId,
                               payload: Payload) returns (reply: Response)
    requires table.Valid()
    modifies table
    ensures table.Valid()
    ensures var e := EditEffect(old(table.rows), old(table.nextId), profiles, user, payload);
            reply == e.reply && table.rows == e.rows && table.nextId == e.next
  {
    var found := FirstProfileOf(profiles, user);
    if found.None? {
      return Refused(NoProfileDetail);
    }
    var teacher := found.value;
    var requested := RequestedSlots(payload);
    if requested.None? {
      return Refused(NoSlotsDetail);
    }
    var updated, errors, crashed := ApplyEdits(table, profiles, user, teacher, requested.value);
    reply := if crashed then ServerError else EditResult(updated, if errors == [] then None else Some(errors));
  }

  /** The loop of `edit_availability_slots`: applies the entries in order,
      collecting the updated slots and the errors, and stops when a save
      raises. */
  method ApplyEdits(table: AvailabilityTable, profiles: seq<TeacherProfile>, user: UserId, teacher: TeacherId,
                    items: seq<SlotData>) returns (updated: seq<(SlotId, Slot)>, errors: seq<EditError>, crashed: bool)
    requires table.Valid()
    modifies table
    ensures table.Valid() && table.nextId == old(table.nextId)
    ensures var run := EditRunOf(old(table.rows), profiles, user, teacher, items);
            table.rows == run.rows && updated == run.updated && errors == run.errors && crashed == run.crashed
  {
    ghost var rows0 := table.rows;
    updated, errors := [], [];
    for i := 0 to |items|
      invariant table.Valid() && table.nextId == old(table.nextId)
      invariant var run := EditRunOf(rows0, profiles, user, teacher, items[..i]);
                !run.crashed && table.rows == run.rows && updated == run.updated && errors == run.errors
    {
      assert items[..i + 1][..i] == items[..i];
      var step := EditEntry(table, profiles, user, teacher, items[i]);
      match step {
        case StepError(err) =>
          errors := errors + [err];
        case StepCrashed =>
          EditRunStopsAtCrash(rows0, profiles, user, teacher, items, i + 1);
          return updated, errors, true;
        case StepUpdated(id, slot) =>
          updated := updated + [(id, slot)];
      }
    }
    assert items[..|items|] == items;
    crashed := false;
  }

  /** The body of the edit loop for one entry: the id check, the ownership
      lookup, the teacher id written into the entry, the partial
      validation and the save. */
  method EditEntry(table: AvailabilityTable, profiles: seq<TeacherProfile>, user: UserId, teacher: TeacherId,
                   entry: SlotData) returns (step: Step)
    requires table.Valid()
    modifies table
    ensures table.Valid() && table.nextId == old(table.nextId)
    ensures step == EditStep(old(table.rows), profiles, user, teacher, entry)
    ensures table.rows == if step.StepUpdated? then old(table.rows)[step.id := step.slot] else old(table.rows)
  {
    var item := entry;
    if item.id.None? || item.id.value == 0 {
      return StepError(IdRequired(item));
    }
    var id := item.id.value;
    if id !in table.rows || table.rows[id].tutor != teacher {
      return StepError(SlotMissing(id, item));
    }
    item := item.(tutor := Some(teacher));
    var validated := RunAvailabilityValidation(FieldsOf(item), true, user, profiles, table.rows);
    if validated.Failure? {
      return StepError(Rejected(item, validated.error));
    }
    var out := table.Save(Some(id), MergedDraft(table.rows[id], validated.value));
    if !out.Saved? {
      return StepCrashed;
    }
    step := StepUpdated(out.id, out.slot);
  }
}
