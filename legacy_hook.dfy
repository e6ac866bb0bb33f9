/**
 * The earlier version of the conference hook: the available layouts kept as a
 * dictionary from layout key to itself, the same participant listeners as the
 * current hook, and a `transformLayout` that puts the layout keys at the top
 * level of the body and forwards the caller's `transforms` unchanged.
 */
module LegacyHook {
  import opened Json
  import opened Roster
  import opened Hook

  // ---------------------------------------------------------------------------
  // loadAvailableLayouts

  /** The `result` of the `available_layouts` request: a falsy value (or the
      request failed), an array of layout keys, or any other value. */
  datatype LayoutsResult = NoLayouts | LayoutArray(keys: seq<string>) | OtherResult

  /** `loadAvailableLayouts`: `dict[key] = key` for every key of an array
      result; `{}` for anything else. */
  method LoadAvailableLayouts(r: LayoutsResult) returns (dict: map<string, string>)
    ensures r.LayoutArray? ==> forall k :: k in dict <==> k in r.keys
    ensures forall k :: k in dict ==> dict[k] == k
    ensures !r.LayoutArray? ==> dict == map[]
  {
    dict := map[];
    if r.LayoutArray? {
      var i := 0;
      while i < |r.keys|
        invariant 0 <= i <= |r.keys|
        invariant forall k :: k in dict <==> k in r.keys[..i]
        invariant forall k :: k in dict ==> dict[k] == k
      {
        dict := dict[r.keys[i] := r.keys[i]];
        assert r.keys[..i + 1] == r.keys[..i] + [r.keys[i]];
        i := i + 1;
      }
      assert r.keys[..i] == r.keys;
    }
  }

  // ---------------------------------------------------------------------------
  // The participant listeners

  /** The three participant events the listeners handle. */
  datatype ParticipantEvent = Create(p: Participant) | Update(p: Participant) | Delete(p: Participant)

  /** `participant_create`, `participant_update` and `participant_delete`. */
  function Listen(l: Rosters, e: ParticipantEvent): (r: Rosters)
    ensures IsGuest(e.p) ==> r.participants == l.participants
    ensures !IsGuest(e.p) ==> r.guests == l.guests
    ensures e.Create? ==> HasUuid(if IsGuest(e.p) then r.guests else r.participants, e.p.uuid)
    ensures e.Delete? ==> !HasUuid(if IsGuest(e.p) then r.guests else r.participants, e.p.uuid)
  {
    match e
    case Create(p) => OnCreate(l, p)
    case Update(p) => OnUpdate(l, p)
    case Delete(p) => OnDelete(l, p)
  }

  /** A redelivered participant event changes nothing, and rosters free of
      repeated uuids stay so. */
  lemma ListenIdempotent(l: Rosters, e: ParticipantEvent)
    ensures Listen(Listen(l, e), e) == Listen(l, e)
    ensures UniqueUuids(l.participants) && UniqueUuids(l.guests) ==>
      UniqueUuids(Listen(l, e).participants) && UniqueUuids(Listen(l, e).guests)
  {
    match e
    case Create(p) => OnCreateContract(l, p);
    case Update(p) =>
      ReplaceByUuidKeeps(l.participants, p);
      ReplaceByUuidKeeps(l.guests, p);
    case Delete(p) =>
      OnUpdateDeleteContract(l, p);
      if UniqueUuids(l.participants) && UniqueUuids(l.guests) {
        RemoveByUuidContract(l.participants, p.uuid);
        RemoveByUuidContract(l.guests, p.uuid);
      }
  }

  /** The list an update or removal acts on is chosen by the role the event
      carries: a participant listed as a host whose update says `guest` is
      neither updated nor moved, and a removal that says `guest` leaves the
      host entry in place. */
  lemma RoleChangeIsLost(l: Rosters, p: Participant)
    requires IsGuest(p) && HasUuid(l.participants, p.uuid) && !HasUuid(l.guests, p.uuid)
    ensures Listen(l, Update(p)) == l
    ensures Listen(l, Delete(p)) == l
    ensures HasUuid(Listen(l, Delete(p)).participants, p.uuid)
  {
    ReplaceByUuidNeverInserts(l.guests, p);
    RemoveAbsentIsIdentity(l.guests, p.uuid);
  }

  // ---------------------------------------------------------------------------
  // transformLayout

  /** The body of the earlier `transformLayout`: layout keys at the top level,
      and the caller's `transforms` object as given. */
  datatype LegacyBody = LegacyBody(layout: Option<string>, hostLayout: Option<string>, guestLayout: Option<string>,
                                   transforms: Option<map<string, OverlayArg>>)

  /** Only `"lecture"` itself selects the host and guest layouts here. */
  predicate IsLegacyLecture(conferenceType: JsStr) {
    conferenceType == Str("lecture")
  }

  /** What the earlier `transformLayout` sends: the layout keys the conference
      type selects, when truthy, and `transforms` when it is a non-empty
      object; nothing when that leaves the body empty. */
  function LegacyRequestBody(conferenceType: JsStr, args: LayoutArgs): (body: Option<LegacyBody>)
    ensures body.Some? <==>
      (if IsLegacyLecture(conferenceType) then Truthy(args.hostLayout) || Truthy(args.guestLayout)
       else Truthy(args.layout))
      || (args.transforms.Some? && |args.transforms.value| > 0)
    ensures body.Some? && body.value.transforms.Some? ==> body.value.transforms == args.transforms
  {
    var lecture := IsLegacyLecture(conferenceType);
    var body := LegacyBody(
      if lecture then None else Chosen(args.layout),
      if lecture then Chosen(args.hostLayout) else None,
      if lecture then Chosen(args.guestLayout) else None,
      if args.transforms.Some? && |args.transforms.value| > 0 then args.transforms else None);
    if body == LegacyBody(None, None, None, None) then None else Some(body)
  }

  method TransformLayout(conferenceType: JsStr, args: LayoutArgs) returns (sent: Option<LegacyBody>)
    ensures sent == LegacyRequestBody(conferenceType, args)
    ensures sent.Some? <==>
      (if IsLegacyLecture(conferenceType) then Truthy(args.hostLayout) || Truthy(args.guestLayout)
       else Truthy(args.layout))
      || (args.transforms.Some? && |args.transforms.value| > 0)
    ensures sent.Some? && IsLegacyLecture(conferenceType) ==> sent.value.layout == None
    ensures sent.Some? && !IsLegacyLecture(conferenceType) ==>
      sent.value.hostLayout == None && sent.value.guestLayout == None
    ensures sent.Some? ==> (sent.value.transforms.Some? <==> args.transforms.Some? && |args.transforms.value| > 0)
    ensures sent.Some? && sent.value.transforms.Some? ==> sent.value.transforms == args.transforms
  {
    var body := LegacyBody(None, None, None, None);
    if conferenceType == Str("lecture") {
      if Truthy(args.hostLayout) {
        body := body.(hostLayout := Some(args.hostLayout.s));
      }
      if Truthy(args.guestLayout) {
        body := body.(guestLayout := Some(args.guestLayout.s));
      }
    } else {
      if Truthy(args.layout) {
        body := body.(layout := Some(args.layout.s));
      }
    }
    if args.transforms.Some? && |args.transforms.value| > 0 {
      body := body.(transforms := args.transforms);
    }
    if body == LegacyBody(None, None, None, None) {
      sent := None;
    } else {
      sent := Some(body);
    }
  }

  /** The two versions read the conference type differently: for
      `lecture_mode` and `lecture_type` the current hook sends the host and
      guest layouts and drops `layout`, the earlier one the reverse. */
  lemma LectureReadingsDiffer(conferenceType: JsStr, args: LayoutArgs)
    requires conferenceType == Str("lecture_mode") || conferenceType == Str("lecture_type")
    requires Truthy(args.layout) && !Truthy(args.hostLayout) && !Truthy(args.guestLayout) && !OverlayRequested(args)
    ensures LegacyRequestBody(conferenceType, args).Some?
    ensures LegacyRequestBody(conferenceType, args).value.layout == Some(args.layout.s)
    ensures RequestBody(conferenceType, args) == None
  {
  }
}
