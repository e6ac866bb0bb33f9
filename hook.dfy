/**
 * The conference hook (`useConference`): the joined conference's two rosters,
 * hosts and guests, kept up to date from the conferencing node's participant
 * events, the split of the initial participant list at login, and the request
 * body `transformLayout` builds for `transform_layout`.
 */
module Hook {
  import opened Json
  import opened Roster

  // ---------------------------------------------------------------------------
  // Rosters

  /** The hook's `participants` (hosts) and `guests` lists. */
  datatype Rosters = Rosters(participants: seq<Participant>, guests: seq<Participant>)

  /** `p.role === 'guest'` */
  predicate IsGuest(p: Participant) {
    p.role == Str("guest")
  }

  /** `participant_create`: add-if-absent then sort, on the list the role selects. */
  function OnCreate(l: Rosters, p: Participant): (r: Rosters)
    ensures IsGuest(p) ==> HasUuid(r.guests, p.uuid) && r.participants == l.participants
    ensures !IsGuest(p) ==> HasUuid(r.participants, p.uuid) && r.guests == l.guests
  {
    if IsGuest(p) then
      AddThenSortContract(l.guests, p);
      l.(guests := AddThenSort(l.guests, p))
    else
      AddThenSortContract(l.participants, p);
      l.(participants := AddThenSort(l.participants, p))
  }

  /** `participant_update`: replace by uuid, on the list the role selects. */
  function OnUpdate(l: Rosters, p: Participant): (r: Rosters)
    ensures IsGuest(p) ==> r.participants == l.participants
    ensures !IsGuest(p) ==> r.guests == l.guests
    ensures |r.participants| == |l.participants| && |r.guests| == |l.guests|
    ensures forall i :: 0 <= i < |l.participants| ==> r.participants[i].uuid == l.participants[i].uuid
    ensures forall i :: 0 <= i < |l.guests| ==> r.guests[i].uuid == l.guests[i].uuid
  {
    if IsGuest(p) then l.(guests := ReplaceByUuid(l.guests, p))
    else l.(participants := ReplaceByUuid(l.participants, p))
  }

  /** `participant_delete`: filter by uuid, on the list the role selects. */
  function OnDelete(l: Rosters, p: Participant): (r: Rosters)
    ensures IsGuest(p) ==> r.participants == l.participants && !HasUuid(r.guests, p.uuid)
    ensures !IsGuest(p) ==> r.guests == l.guests && !HasUuid(r.participants, p.uuid)
  {
    if IsGuest(p) then l.(guests := RemoveByUuid(l.guests, p.uuid))
    else l.(participants := RemoveByUuid(l.participants, p.uuid))
  }

  /** `participant_create` puts the uuid in the guest list exactly when the role
      is `guest` and in the host list otherwise, leaves the other list alone,
      keeps the target sorted and free of repeated uuids, and a repeated event
      is a no-op. */
  lemma OnCreateContract(l: Rosters, p: Participant)
    ensures IsGuest(p) ==> HasUuid(OnCreate(l, p).guests, p.uuid) && OnCreate(l, p).participants == l.participants
    ensures !IsGuest(p) ==> HasUuid(OnCreate(l, p).participants, p.uuid) && OnCreate(l, p).guests == l.guests
    ensures SortedByName(if IsGuest(p) then OnCreate(l, p).guests else OnCreate(l, p).participants)
    ensures UniqueUuids(l.participants) && UniqueUuids(l.guests) ==>
      UniqueUuids(OnCreate(l, p).participants) && UniqueUuids(OnCreate(l, p).guests)
    ensures OnCreate(OnCreate(l, p), p) == OnCreate(l, p)
  {
    AddThenSortContract(l.guests, p);
    AddThenSortContract(l.participants, p);
  }

  /** `participant_update` and `participant_delete` change only the list the
      role selects; an update keeps that list's uuids, a delete removes the
      uuid from it. An event whose role differs from the one the participant
      was listed under therefore leaves it where it was. */
  lemma OnUpdateDeleteContract(l: Rosters, p: Participant)
    ensures IsGuest(p) ==> OnUpdate(l, p).participants == l.participants && OnDelete(l, p).participants == l.participants
    ensures !IsGuest(p) ==> OnUpdate(l, p).guests == l.guests && OnDelete(l, p).guests == l.guests
    ensures forall u :: HasUuid(OnUpdate(l, p).participants, u) <==> HasUuid(l.participants, u)
    ensures forall u :: HasUuid(OnUpdate(l, p).guests, u) <==> HasUuid(l.guests, u)
    ensures !HasUuid(if IsGuest(p) then OnDelete(l, p).guests else OnDelete(l, p).participants, p.uuid)
    ensures OnDelete(OnDelete(l, p), p) == OnDelete(l, p)
  {
    ReplaceByUuidNeverInserts(l.participants, p);
    ReplaceByUuidNeverInserts(l.guests, p);
    RemoveByUuidIdempotent(l.participants, p.uuid);
    RemoveByUuidIdempotent(l.guests, p.uuid);
  }

  /** The `result` of the participants request at login: missing (request
      failed or `result` falsy), an array, or an object whose `participants`
      may be missing. */
  datatype PeopleResult = NoResult | ResultArray(all: seq<Participant>) | ResultObject(participants: Option<seq<Participant>>)

  /** `Array.isArray(result) ? result : (result.participants || [])` */
  function Fetched(r: PeopleResult): seq<Participant> {
    match r
    case NoResult => []
    case ResultArray(all) => all
    case ResultObject(ps) => if ps.Some? then ps.value else []
  }

  /** The rosters set at login, or `None` when the lists are left as they were. */
  function LoginRosters(r: PeopleResult): (l: Option<Rosters>)
    ensures l.Some? <==> !r.NoResult?
  {
    if r.NoResult? then None else Some(Rosters(NonGuests(Fetched(r)), Guests(Fetched(r))))
  }

  /** Login splits the fetched participants by role: guests go to `guests`,
      everyone else to `participants`, and together the two lists hold exactly
      the fetched participants. */
  lemma LoginSplitsByRole(r: PeopleResult)
    requires !r.NoResult?
    ensures var all := Fetched(r);
      var l := LoginRosters(r).value;
      && multiset(l.participants) + multiset(l.guests) == multiset(all)
      && (forall p :: p in l.guests ==> IsGuest(p))
      && (forall p :: p in l.participants ==> !IsGuest(p))
  {
    SplitByRoleIsPartition(Fetched(r));
  }

  // ---------------------------------------------------------------------------
  // transformLayout

  /** `['lecture', 'lecture_mode', 'lecture_type'].includes(conferenceType)` */
  predicate IsLecture(conferenceType: JsStr): (lecture: bool)
    ensures lecture ==> conferenceType.Str? && "lecture" <= conferenceType.s
    ensures conferenceType == Str("lecture") ==> lecture
  {
    conferenceType == Str("lecture") || conferenceType == Str("lecture_mode") || conferenceType == Str("lecture_type")
  }

  /** A `text_overlay` object as a caller passes it; absent fields are `undefined`. */
  datatype OverlayArg = OverlayArg(text: JsStr, position: JsStr, size: JsStr)

  /** The destructured argument `{ layout, hostLayout, guestLayout, transforms }`;
      `transforms` is `undefined` or an object of overlay entries. */
  datatype LayoutArgs = LayoutArgs(layout: JsStr, hostLayout: JsStr, guestLayout: JsStr,
                                   transforms: Option<map<string, OverlayArg>>)

  datatype Overlay = Overlay(text: string, position: string, size: string)

  /** `cleanTransforms`: the keys that were set. */
  datatype CleanTransforms = CleanTransforms(layout: Option<string>, hostLayout: Option<string>,
                                             guestLayout: Option<string>, textOverlay: Option<Overlay>)

  /** `Object.keys(cleanTransforms).length` */
  function KeyCount(t: CleanTransforms): (n: nat)
    ensures n == 0 <==> t == CleanTransforms(None, None, None, None)
  {
    (if t.layout.Some? then 1 else 0) + (if t.hostLayout.Some? then 1 else 0)
    + (if t.guestLayout.Some? then 1 else 0) + (if t.textOverlay.Some? then 1 else 0)
  }

  /** `v || fallback` */
  function OrDefault(v: JsStr, fallback: string): string {
    if Truthy(v) then v.s else fallback
  }

  /** The overlay a caller asks for: a `text_overlay` entry whose text is a
      string that is not blank. */
  predicate OverlayRequested(args: LayoutArgs) {
    && args.transforms.Some? && "text_overlay" in args.transforms.value
    && args.transforms.value["text_overlay"].text.Str?
    && Trim(args.transforms.value["text_overlay"].text.s) != ""
  }

  /** What a layout argument contributes: its value when truthy. */
  function Chosen(v: JsStr): (o: Option<string>)
    ensures o.Some? <==> Truthy(v)
  {
    if Truthy(v) then Some(v.s) else None
  }

  /** The overlay entry sent for a requested overlay: its text, and the
      position and size defaulting to "top" and "medium". */
  function OverlayOf(o: OverlayArg): Overlay
    requires o.text.Str?
  {
    Overlay(o.text.s, OrDefault(o.position, "top"), OrDefault(o.size, "medium"))
  }

  /** The transforms a call asks for, key by key. */
  function Requested(conferenceType: JsStr, args: LayoutArgs): CleanTransforms {
    var lecture := IsLecture(conferenceType);
    CleanTransforms(
      if lecture then None else Chosen(args.layout),
      if lecture then Chosen(args.hostLayout) else None,
      if lecture then Chosen(args.guestLayout) else None,
      if OverlayRequested(args) then Some(OverlayOf(args.transforms.value["text_overlay"])) else None)
  }

  /** What reaches `transform_layout`: the requested transforms when there is
      at least one. */
  function RequestBody(conferenceType: JsStr, args: LayoutArgs): (body: Option<CleanTransforms>)
    ensures body.Some? <==>
      (if IsLecture(conferenceType) then Truthy(args.hostLayout) || Truthy(args.guestLayout) else Truthy(args.layout))
      || OverlayRequested(args)
    ensures body.Some? ==> KeyCount(body.value) > 0
  {
    var t := Requested(conferenceType, args);
    if KeyCount(t) > 0 then Some(t) else None
  }

  /** The body `transformLayout` sends, `{ transforms: cleanTransforms }`, or
      `None` when it refuses ("No valid layout or transform selected") and
      sends nothing. */
  method TransformLayout(conferenceType: JsStr, args: LayoutArgs) returns (sent: Option<CleanTransforms>)
    ensures sent == RequestBody(conferenceType, args)
    ensures sent.Some? <==>
      (if IsLecture(conferenceType) then Truthy(args.hostLayout) || Truthy(args.guestLayout) else Truthy(args.layout))
      || OverlayRequested(args)
    ensures sent.Some? ==> IsLecture(conferenceType) ==>
      sent.value.layout == None && sent.value.hostLayout == Chosen(args.hostLayout)
      && sent.value.guestLayout == Chosen(args.guestLayout)
    ensures sent.Some? ==> !IsLecture(conferenceType) ==>
      sent.value.layout == Chosen(args.layout) && sent.value.hostLayout == None && sent.value.guestLayout == None
    ensures sent.Some? ==> (sent.value.textOverlay.Some? <==> OverlayRequested(args))
    ensures sent.Some? && OverlayRequested(args) ==>
      var o := args.transforms.value["text_overlay"];
      sent.value.textOverlay == Some(Overlay(o.text.s, OrDefault(o.position, "top"), OrDefault(o.size, "medium")))
    ensures sent.Some? && sent.value.textOverlay.Some? ==> !Blank(sent.value.textOverlay.value.text)
  {
    var clean := CleanTransforms(None, None, None, None);
    if IsLecture(conferenceType) {
      if Truthy(args.hostLayout) {
        clean := clean.(hostLayout := Some(args.hostLayout.s));
      }
      if Truthy(args.guestLayout) {
        clean := clean.(guestLayout := Some(args.guestLayout.s));
      }
    } else if Truthy(args.layout) {
      clean := clean.(layout := Some(args.layout.s));
    }
    if args.transforms.Some? && "text_overlay" in args.transforms.value {
      var o := args.transforms.value["text_overlay"];
      if o.text.Str? && Trim(o.text.s) != "" {
        TrimEmptyIffBlank(o.text.s);
        clean := clean.(textOverlay := Some(Overlay(o.text.s, OrDefault(o.position, "top"), OrDefault(o.size, "medium"))));
      }
    }
    if KeyCount(clean) > 0 {
      sent := Some(clean);
    } else {
      sent := None;
    }
  }

  // ---------------------------------------------------------------------------
  // The layout selectors

  /** The outcome of a selector: no call to `transformLayout`, or a call that
      was refused, or a call that sent a body. */
  datatype Outcome = NoCall | Called(sent: Option<CleanTransforms>)

  function NoArgs(): LayoutArgs {
    LayoutArgs(Undefined, Undefined, Undefined, None)
  }

  /** The selections the layout pickers show. */
  class Selection {
    var conferenceType: JsStr
    var selectedLayout: JsStr
    var selectedHostLayout: JsStr
    var selectedGuestLayout: JsStr

    constructor (conferenceType: JsStr)
      ensures this.conferenceType == conferenceType
      ensures selectedLayout == Str("") && selectedHostLayout == Str("") && selectedGuestLayout == Str("")
    {
      this.conferenceType := conferenceType;
      selectedLayout := Str("");
      selectedHostLayout := Str("");
      selectedGuestLayout := Str("");
    }

    /** `onSetLayout`: always records the key; calls `transformLayout` only
        for a key that is not blank. In a lecture conference that call sends
        nothing, because the lecture branch ignores `layout`. */
    method OnSetLayout(key: JsStr) returns (outcome: Outcome)
      modifies this
      ensures selectedLayout == key
      ensures conferenceType == old(conferenceType) && selectedHostLayout == old(selectedHostLayout)
      ensures selectedGuestLayout == old(selectedGuestLayout)
      ensures outcome.Called? <==> Truthy(key) && Trim(key.s) != ""
      ensures outcome.Called? && !IsLecture(conferenceType) ==>
        outcome.sent == Some(CleanTransforms(Some(key.s), None, None, None))
      ensures outcome.Called? && IsLecture(conferenceType) ==> outcome.sent == None
    {
      selectedLayout := key;
      if Truthy(key) && Trim(key.s) != "" {
        var sent := TransformLayout(conferenceType, NoArgs().(layout := key));
        outcome := Called(sent);
      } else {
        outcome := NoCall;
      }
    }

    /** `onSetHostLayout`: records the key; calls `transformLayout` for a
        truthy key, which sends `host_layout` in a lecture conference and
        nothing otherwise. */
    method OnSetHostLayout(key: JsStr) returns (outcome: Outcome)
      modifies this
      ensures selectedHostLayout == key
      ensures conferenceType == old(conferenceType) && selectedLayout == old(selectedLayout)
      ensures selectedGuestLayout == old(selectedGuestLayout)
      ensures outcome.Called? <==> Truthy(key)
      ensures outcome.Called? && IsLecture(conferenceType) ==>
        outcome.sent == Some(CleanTransforms(None, Some(key.s), None, None))
      ensures outcome.Called? && !IsLecture(conferenceType) ==> outcome.sent == None
    {
      selectedHostLayout := key;
      if Truthy(key) {
        var sent := TransformLayout(conferenceType, NoArgs().(hostLayout := key));
        outcome := Called(sent);
      } else {
        outcome := NoCall;
      }
    }

    /** `onSetGuestLayout`: as `onSetHostLayout`, for `guest_layout`. */
    method OnSetGuestLayout(key: JsStr) returns (outcome: Outcome)
      modifies this
      ensures selectedGuestLayout == key
      ensures conferenceType == old(conferenceType) && selectedLayout == old(selectedLayout)
      ensures selectedHostLayout == old(selectedHostLayout)
      ensures outcome.Called? <==> Truthy(key)
      ensures outcome.Called? && IsLecture(conferenceType) ==>
        outcome.sent == Some(CleanTransforms(None, None, Some(key.s), None))
      ensures outcome.Called? && !IsLecture(conferenceType) ==> outcome.sent == None
    {
      selectedGuestLayout := key;
      if Truthy(key) {
        var sent := TransformLayout(conferenceType, NoArgs().(guestLayout := key));
        outcome := Called(sent);
      } else {
        outcome := NoCall;
      }
    }
  }
}
