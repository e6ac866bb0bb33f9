/**
 * The webhook receiver's front half: the loosely typed webhook body, the
 * extraction of conference identity from it, and its classification into one
 * canonical event (the `sseData` the receiver publishes) or "ignored".
 */
module Ingest {
  import opened Json
  import opened Roster

  /** The fields of `eventData.data` the receiver reads. */
  datatype WebhookData = WebhookData(
    name: JsStr,
    conference: JsStr,
    displayName: JsStr,
    destinationAlias: JsStr,
    uuid: JsStr,
    role: JsStr,
    isStarted: Option<bool>,
    isLocked: Option<bool>,
    isMuted: Option<bool>,
    isVideoMuted: Option<bool>,
    isPresenting: Option<bool>)

  /** The value of `eventData.data`: `null` or missing, a primitive (a boolean,
      number or string, truthy or not), or an object. */
  datatype Body = Nullish | Primitive(truthy: bool) | Object(fields: WebhookData)

  /** A webhook body `{ event, data }`. */
  datatype Webhook = Webhook(event: JsStr, data: Body)

  /** What a primitive answers to every field read: `undefined`. */
  const NoFields := WebhookData(Undefined, Undefined, Undefined, Undefined, Undefined, Undefined,
                                None, None, None, None, None)

  /** `if (eventData.data)` */
  predicate BodyTruthy(b: Body) {
    b.Object? || (b.Primitive? && b.truthy)
  }

  /** What a read `eventData.data.x` sees; `None` where the read throws. */
  function Fields(b: Body): Option<WebhookData> {
    match b
    case Nullish => None
    case Primitive(_) => Some(NoFields)
    case Object(d) => Some(d)
  }

  /** The receiver's locals `conferenceAlias`, `conferenceName`, `destinationAlias`
      after extraction; each is `null` or a non-empty string. */
  datatype Identity = Identity(alias: Option<string>, name: Option<string>, destination: Option<string>)

  /** The first truthy field of a fallback chain, or `null` when none is. */
  function FirstPresent(xs: seq<JsStr>): (r: Option<string>)
    ensures r.Some? <==> exists i :: 0 <= i < |xs| && Truthy(xs[i])
    ensures r.Some? ==> (r.value != "" &&
      exists i :: 0 <= i < |xs| && xs[i] == Str(r.value) && forall j :: 0 <= j < i ==> !Truthy(xs[j]))
  {
    if xs == [] then None
    else if Truthy(xs[0]) then Some(xs[0].s)
    else
      var r := FirstPresent(xs[1..]);
      assert forall i :: 1 <= i < |xs| ==> xs[i] == xs[1..][i - 1];
      if r.Some? then
        var k :| 0 <= k < |xs[1..]| && xs[1..][k] == Str(r.value) && forall j :: 0 <= j < k ==> !Truthy(xs[1..][j]);
        assert xs[k + 1] == Str(r.value) && forall j :: 0 <= j < k + 1 ==> !Truthy(xs[j]);
        r
      else r
  }

  /** Identity as a fallback chain, read only when `data` is truthy: the alias
      is `conference`, else `name`; the display name is `name`, else
      `conference`, else `display_name`; the destination alias is
      `destination_alias` when truthy. */
  function IdentityOf(data: Body): (r: Identity)
    ensures r.alias.Some? ==> data.Object? && r.name.Some?
    ensures data.Object? && Truthy(data.fields.conference) ==> r.alias == Some(data.fields.conference.s)
    ensures data.Object? && !Truthy(data.fields.conference) ==> r.alias == FirstPresent([data.fields.name])
    ensures !data.Object? ==> r == Identity(None, None, None)
  {
    if BodyTruthy(data) then
      var d := Fields(data).value;
      UnfoldChains(d);
      assert [d.name][1..] == [];
      Identity(
        FirstPresent([d.conference, d.name]),
        FirstPresent([d.name, d.conference, d.displayName]),
        FirstPresent([d.destinationAlias]))
    else Identity(None, None, None)
  }

  /** The receiver's extraction, reassigning its three locals field by field. */
  method ExtractIdentity(data: Body) returns (alias: Option<string>, name: Option<string>, destination: Option<string>)
    ensures Identity(alias, name, destination) == IdentityOf(data)
    ensures data.Object? && Truthy(data.fields.conference) ==> alias == Some(data.fields.conference.s)
    ensures alias.Some? ==> data.Object? && (Str(alias.value) == data.fields.conference || Str(alias.value) == data.fields.name)
  {
    alias, name, destination := None, None, None;
    if BodyTruthy(data) {
      var d := Fields(data).value;
      UnfoldChains(d);
      if Truthy(d.name) {
        name := Some(d.name.s);
        alias := Some(d.name.s);
      }
      if Truthy(d.conference) {
        alias := Some(d.conference.s);
        if !Present(name) {
          name := Some(d.conference.s);
        }
      }
      if Truthy(d.displayName) && !Present(name) {
        name := Some(d.displayName.s);
      }
      if Truthy(d.destinationAlias) {
        destination := Some(d.destinationAlias.s);
      }
    }
  }

  function Or(v: JsStr, rest: Option<string>): Option<string> {
    if Truthy(v) then Some(v.s) else rest
  }

  /** The three fallback chains of the receiver, spelled out. */
  lemma UnfoldChains(d: WebhookData)
    ensures FirstPresent([d.conference, d.name]) == Or(d.conference, Or(d.name, None))
    ensures FirstPresent([d.name, d.conference, d.displayName]) == Or(d.name, Or(d.conference, Or(d.displayName, None)))
    ensures FirstPresent([d.destinationAlias]) == Or(d.destinationAlias, None)
  {
    assert [d.conference, d.name][1..] == [d.name];
    assert [d.name, d.conference, d.displayName][1..] == [d.conference, d.displayName];
    assert [d.conference, d.displayName][1..] == [d.displayName];
    assert FirstPresent([d.conference, d.displayName]) == Or(d.conference, Or(d.displayName, None));
    assert [d.name][1..] == [] && [d.displayName][1..] == [] && [d.destinationAlias][1..] == [];
  }

  /** `display_name` is only ever a fallback for the name: it never becomes the alias. */
  lemma DisplayNameNeverAlias(d: WebhookData)
    requires !Truthy(d.conference) && !Truthy(d.name)
    ensures IdentityOf(Object(d)).alias == None
    ensures Truthy(d.displayName) ==> IdentityOf(Object(d)).name == Some(d.displayName.s)
  {
    UnfoldChains(d);
  }

  /** The canonical event: the `sseData` record built by the receiver's switch,
      or the two outcomes that publish nothing. */
  datatype Event =
    | ConferenceStarted(alias: Option<string>, name: Option<string>, timestamp: string)
    | ConferenceEnded(alias: Option<string>, name: Option<string>, timestamp: string)
    | ConferenceUpdated(alias: Option<string>, name: Option<string>,
                        isStarted: Option<bool>, isLocked: Option<bool>,
                        destinationAlias: JsStr, timestamp: string)
    | ParticipantConnected(conferenceAlias: string, destinationAlias: JsStr,
                           participant: Participant, timestamp: string,
                           /* the extracted conference name; the store uses it, the frame does not carry it */
                           conferenceName: Option<string>)
    | ParticipantUpdated(conferenceAlias: string, participant: Participant, timestamp: string)
    | ParticipantDisconnected(conferenceAlias: string, uuid: JsStr, timestamp: string)
    | Ignored
      /** `conference_updated` whose `data` is `null` or missing: reading
          `data.is_started` throws. */
    | Malformed

  predicate Publishes(ev: Event) {
    !ev.Ignored? && !ev.Malformed?
  }

  /** The `eventType` of a published event. */
  function EventName(ev: Event): string
    requires Publishes(ev)
  {
    match ev
    case ConferenceStarted(_, _, _) => "conference_started"
    case ConferenceEnded(_, _, _) => "conference_ended"
    case ConferenceUpdated(_, _, _, _, _, _) => "conference_updated"
    case ParticipantConnected(_, _, _, _, _) => "participant_connected"
    case ParticipantUpdated(_, _, _) => "participant_updated"
    case ParticipantDisconnected(_, _, _) => "participant_disconnected"
  }

  function OptStr(o: Option<string>): JsStr {
    if o.Some? then Str(o.value) else Null
  }

  /** The receiver's switch on `eventData.event`, with `now` standing for `new Date().toISOString()`. */
  function Normalize(w: Webhook, now: string): (ev: Event)
    ensures Publishes(ev) ==> w.event == Str(EventName(ev))
    ensures ev.Malformed? <==> w.event == Str("conference_updated") && w.data.Nullish?
    ensures ev.ConferenceUpdated? ==> ev.destinationAlias == Undefined
    ensures ev.ConferenceUpdated? && !w.data.Object? ==> ev == ConferenceUpdated(None, None, None, None, Undefined, now)
    ensures ev.ParticipantConnected? ==> ev.participant.isPresenting == Some(false)
  {
    var id := IdentityOf(w.data);
    if w.event == Str("conference_started") then
      ConferenceStarted(id.alias, id.name, now)
    else if w.event == Str("conference_ended") then
      ConferenceEnded(id.alias, id.name, now)
    else if w.event == Str("conference_updated") then
      match Fields(w.data)
      case None => Malformed
      case Some(d) => ConferenceUpdated(id.alias, id.name, d.isStarted, d.isLocked, Undefined, now)
    else if w.event == Str("participant_connected") then
      if id.alias.None? || !BodyTruthy(w.data) then Ignored
      else
        var d := Fields(w.data).value;
        ParticipantConnected(id.alias.value, OptStr(id.destination),
          Participant(d.uuid, d.displayName, d.role, d.isMuted, d.isVideoMuted, Some(false)), now, id.name)
    else if w.event == Str("participant_updated") then
      if id.alias.None? || !BodyTruthy(w.data) then Ignored
      else
        var d := Fields(w.data).value;
        ParticipantUpdated(id.alias.value,
          Participant(d.uuid, d.displayName, d.role, d.isMuted, d.isVideoMuted, d.isPresenting), now)
    else if w.event == Str("participant_disconnected") then
      if id.alias.None? || !BodyTruthy(w.data) then Ignored
      else ParticipantDisconnected(id.alias.value, Fields(w.data).value.uuid, now)
    else Ignored
  }

  const HandledTypes: set<JsStr> := {
    Str("conference_started"), Str("conference_ended"), Str("conference_updated"),
    Str("participant_connected"), Str("participant_updated"), Str("participant_disconnected")
  }

  /** An event is ignored exactly when its type is not one of the six, or it is a
      participant event whose body names no conference. */
  lemma IgnoredClassification(w: Webhook, now: string)
    ensures Normalize(w, now).Ignored? <==>
      w.event !in HandledTypes
      || (w.event in {Str("participant_connected"), Str("participant_updated"), Str("participant_disconnected")}
          && IdentityOf(w.data).alias.None?)
  {
  }

  /** The reply to the webhook caller: `{status}` with its HTTP code. */
  datatype Reply = Reply(code: int, status: string)

  function Respond(ev: Event): (r: Reply)
    ensures r.code == 500 <==> ev.Malformed?
    ensures r.status == "success" <==> Publishes(ev)
    ensures r.status == "ignored" <==> ev.Ignored?
  {
    if ev.Malformed? then Reply(500, "error")
    else if ev.Ignored? then Reply(200, "ignored")
    else Reply(200, "success")
  }

  /** What is published on the channel: `sseData`, when it was built. */
  function Published(ev: Event): (r: Option<Event>)
    ensures r.Some? <==> Respond(ev).status == "success"
    ensures r.Some? ==> r.value == ev
  {
    if Publishes(ev) then Some(ev) else None
  }
}
