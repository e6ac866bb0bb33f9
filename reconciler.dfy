/**
 * The dashboard's client-side reconciler: the conference list it bootstraps
 * from the snapshot endpoint, and the updaters it runs for each event of the
 * live stream, on the conference list and on the roster of the conference the
 * user has joined.
 */
module Reconciler {
  import opened Json
  import opened Roster
  import opened Ingest
  import Store

  /** An entry of `activeConferences`. */
  datatype ClientConference = ClientConference(
    alias: JsStr,
    name: JsStr,
    startTime: string,
    isStarted: Option<bool>,
    isLocked: Option<bool>,
    destinationAlias: JsStr,
    participants: seq<Participant>)

  /** The reconciled state: `activeConferences`, the alias of the joined
      conference, and that conference's roster `participants`. */
  datatype View = View(conferences: seq<ClientConference>, joined: JsStr, participants: seq<Participant>)

  /** `prev.some(conf => conf.conferenceAlias === a)` */
  predicate HasConference(cs: seq<ClientConference>, a: JsStr) {
    exists i :: 0 <= i < |cs| && cs[i].alias == a
  }

  /** Every roster in the list is free of repeated uuids. */
  predicate RostersUnique(cs: seq<ClientConference>) {
    forall i :: 0 <= i < |cs| ==> UniqueUuids(cs[i].participants)
  }

  // ---------------------------------------------------------------------------
  // Bootstrapping from the snapshot

  /** `{...p, is_muted: Boolean(p.is_muted), …}` on a decoded snapshot row. */
  function ParseParticipant(v: Store.ParticipantView): (p: Participant)
    ensures p.isMuted == Some(v.isMuted) && p.isVideoMuted == Some(v.isVideoMuted)
      && p.isPresenting == Some(v.isPresenting)
    ensures !p.uuid.Undefined? && !p.displayName.Undefined? && !p.role.Undefined?
  {
    Participant(FromSql(v.uuid), FromSql(v.displayName), FromSql(v.role),
                Some(v.isMuted), Some(v.isVideoMuted), Some(v.isPresenting))
  }

  function ParseParticipants(vs: seq<Store.ParticipantView>): (r: seq<Participant>)
    ensures |r| == |vs|
    ensures forall i :: 0 <= i < |vs| ==> r[i] == ParseParticipant(vs[i])
  {
    if vs == [] then [] else [ParseParticipant(vs[0])] + ParseParticipants(vs[1..])
  }

  function ParseConference(c: Store.ConferenceView): (r: ClientConference)
    ensures r.isStarted == Some(c.isStarted) && r.isLocked == Some(c.isLocked)
    ensures |r.participants| == |c.participants|
    ensures forall i :: 0 <= i < |c.participants| ==> r.participants[i] == ParseParticipant(c.participants[i])
  {
    ClientConference(FromSql(c.alias), FromSql(c.name), c.startTime, Some(c.isStarted), Some(c.isLocked),
                     FromSql(c.destinationAlias), ParseParticipants(c.participants))
  }

  /** The initial fetch: `data.map(conf => ({...conf, is_started: Boolean(…), …}))`. */
  function ParseSnapshot(snap: seq<Store.ConferenceView>): (r: seq<ClientConference>)
    ensures |r| == |snap|
    ensures forall i :: 0 <= i < |snap| ==> r[i] == ParseConference(snap[i])
  {
    if snap == [] then [] else [ParseConference(snap[0])] + ParseSnapshot(snap[1..])
  }

  /** A participant stored by the receiver and read back through a snapshot is
      the participant the event carried, provided it had no missing fields. */
  lemma ParticipantRoundTrip(p: Participant, alias: string)
    requires !p.uuid.Undefined? && !p.displayName.Undefined? && !p.role.Undefined?
    requires p.isMuted.Some? && p.isVideoMuted.Some? && p.isPresenting.Some?
    ensures ParseParticipant(Store.ViewOf(Store.RowOf(p, alias))) == p
  {
    SqlRoundTrip(p.uuid);
    SqlRoundTrip(p.displayName);
    SqlRoundTrip(p.role);
    assert (Store.Bit(Flag(p.isMuted)) != 0) == p.isMuted.value;
    assert (Store.Bit(Flag(p.isVideoMuted)) != 0) == p.isVideoMuted.value;
    assert (Store.Bit(Flag(p.isPresenting)) != 0) == p.isPresenting.value;
  }

  // ---------------------------------------------------------------------------
  // Conference list updaters

  /** `conference_started`: add `{...data, start_time, participants: []}` unless
      the alias is already listed. */
  function OnConferenceStarted(prev: seq<ClientConference>, alias: JsStr, name: JsStr, now: string): (r: seq<ClientConference>)
    ensures HasConference(r, alias)
    ensures |prev| <= |r| <= |prev| + 1 && r[..|prev|] == prev
  {
    if HasConference(prev, alias) then prev
    else
      var r := prev + [ClientConference(alias, name, now, None, None, Undefined, [])];
      assert r[|prev|].alias == alias;
      r
  }

  /** `conference_started` adds only an absent alias, so a repeated event is a
      no-op, and the added entry has an empty roster. */
  lemma ConferenceStartedIdempotent(prev: seq<ClientConference>, alias: JsStr, name: JsStr, now: string, later: string)
    ensures HasConference(prev, alias) ==> OnConferenceStarted(prev, alias, name, now) == prev
    ensures !HasConference(prev, alias) ==>
      OnConferenceStarted(prev, alias, name, now)[|prev|].participants == []
    ensures OnConferenceStarted(OnConferenceStarted(prev, alias, name, now), alias, name, later) ==
      OnConferenceStarted(prev, alias, name, now)
  {
  }

  /** `conference_ended`: `prev.filter(conf => conf.conferenceAlias !== alias)` */
  function OnConferenceEnded(prev: seq<ClientConference>, alias: JsStr): (r: seq<ClientConference>)
    ensures !HasConference(r, alias)
    ensures forall c :: c in r <==> c in prev && c.alias != alias
  {
    if prev == [] then []
    else
      var rest := OnConferenceEnded(prev[1..], alias);
      assert forall c :: c in prev <==> c == prev[0] || c in prev[1..] by {
        assert prev == [prev[0]] + prev[1..];
      }
      if prev[0].alias == alias then rest
      else
        assert !HasConference([prev[0]] + rest, alias) by {
          forall i | 0 <= i < |[prev[0]] + rest| ensures ([prev[0]] + rest)[i].alias != alias {
            if i > 0 { assert ([prev[0]] + rest)[i] in rest; }
          }
        }
        [prev[0]] + rest
  }

  /** Ending an unknown conference leaves the list as it was; ending one twice
      is ending it once. */
  lemma {:induction false} ConferenceEndedUnknownIsNoOp(prev: seq<ClientConference>, alias: JsStr)
    requires !HasConference(prev, alias)
    ensures OnConferenceEnded(prev, alias) == prev
  {
    if prev != [] {
      assert prev[0].alias != alias;
      assert !HasConference(prev[1..], alias) by {
        forall i | 0 <= i < |prev[1..]| ensures prev[1..][i].alias != alias {
          assert prev[1..][i] == prev[i + 1];
        }
      }
      ConferenceEndedUnknownIsNoOp(prev[1..], alias);
      assert prev == [prev[0]] + prev[1..];
    }
  }

  /** Ending a conference filters the list entry by entry: it distributes over
      concatenation, so the other conferences keep their order. */
  lemma {:induction false} ConferenceEndedIsFilter(a: seq<ClientConference>, b: seq<ClientConference>,
                                                   c: ClientConference, alias: JsStr)
    ensures OnConferenceEnded(a + b, alias) == OnConferenceEnded(a, alias) + OnConferenceEnded(b, alias)
    ensures OnConferenceEnded([c], alias) == if c.alias == alias then [] else [c]
  {
    assert [c][1..] == [];
    if a == [] {
      assert a + b == b;
    } else {
      assert (a + b)[0] == a[0] && (a + b)[1..] == a[1..] + b;
      ConferenceEndedIsFilter(a[1..], b, c, alias);
    }
  }

  lemma ConferenceEndedIdempotent(prev: seq<ClientConference>, alias: JsStr)
    ensures OnConferenceEnded(OnConferenceEnded(prev, alias), alias) == OnConferenceEnded(prev, alias)
  {
    ConferenceEndedUnknownIsNoOp(OnConferenceEnded(prev, alias), alias);
  }

  /** The entry after `conference_updated`: the two flags overwritten, the
      destination alias kept when the event's is `undefined`. */
  function UpdatedConference(c: ClientConference, isStarted: Option<bool>, isLocked: Option<bool>, destination: JsStr): ClientConference {
    c.(isStarted := isStarted, isLocked := isLocked,
       destinationAlias := if !destination.Undefined? then destination else c.destinationAlias)
  }

  /** `conference_updated`: `prev.map(conf => conf.conferenceAlias === alias ? {...} : conf)` */
  function OnConferenceUpdated(prev: seq<ClientConference>, alias: JsStr, isStarted: Option<bool>, isLocked: Option<bool>,
                               destination: JsStr): (r: seq<ClientConference>)
    ensures |r| == |prev|
    ensures forall i :: 0 <= i < |prev| && prev[i].alias != alias ==> r[i] == prev[i]
    ensures forall i :: 0 <= i < |prev| && prev[i].alias == alias ==>
      r[i] == UpdatedConference(prev[i], isStarted, isLocked, destination)
  {
    seq(|prev|, i requires 0 <= i < |prev| =>
      if prev[i].alias == alias then UpdatedConference(prev[i], isStarted, isLocked, destination) else prev[i])
  }

  /** `conference_updated` sets the flags of every entry with that alias and
      nothing else there: alias, name, start time and roster are kept, and so
      is the destination alias when the event leaves it `undefined`. A
      repeated event is a no-op. */
  lemma ConferenceUpdatedContract(prev: seq<ClientConference>, alias: JsStr, isStarted: Option<bool>, isLocked: Option<bool>,
                                  destination: JsStr)
    ensures var r := OnConferenceUpdated(prev, alias, isStarted, isLocked, destination);
      forall i :: 0 <= i < |prev| && prev[i].alias == alias ==>
        && r[i].isStarted == isStarted && r[i].isLocked == isLocked
        && r[i].alias == prev[i].alias && r[i].name == prev[i].name
        && r[i].startTime == prev[i].startTime && r[i].participants == prev[i].participants
        && (destination.Undefined? ==> r[i].destinationAlias == prev[i].destinationAlias)
        && (!destination.Undefined? ==> r[i].destinationAlias == destination)
    ensures var r := OnConferenceUpdated(prev, alias, isStarted, isLocked, destination);
      OnConferenceUpdated(r, alias, isStarted, isLocked, destination) == r
  {
  }

  /** The entry after `participant_connected`: the destination alias is set
      only when the event carries one and the entry has none; the participant
      is added if its uuid is absent, keeping the roster sorted. */
  function ConnectedConference(c: ClientConference, destination: JsStr, p: Participant): ClientConference {
    var withDestination :=
      if Truthy(destination) && !Truthy(c.destinationAlias) then c.(destinationAlias := destination) else c;
    withDestination.(participants := AddIfAbsent(withDestination.participants, p))
  }

  /** `participant_connected` on the conference list. */
  function OnParticipantConnected(prev: seq<ClientConference>, alias: JsStr, destination: JsStr, p: Participant): (r: seq<ClientConference>)
    ensures |r| == |prev|
    ensures forall i :: 0 <= i < |prev| && prev[i].alias != alias ==> r[i] == prev[i]
    ensures forall i :: 0 <= i < |prev| && prev[i].alias == alias ==> r[i] == ConnectedConference(prev[i], destination, p)
  {
    seq(|prev|, i requires 0 <= i < |prev| =>
      if prev[i].alias == alias then ConnectedConference(prev[i], destination, p) else prev[i])
  }

  /** `participant_connected`: the destination alias is taken only when the
      entry has none (a later, different one is not taken); the participant's
      uuid is then listed, uuids stay unique, and a repeated event is a no-op. */
  lemma ParticipantConnectedContract(c: ClientConference, destination: JsStr, p: Participant)
    ensures var r := ConnectedConference(c, destination, p);
      && (Truthy(c.destinationAlias) ==> r.destinationAlias == c.destinationAlias)
      && (!Truthy(c.destinationAlias) && Truthy(destination) ==> r.destinationAlias == destination)
      && (!Truthy(destination) ==> r.destinationAlias == c.destinationAlias)
      && HasUuid(r.participants, p.uuid)
      && (UniqueUuids(c.participants) ==> UniqueUuids(r.participants))
      && (HasUuid(c.participants, p.uuid) ==> r.participants == c.participants)
      && ConnectedConference(r, destination, p) == r
  {
    var r := ConnectedConference(c, destination, p);
    AddIfAbsentContract(c.participants, p);
    AddIfAbsentIdempotent(c.participants, p);
  }

  /** `participant_updated` on the conference list. */
  function OnParticipantUpdated(prev: seq<ClientConference>, alias: JsStr, p: Participant): (r: seq<ClientConference>)
    ensures |r| == |prev|
    ensures forall i :: 0 <= i < |prev| && prev[i].alias != alias ==> r[i] == prev[i]
    ensures forall i :: 0 <= i < |prev| && prev[i].alias == alias ==>
      r[i] == prev[i].(participants := ReplaceByUuid(prev[i].participants, p))
  {
    seq(|prev|, i requires 0 <= i < |prev| =>
      if prev[i].alias == alias then prev[i].(participants := ReplaceByUuid(prev[i].participants, p)) else prev[i])
  }

  /** `participant_disconnected` on the conference list. */
  function OnParticipantDisconnected(prev: seq<ClientConference>, alias: JsStr, uuid: JsStr): (r: seq<ClientConference>)
    ensures |r| == |prev|
    ensures forall i :: 0 <= i < |prev| && prev[i].alias != alias ==> r[i] == prev[i]
    ensures forall i :: 0 <= i < |prev| && prev[i].alias == alias ==>
      r[i] == prev[i].(participants := RemoveByUuid(prev[i].participants, uuid))
  {
    seq(|prev|, i requires 0 <= i < |prev| =>
      if prev[i].alias == alias then prev[i].(participants := RemoveByUuid(prev[i].participants, uuid)) else prev[i])
  }

  /** `participant_disconnected` removes that uuid from the matching rosters
      only, each of which, when its uuids are distinct and it lists the uuid,
      shrinks by exactly one. */
  lemma ParticipantDisconnectedContract(prev: seq<ClientConference>, alias: JsStr, uuid: JsStr)
    requires RostersUnique(prev)
    ensures var r := OnParticipantDisconnected(prev, alias, uuid);
      && RostersUnique(r)
      && (forall i :: 0 <= i < |prev| && prev[i].alias == alias ==>
            !HasUuid(r[i].participants, uuid)
            && (HasUuid(prev[i].participants, uuid) ==> |r[i].participants| == |prev[i].participants| - 1)
            && (!HasUuid(prev[i].participants, uuid) ==> r[i] == prev[i]))
  {
    var r := OnParticipantDisconnected(prev, alias, uuid);
    forall i | 0 <= i < |prev| && prev[i].alias == alias
      ensures UniqueUuids(r[i].participants)
      ensures HasUuid(prev[i].participants, uuid) ==> |r[i].participants| == |prev[i].participants| - 1
      ensures !HasUuid(prev[i].participants, uuid) ==> r[i] == prev[i]
    {
      RemoveByUuidContract(prev[i].participants, uuid);
      if !HasUuid(prev[i].participants, uuid) {
        RemoveAbsentIsIdentity(prev[i].participants, uuid);
      }
    }
  }

  /** On the whole list, `participant_connected` is idempotent and keeps
      every roster free of repeated uuids. */
  lemma ConnectedListFacts(prev: seq<ClientConference>, alias: JsStr, destination: JsStr, p: Participant)
    ensures var r := OnParticipantConnected(prev, alias, destination, p);
      && OnParticipantConnected(r, alias, destination, p) == r
      && (RostersUnique(prev) ==> RostersUnique(r))
  {
    var r := OnParticipantConnected(prev, alias, destination, p);
    forall i | 0 <= i < |prev| && prev[i].alias == alias
      ensures ConnectedConference(r[i], destination, p) == r[i]
      ensures UniqueUuids(prev[i].participants) ==> UniqueUuids(r[i].participants)
    {
      ParticipantConnectedContract(prev[i], destination, p);
    }
  }

  /** On the whole list, `participant_updated` is idempotent and keeps every
      roster free of repeated uuids. */
  lemma UpdatedListFacts(prev: seq<ClientConference>, alias: JsStr, p: Participant)
    ensures var r := OnParticipantUpdated(prev, alias, p);
      && OnParticipantUpdated(r, alias, p) == r
      && (RostersUnique(prev) ==> RostersUnique(r))
  {
    var r := OnParticipantUpdated(prev, alias, p);
    forall i | 0 <= i < |prev| && prev[i].alias == alias
      ensures ReplaceByUuid(r[i].participants, p) == r[i].participants
      ensures UniqueUuids(prev[i].participants) ==> UniqueUuids(r[i].participants)
    {
      ReplaceByUuidKeeps(prev[i].participants, p);
    }
  }

  /** On the whole list, `participant_disconnected` is idempotent. */
  lemma DisconnectedListIdempotent(prev: seq<ClientConference>, alias: JsStr, uuid: JsStr)
    ensures var r := OnParticipantDisconnected(prev, alias, uuid);
      OnParticipantDisconnected(r, alias, uuid) == r
  {
    var r := OnParticipantDisconnected(prev, alias, uuid);
    forall i | 0 <= i < |prev| && prev[i].alias == alias
      ensures RemoveByUuid(r[i].participants, uuid) == r[i].participants
    {
      RemoveByUuidIdempotent(prev[i].participants, uuid);
    }
  }

  // ---------------------------------------------------------------------------
  // One live-stream event on the whole view

  /** The event-sink listeners: the conference list always, and the joined
      roster when the event's conference is the joined one. */
  function Reconcile(v: View, ev: Event, now: string): (r: View)
    requires Publishes(ev)
    ensures r.joined == v.joined
    ensures ev.ConferenceStarted? || ev.ConferenceEnded? || ev.ConferenceUpdated? ==> r.participants == v.participants
    ensures (ev.ParticipantConnected? || ev.ParticipantUpdated? || ev.ParticipantDisconnected?) ==>
      v.joined != Str(ev.conferenceAlias) ==> r.participants == v.participants
  {
    match ev
    case ConferenceStarted(alias, name, _) =>
      v.(conferences := OnConferenceStarted(v.conferences, OptStr(alias), OptStr(name), now))
    case ConferenceEnded(alias, _, _) =>
      v.(conferences := OnConferenceEnded(v.conferences, OptStr(alias)))
    case ConferenceUpdated(alias, _, isStarted, isLocked, destination, _) =>
      v.(conferences := OnConferenceUpdated(v.conferences, OptStr(alias), isStarted, isLocked, destination))
    case ParticipantConnected(alias, destination, p, _, _) =>
      View(OnParticipantConnected(v.conferences, Str(alias), destination, p), v.joined,
           if v.joined == Str(alias) then AddIfAbsent(v.participants, p) else v.participants)
    case ParticipantUpdated(alias, p, _) =>
      View(OnParticipantUpdated(v.conferences, Str(alias), p), v.joined,
           if v.joined == Str(alias) then ReplaceByUuid(v.participants, p) else v.participants)
    case ParticipantDisconnected(alias, uuid, _) =>
      View(OnParticipantDisconnected(v.conferences, Str(alias), uuid), v.joined,
           if v.joined == Str(alias) then RemoveByUuid(v.participants, uuid) else v.participants)
  }

  /** At-least-once delivery is harmless: applying the same event twice gives
      the view that applying it once gives. */
  lemma ReconcileIdempotent(v: View, ev: Event, now: string, later: string)
    requires Publishes(ev)
    ensures Reconcile(Reconcile(v, ev, now), ev, later) == Reconcile(v, ev, now)
  {
    if ev.ConferenceStarted? || ev.ConferenceEnded? || ev.ConferenceUpdated? {
      ConferenceEventIdempotent(v, ev, now, later);
    } else {
      ParticipantEventIdempotent(v, ev, now, later);
    }
  }

  lemma ConferenceEventIdempotent(v: View, ev: Event, now: string, later: string)
    requires Publishes(ev) && (ev.ConferenceStarted? || ev.ConferenceEnded? || ev.ConferenceUpdated?)
    ensures Reconcile(Reconcile(v, ev, now), ev, later) == Reconcile(v, ev, now)
  {
    match ev
    case ConferenceStarted(alias, name, _) =>
      ConferenceStartedIdempotent(v.conferences, OptStr(alias), OptStr(name), now, later);
    case ConferenceEnded(alias, _, _) =>
      ConferenceEndedIdempotent(v.conferences, OptStr(alias));
    case ConferenceUpdated(alias, _, isStarted, isLocked, destination, _) =>
      ConferenceUpdatedContract(v.conferences, OptStr(alias), isStarted, isLocked, destination);
  }

  lemma ParticipantEventIdempotent(v: View, ev: Event, now: string, later: string)
    requires Publishes(ev) && !(ev.ConferenceStarted? || ev.ConferenceEnded? || ev.ConferenceUpdated?)
    ensures Reconcile(Reconcile(v, ev, now), ev, later) == Reconcile(v, ev, now)
  {
    match ev
    case ParticipantConnected(alias, destination, p, _, _) =>
      ConnectedListFacts(v.conferences, Str(alias), destination, p);
      AddIfAbsentIdempotent(v.participants, p);
    case ParticipantUpdated(alias, p, _) =>
      UpdatedListFacts(v.conferences, Str(alias), p);
      ReplaceByUuidKeeps(v.participants, p);
    case ParticipantDisconnected(alias, uuid, _) =>
      DisconnectedListIdempotent(v.conferences, Str(alias), uuid);
      RemoveByUuidIdempotent(v.participants, uuid);
  }

  /** Participant events touch only the conference they name, and every roster
      (the joined one included) keeps its uuids distinct. */
  lemma ReconcileKeepsRostersUnique(v: View, ev: Event, now: string)
    requires Publishes(ev) && RostersUnique(v.conferences) && UniqueUuids(v.participants)
    ensures RostersUnique(Reconcile(v, ev, now).conferences)
    ensures UniqueUuids(Reconcile(v, ev, now).participants)
  {
    var r := Reconcile(v, ev, now);
    match ev
    case ConferenceStarted(alias, name, _) =>
      var cs := v.conferences;
      if !HasConference(cs, OptStr(alias)) {
        forall i | 0 <= i < |r.conferences| ensures UniqueUuids(r.conferences[i].participants) {
          if i < |cs| { assert r.conferences[i] == cs[i]; }
        }
      }
    case ConferenceEnded(alias, _, _) =>
      forall i | 0 <= i < |r.conferences| ensures UniqueUuids(r.conferences[i].participants) {
        assert r.conferences[i] in v.conferences;
      }
    case ConferenceUpdated(_, _, _, _, _, _) =>
    case ParticipantConnected(alias, destination, p, _, _) =>
      ConnectedListFacts(v.conferences, Str(alias), destination, p);
      AddIfAbsentContract(v.participants, p);
    case ParticipantUpdated(alias, p, _) =>
      UpdatedListFacts(v.conferences, Str(alias), p);
      ReplaceByUuidKeeps(v.participants, p);
    case ParticipantDisconnected(alias, uuid, _) =>
      ParticipantDisconnectedContract(v.conferences, Str(alias), uuid);
      RemoveByUuidContract(v.participants, uuid);
  }

  // ---------------------------------------------------------------------------
  // The main stream's participant events on the joined roster

  /** `participant_create`, `participant_update` and `participant_delete` as
      the main stream delivers them. */
  datatype MainEvent = ParticipantCreate(p: Participant) | ParticipantUpdate(p: Participant) | ParticipantDelete(p: Participant)

  /** The three main-stream listeners on `participants`. */
  function OnMainStream(prev: seq<Participant>, e: MainEvent): (r: seq<Participant>)
    ensures e.ParticipantCreate? ==> HasUuid(r, e.p.uuid)
    ensures e.ParticipantUpdate? ==> |r| == |prev|
    ensures e.ParticipantDelete? ==> !HasUuid(r, e.p.uuid)
  {
    match e
    case ParticipantCreate(p) =>
      AddIfAbsentContract(prev, p);
      AddIfAbsent(prev, p)
    case ParticipantUpdate(p) => ReplaceByUuid(prev, p)
    case ParticipantDelete(p) => RemoveByUuid(prev, p.uuid)
  }

  /** A create lists the uuid, adding it (sorted) only when absent; an update
      never changes which uuids are listed; a delete keeps exactly the entries
      with another uuid. Every event is idempotent and keeps uuids distinct. */
  lemma MainStreamContract(prev: seq<Participant>, e: MainEvent)
    ensures var r := OnMainStream(prev, e);
      && OnMainStream(r, e) == r
      && (UniqueUuids(prev) ==> UniqueUuids(r))
      && (e.ParticipantCreate? ==>
            && HasUuid(r, e.p.uuid)
            && (HasUuid(prev, e.p.uuid) ==> r == prev)
            && (!HasUuid(prev, e.p.uuid) ==> SortedByName(r) && multiset(r) == multiset(prev) + multiset{e.p}))
      && (e.ParticipantUpdate? ==>
            && |r| == |prev|
            && (forall u :: HasUuid(r, u) <==> HasUuid(prev, u))
            && (forall i :: 0 <= i < |prev| && prev[i].uuid == e.p.uuid ==> r[i] == e.p))
      && (e.ParticipantDelete? ==> forall x :: x in r <==> x in prev && x.uuid != e.p.uuid)
  {
    match e
    case ParticipantCreate(p) =>
      AddIfAbsentContract(prev, p);
      AddIfAbsentIdempotent(prev, p);
    case ParticipantUpdate(p) =>
      ReplaceByUuidNeverInserts(prev, p);
    case ParticipantDelete(p) =>
      RemoveByUuidIdempotent(prev, p.uuid);
      if UniqueUuids(prev) {
        RemoveByUuidContract(prev, p.uuid);
      }
  }
}
