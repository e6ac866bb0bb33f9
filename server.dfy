/**
 * The receiver's database handle as an object whose two tables the webhook
 * handler updates in place, statement by statement.
 */
module Server {
  import opened Json
  import opened Roster
  import opened Ingest
  import opened Store
  import opened StoreFacts

  class Database {
    /** `conferences`, in rowid order */
    var conferences: seq<ConferenceRow>
    /** `participants`, in rowid order */
    var participants: seq<ParticipantRow>

    function State(): Db
      reads this
    {
      Db(conferences, participants)
    }

    /** The schema's key and foreign-key constraints. */
    predicate Valid()
      reads this
    {
      Consistent(State())
    }

    /** `CREATE TABLE IF NOT EXISTS` on a fresh file. */
    constructor ()
      ensures Valid() && conferences == [] && participants == []
    {
      conferences := [];
      participants := [];
    }

    /** `upsertConference`: read the stored destination alias, then
        `INSERT OR REPLACE` the row. */
    method UpsertConference(alias: Option<string>, name: Option<string>, isStarted: bool, isLocked: bool,
                            destination: Option<string>, startTime: string)
      requires Valid()
      modifies this
      ensures Valid()
      ensures State() == Upsert(old(State()), alias, name, isStarted, isLocked, destination, startTime, Replace)
    {
      var existing := Lookup(conferences, alias);
      var current := if existing.Some? then existing.value.destinationAlias else None;
      var finalDestination := if Present(destination) then destination else current;
      var row := ConferenceRow(alias, if Present(name) then name else alias, startTime,
                               Bit(isStarted), Bit(isLocked), finalDestination);
      ghost var target := ReplaceConference(State(), row);
      assert row == UpsertRow(State(), alias, name, isStarted, isLocked, destination, startTime);
      assert Upsert(State(), alias, name, isStarted, isLocked, destination, startTime, Replace) == target;
      WriteConferenceKeepsConsistent(State(), row, Replace);
      if alias.Some? {
        conferences := DropConference(conferences, alias.value);
        participants := DropParticipantsOf(participants, alias.value);
      }
      conferences := conferences + [row];
    }

    /** `DELETE FROM conferences WHERE conferenceAlias = ?` and its cascade. */
    method DeleteConference(alias: Option<string>)
      requires Valid()
      modifies this
      ensures Valid()
      ensures State() == Store.DeleteConference(old(State()), alias)
    {
      DeleteConferenceKeepsConsistent(State(), alias);
      if alias.Some? {
        conferences := DropConference(conferences, alias.value);
        participants := DropParticipantsOf(participants, alias.value);
      }
    }

    /** `INSERT OR IGNORE INTO participants` for a participant of a stored conference. */
    method InsertParticipant(row: ParticipantRow)
      requires Valid() && HasAlias(conferences, row.conferenceAlias)
      modifies this
      ensures Valid()
      ensures conferences == old(conferences)
      ensures participants == InsertOrIgnore(old(participants), row)
    {
      if !(row.uuid.Some? && HasUuidRow(participants, row.uuid.value)) {
        UuidsUniqueSnoc(participants, row);
        participants := participants + [row];
      }
    }

    /** `UPDATE participants SET … WHERE uuid = ? AND conferenceAlias = ?` */
    method UpdateParticipant(p: Participant, alias: string)
      requires Valid()
      modifies this
      ensures Valid()
      ensures conferences == old(conferences)
      ensures participants == Store.UpdateParticipant(old(participants), p, alias)
    {
      UpdateParticipantKeepsConsistent(State(), p, alias);
      participants := Store.UpdateParticipant(participants, p, alias);
    }

    /** `DELETE FROM participants WHERE uuid = ? AND conferenceAlias = ?` */
    method DeleteParticipant(uuid: Option<string>, alias: string)
      requires Valid()
      modifies this
      ensures Valid()
      ensures conferences == old(conferences)
      ensures participants == Store.DeleteParticipant(old(participants), uuid, alias)
    {
      participants := Store.DeleteParticipant(participants, uuid, alias);
    }

    /** The two statements of `participant_connected`: make sure the
        conference row exists, then `INSERT OR IGNORE` the participant. */
    method ConnectParticipant(alias: string, name: Option<string>, destination: Option<string>,
                              participant: Participant, now: string)
      requires Valid()
      modifies this
      ensures Valid()
      ensures State() == ApplyEvent(old(State()), ParticipantConnected(alias, OptStr(destination), participant, now, name), Replace)
    {
      var storedName := if Present(name) then name else Some(alias);
      ghost var row := UpsertRow(State(), Some(alias), storedName, true, false, destination, now);
      WriteConferenceKeepsConsistent(State(), row, Replace);
      UpsertConference(Some(alias), storedName, true, false, destination, now);
      assert row in conferences && row.alias == Some(alias);
      InsertParticipant(RowOf(participant, alias));
    }

    /** The switch's three conference cases: build `sseData` and run the
        statements. `conference_updated` with a `null` or missing `data` is the caller's. */
    method ConferenceEvent(w: Webhook, alias: Option<string>, name: Option<string>, now: string)
      returns (sseData: Option<Event>)
      requires Valid()
      requires w.event in {Str("conference_started"), Str("conference_ended"), Str("conference_updated")}
      requires w.event == Str("conference_updated") ==> !w.data.Nullish?
      requires alias == IdentityOf(w.data).alias && name == IdentityOf(w.data).name
      modifies this
      ensures Valid()
      ensures State() == ApplyEvent(old(State()), Normalize(w, now), Replace)
      ensures sseData == Published(Normalize(w, now))
    {
      if w.event == Str("conference_started") {
        sseData := Some(ConferenceStarted(alias, name, now));
        UpsertConference(alias, name, true, false, None, now);
      } else if w.event == Str("conference_ended") {
        sseData := Some(ConferenceEnded(alias, name, now));
        DeleteConference(alias);
      } else {
        var d := Fields(w.data).value;
        sseData := Some(ConferenceUpdated(alias, name, d.isStarted, d.isLocked, Undefined, now));
        UpsertConference(alias, name, Flag(d.isStarted), Flag(d.isLocked), None, now);
      }
    }

    /** The switch's three participant cases: each needs a conference alias
        and `data`, and is ignored without them. */
    method ParticipantEvent(w: Webhook, alias: Option<string>, name: Option<string>, destination: Option<string>,
                            now: string)
      returns (sseData: Option<Event>)
      requires Valid()
      requires w.event in {Str("participant_connected"), Str("participant_updated"), Str("participant_disconnected")}
      requires Identity(alias, name, destination) == IdentityOf(w.data)
      modifies this
      ensures Valid()
      ensures State() == ApplyEvent(old(State()), Normalize(w, now), Replace)
      ensures sseData == Published(Normalize(w, now))
    {
      ghost var ev := Normalize(w, now);
      sseData := None;
      if Present(alias) && BodyTruthy(w.data) {
        var d := Fields(w.data).value;
        assert Publishes(ev);
        if w.event == Str("participant_connected") {
          var participant := Participant(d.uuid, d.displayName, d.role, d.isMuted, d.isVideoMuted, Some(false));
          sseData := Some(ParticipantConnected(alias.value, OptStr(destination), participant, now, name));
          ConnectParticipant(alias.value, name, destination, participant, now);
        } else if w.event == Str("participant_updated") {
          var participant := Participant(d.uuid, d.displayName, d.role, d.isMuted, d.isVideoMuted, d.isPresenting);
          sseData := Some(ParticipantUpdated(alias.value, participant, now));
          UpdateParticipant(participant, alias.value);
        } else {
          sseData := Some(ParticipantDisconnected(alias.value, d.uuid, now));
          DeleteParticipant(ToSql(d.uuid), alias.value);
        }
      } else {
        assert ev.Ignored?;
      }
    }

    /** `POST /webhook`: extract the identity, run the event's statements,
        build the record to publish and answer the caller. */
    method HandleWebhook(w: Webhook, now: string) returns (reply: Reply, published: Option<Event>)
      requires Valid()
      modifies this
      ensures Valid()
      ensures State() == ApplyEvent(old(State()), Normalize(w, now), Replace)
      ensures reply == Respond(Normalize(w, now))
      ensures published == Published(Normalize(w, now))
    {
      var alias, name, destination := ExtractIdentity(w.data);
      var sseData: Option<Event>;
      if w.event in {Str("conference_started"), Str("conference_ended"), Str("conference_updated")} {
        if w.event == Str("conference_updated") && w.data.Nullish? {
          // reading `eventData.data.is_started` throws before any statement runs
          return Reply(500, "error"), None;
        }
        sseData := ConferenceEvent(w, alias, name, now);
      } else if w.event in {Str("participant_connected"), Str("participant_updated"), Str("participant_disconnected")} {
        sseData := ParticipantEvent(w, alias, name, destination, now);
      } else {
        sseData := None;
      }
      published := sseData;
      if sseData.Some? {
        reply := Reply(200, "success");
      } else {
        reply := Reply(200, "ignored");
      }
    }
  }
}
