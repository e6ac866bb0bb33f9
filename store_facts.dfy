/**
 * What the receiver's statements guarantee about its store: the schema's
 * constraints are kept by every event, the upsert's destination-alias rule,
 * the participant statements' scope, the cascade, and the snapshot read-back.
 */
module StoreFacts {
  import opened Json
  import opened Roster
  import opened Ingest
  import opened Store

  /** The destination alias stored for conference `a`; NULL when it has no row. */
  function StoredDestination(db: Db, a: string): Option<string> {
    var c := Lookup(db.conferences, Some(a));
    if c.Some? then c.value.destinationAlias else None
  }

  // ---------------------------------------------------------------------------
  // The schema's constraints hold after every event

  lemma HasAliasAppend(cs: seq<ConferenceRow>, row: ConferenceRow)
    ensures forall b :: HasAlias(cs, b) ==> HasAlias(cs + [row], b)
    ensures row.alias.Some? ==> HasAlias(cs + [row], row.alias.value)
  {
    assert row in cs + [row];
    forall b | HasAlias(cs, b) ensures HasAlias(cs + [row], b) {
      var c :| c in cs && c.alias == Some(b);
      assert c in cs + [row];
    }
  }

  lemma {:induction false} WriteConferenceKeepsConsistent(db: Db, row: ConferenceRow, rule: ConflictRule)
    requires Consistent(db)
    ensures Consistent(WriteConference(db, row, rule))
    ensures row in WriteConference(db, row, rule).conferences
  {
    var cs, ps := db.conferences, db.participants;
    var r := WriteConference(db, row, rule);
    if row.alias.None? || (rule.Update? && !HasAlias(cs, row.alias.value)) {
      AliasesUniqueSnoc(cs, row);
      HasAliasAppend(cs, row);
    } else if rule.Replace? {
      var a := row.alias.value;
      var d := DropConference(cs, a);
      AliasesUniqueSnoc(d, row);
      forall p | p in r.participants ensures HasAlias(r.conferences, p.conferenceAlias) {
        var c :| c in cs && c.alias == Some(p.conferenceAlias);
        assert c in d + [row];
      }
      assert row in d + [row];
    } else {
      var s := SetConference(cs, row);
      assert forall i :: 0 <= i < |cs| ==> s[i].alias == cs[i].alias;
      forall p | p in ps ensures HasAlias(s, p.conferenceAlias) {
        var c :| c in cs && c.alias == Some(p.conferenceAlias);
        var i :| 0 <= i < |cs| && cs[i] == c;
        assert s[i] in s;
      }
      var c :| c in cs && c.alias == row.alias;
      var i :| 0 <= i < |cs| && cs[i] == c;
      assert s[i] == row;
    }
  }

  lemma DeleteConferenceKeepsConsistent(db: Db, alias: Option<string>)
    requires Consistent(db)
    ensures Consistent(DeleteConference(db, alias))
  {
    if alias.Some? {
      var r := DeleteConference(db, alias);
      forall p | p in r.participants ensures HasAlias(r.conferences, p.conferenceAlias) {
        var c :| c in db.conferences && c.alias == Some(p.conferenceAlias);
        assert c in r.conferences;
      }
    }
  }

  lemma UpdateParticipantKeepsConsistent(db: Db, p: Participant, alias: string)
    requires Consistent(db)
    ensures Consistent(Db(db.conferences, UpdateParticipant(db.participants, p, alias)))
  {
    var ps := db.participants;
    var r := UpdateParticipant(ps, p, alias);
    assert forall i :: 0 <= i < |ps| ==> r[i].uuid == ps[i].uuid && r[i].conferenceAlias == ps[i].conferenceAlias;
    forall x | x in r ensures HasAlias(db.conferences, x.conferenceAlias) {
      var i :| 0 <= i < |r| && r[i] == x;
      assert ps[i] in ps;
    }
  }

  /** Every event keeps the primary keys unique and every participant's
      conference present, under either conflict rule. */
  lemma ApplyKeepsConsistent(db: Db, ev: Event, rule: ConflictRule)
    requires Consistent(db)
    ensures Consistent(ApplyEvent(db, ev, rule))
  {
    match ev
    case ConferenceStarted(alias, name, ts) =>
      WriteConferenceKeepsConsistent(db, UpsertRow(db, alias, name, true, false, None, ts), rule);
    case ConferenceEnded(alias, _, _) =>
      DeleteConferenceKeepsConsistent(db, alias);
    case ConferenceUpdated(alias, name, isStarted, isLocked, _, ts) =>
      WriteConferenceKeepsConsistent(db, UpsertRow(db, alias, name, Flag(isStarted), Flag(isLocked), None, ts), rule);
    case ParticipantConnected(alias, destination, p, ts, name) =>
      var row := UpsertRow(db, Some(alias), if Present(name) then name else Some(alias), true, false, ToSql(destination), ts);
      WriteConferenceKeepsConsistent(db, row, rule);
      var db1 := WriteConference(db, row, rule);
      var pr := RowOf(p, alias);
      if !(pr.uuid.Some? && HasUuidRow(db1.participants, pr.uuid.value)) {
        UuidsUniqueSnoc(db1.participants, pr);
        assert HasAlias(db1.conferences, alias);
      }
    case ParticipantUpdated(alias, p, _) =>
      UpdateParticipantKeepsConsistent(db, p, alias);
    case ParticipantDisconnected(alias, uuid, _) =>
    case Ignored =>
    case Malformed =>
  }

  // ---------------------------------------------------------------------------
  // upsertConference

  /** After an upsert the conference row is present and reads back as written:
      the name defaults to the alias, and the stored destination alias is
      kept unless the incoming one is non-empty. */
  lemma UpsertReadsBack(db: Db, a: string, name: Option<string>, isStarted: bool, isLocked: bool,
                        destination: Option<string>, startTime: string, rule: ConflictRule)
    requires Consistent(db)
    ensures var c := Lookup(Upsert(db, Some(a), name, isStarted, isLocked, destination, startTime, rule).conferences, Some(a));
      && c.Some?
      && c.value.isStarted == Bit(isStarted) && c.value.isLocked == Bit(isLocked)
      && c.value.startTime == startTime
      && c.value.name == (if Present(name) then name else Some(a))
      && (Present(destination) ==> c.value.destinationAlias == destination)
      && (!Present(destination) ==> c.value.destinationAlias == StoredDestination(db, a))
  {
    var row := UpsertRow(db, Some(a), name, isStarted, isLocked, destination, startTime);
    WriteConferenceKeepsConsistent(db, row, rule);
    LookupUnique(WriteConference(db, row, rule).conferences, row);
  }

  /** `conference_started` and `conference_updated` pass a NULL destination
      alias, so the stored one is unchanged. */
  lemma ConferenceEventKeepsDestination(db: Db, ev: Event, rule: ConflictRule)
    requires Consistent(db)
    requires (ev.ConferenceStarted? || ev.ConferenceUpdated?) && ev.alias.Some?
    ensures StoredDestination(ApplyEvent(db, ev, rule), ev.alias.value) == StoredDestination(db, ev.alias.value)
  {
    if ev.ConferenceStarted? {
      UpsertReadsBack(db, ev.alias.value, ev.name, true, false, None, ev.timestamp, rule);
    } else {
      UpsertReadsBack(db, ev.alias.value, ev.name, Flag(ev.isStarted), Flag(ev.isLocked), None, ev.timestamp, rule);
    }
  }

  /** A later non-empty destination alias overwrites the stored one. */
  lemma ConnectedOverwritesDestination(db: Db, ev: Event, rule: ConflictRule)
    requires Consistent(db) && ev.ParticipantConnected?
    ensures Truthy(ev.destinationAlias) ==>
      StoredDestination(ApplyEvent(db, ev, rule), ev.conferenceAlias) == Some(ev.destinationAlias.s)
    ensures !Truthy(ev.destinationAlias) ==>
      StoredDestination(ApplyEvent(db, ev, rule), ev.conferenceAlias) == StoredDestination(db, ev.conferenceAlias)
  {
    var a := ev.conferenceAlias;
    UpsertReadsBack(db, a, if Present(ev.conferenceName) then ev.conferenceName else Some(a), true, false,
                    ToSql(ev.destinationAlias), ev.timestamp, rule);
  }

  // ---------------------------------------------------------------------------
  // participant_connected

  /** `participant_connected` leaves its conference row started and unlocked,
      and the participant's uuid stored; unless that uuid was already a key,
      the stored row is the event's participant with `is_presenting = 0`. */
  lemma ParticipantConnectedContract(db: Db, w: Webhook, now: string, rule: ConflictRule)
    requires Consistent(db) && Normalize(w, now).ParticipantConnected?
    ensures var ev := Normalize(w, now);
      var after := ApplyEvent(db, ev, rule);
      var c := Lookup(after.conferences, Some(ev.conferenceAlias));
      && c.Some? && c.value.isStarted == 1 && c.value.isLocked == 0
      && (ev.participant.uuid.Str? ==> HasUuidRow(after.participants, ev.participant.uuid.s))
      && (!(ev.participant.uuid.Str? && HasUuidRow(db.participants, ev.participant.uuid.s)) ==>
            RowOf(ev.participant, ev.conferenceAlias) in after.participants
            && RowOf(ev.participant, ev.conferenceAlias).isPresenting == 0)
  {
    ConnectedEventFacts(db, Normalize(w, now), rule);
  }

  /** The same facts for any `participant_connected` event, whatever it was
      normalized from. */
  lemma ConnectedEventFacts(db: Db, ev: Event, rule: ConflictRule)
    requires Consistent(db) && ev.ParticipantConnected?
    ensures var after := ApplyEvent(db, ev, rule);
      var c := Lookup(after.conferences, Some(ev.conferenceAlias));
      && c.Some? && c.value.isStarted == 1 && c.value.isLocked == 0
      && (ev.participant.uuid.Str? ==> HasUuidRow(after.participants, ev.participant.uuid.s))
      && (!(ev.participant.uuid.Str? && HasUuidRow(db.participants, ev.participant.uuid.s)) ==>
            RowOf(ev.participant, ev.conferenceAlias) in after.participants)
  {
    var a := ev.conferenceAlias;
    var name := if Present(ev.conferenceName) then ev.conferenceName else Some(a);
    UpsertReadsBack(db, a, name, true, false, ToSql(ev.destinationAlias), ev.timestamp, rule);
    var db1 := Upsert(db, Some(a), name, true, false, ToSql(ev.destinationAlias), ev.timestamp, rule);
    UpsertKeepsParticipantRows(db, UpsertRow(db, Some(a), name, true, false, ToSql(ev.destinationAlias), ev.timestamp), rule);
    InsertOrIgnoreStores(db1.participants, RowOf(ev.participant, a));
  }

  /** A conference write never adds a participant row. */
  lemma UpsertKeepsParticipantRows(db: Db, row: ConferenceRow, rule: ConflictRule)
    ensures forall x :: x in WriteConference(db, row, rule).participants ==> x in db.participants
  {
  }

  /** After `INSERT OR IGNORE` the key is stored, and the row itself when the
      key was not. */
  lemma InsertOrIgnoreStores(ps: seq<ParticipantRow>, row: ParticipantRow)
    ensures row.uuid.Some? ==> HasUuidRow(InsertOrIgnore(ps, row), row.uuid.value)
    ensures !(row.uuid.Some? && HasUuidRow(ps, row.uuid.value)) ==> row in InsertOrIgnore(ps, row)
  {
    assert row in ps + [row];
  }

  /** `INSERT OR IGNORE` with a non-NULL key is idempotent. */
  lemma InsertOrIgnoreIdempotent(ps: seq<ParticipantRow>, row: ParticipantRow)
    requires row.uuid.Some?
    ensures InsertOrIgnore(InsertOrIgnore(ps, row), row) == InsertOrIgnore(ps, row)
  {
    assert row in ps + [row];
  }

  lemma DropAbsent(cs: seq<ConferenceRow>, a: string)
    requires !HasAlias(cs, a)
    ensures DropConference(cs, a) == cs
  {
    forall i | 0 <= i < |cs| ensures cs[i].alias != Some(a) {
      assert cs[i] in cs;
    }
    DropAbsentAt(cs, a);
  }

  lemma {:induction false} DropAbsentAt(cs: seq<ConferenceRow>, a: string)
    requires forall i :: 0 <= i < |cs| ==> cs[i].alias != Some(a)
    ensures DropConference(cs, a) == cs
  {
    if cs != [] {
      DropAbsentAt(cs[1..], a);
      assert cs == [cs[0]] + cs[1..];
    }
  }

  lemma DropParticipantsAbsent(ps: seq<ParticipantRow>, a: string)
    requires forall p :: p in ps ==> p.conferenceAlias != a
    ensures DropParticipantsOf(ps, a) == ps
  {
    forall i | 0 <= i < |ps| ensures ps[i].conferenceAlias != a {
      assert ps[i] in ps;
    }
    DropParticipantsAbsentAt(ps, a);
  }

  lemma {:induction false} DropParticipantsAbsentAt(ps: seq<ParticipantRow>, a: string)
    requires forall i :: 0 <= i < |ps| ==> ps[i].conferenceAlias != a
    ensures DropParticipantsOf(ps, a) == ps
  {
    if ps != [] {
      DropParticipantsAbsentAt(ps[1..], a);
      assert ps == [ps[0]] + ps[1..];
    }
  }

  lemma {:induction false} DropAppended(cs: seq<ConferenceRow>, row: ConferenceRow, a: string)
    requires row.alias == Some(a)
    ensures DropConference(cs + [row], a) == DropConference(cs, a)
  {
    if cs == [] {
      assert [row][1..] == [];
    } else {
      assert (cs + [row])[1..] == cs[1..] + [row];
      DropAppended(cs[1..], row, a);
    }
  }

  lemma {:induction false} DropParticipantsAppended(ps: seq<ParticipantRow>, row: ParticipantRow, a: string)
    requires row.conferenceAlias == a
    ensures DropParticipantsOf(ps + [row], a) == DropParticipantsOf(ps, a)
  {
    if ps == [] {
      assert [row][1..] == [];
    } else {
      assert (ps + [row])[1..] == ps[1..] + [row];
      DropParticipantsAppended(ps[1..], row, a);
    }
  }

  /** With unique aliases, a row is the only one carrying its alias. */
  lemma OnlyRowWithAlias(cs: seq<ConferenceRow>, row: ConferenceRow, i: int)
    requires AliasesUnique(cs) && row in cs && row.alias.Some?
    requires 0 <= i < |cs| && cs[i].alias == row.alias
    ensures cs[i] == row
  {
    LookupUnique(cs, row);
    LookupUnique(cs, cs[i]);
  }

  /** A repeated `participant_connected` (same event, a non-NULL uuid) leaves
      the store as the first one left it, under either conflict rule. */
  lemma ParticipantConnectedIdempotent(db: Db, ev: Event, rule: ConflictRule)
    requires Consistent(db) && ev.ParticipantConnected? && ev.participant.uuid.Str?
    ensures ApplyEvent(ApplyEvent(db, ev, rule), ev, rule) == ApplyEvent(db, ev, rule)
  {
    match rule
    case Replace => ConnectedIdempotentReplace(db, ev);
    case Update => ConnectedIdempotentUpdate(db, ev);
  }

  /** What a repeated `participant_connected` sees: a consistent store in
      which the upsert computes the very same conference row, and the
      participant's uuid already a key. */
  lemma ConnectedAgain(db: Db, ev: Event, rule: ConflictRule)
    requires Consistent(db) && ev.ParticipantConnected? && ev.participant.uuid.Str?
    ensures var a := ev.conferenceAlias;
      var name := if Present(ev.conferenceName) then ev.conferenceName else Some(a);
      var row := UpsertRow(db, Some(a), name, true, false, ToSql(ev.destinationAlias), ev.timestamp);
      var after := ApplyEvent(db, ev, rule);
      && Consistent(after)
      && after == Db(WriteConference(db, row, rule).conferences,
                     InsertOrIgnore(WriteConference(db, row, rule).participants, RowOf(ev.participant, a)))
      && row in after.conferences
      && UpsertRow(after, Some(a), name, true, false, ToSql(ev.destinationAlias), ev.timestamp) == row
      && HasUuidRow(after.participants, ev.participant.uuid.s)
  {
    var a := ev.conferenceAlias;
    var name := if Present(ev.conferenceName) then ev.conferenceName else Some(a);
    var dest := ToSql(ev.destinationAlias);
    var pr := RowOf(ev.participant, a);
    var row := UpsertRow(db, Some(a), name, true, false, dest, ev.timestamp);
    WriteConferenceKeepsConsistent(db, row, rule);
    var db1 := WriteConference(db, row, rule);
    var after := ApplyEvent(db, ev, rule);
    assert after == Db(db1.conferences, InsertOrIgnore(db1.participants, pr));
    ApplyKeepsConsistent(db, ev, rule);
    assert row in after.conferences;
    LookupUnique(after.conferences, row);
    InsertOrIgnoreStores(db1.participants, pr);
  }

  lemma ConnectedIdempotentReplace(db: Db, ev: Event)
    requires Consistent(db) && ev.ParticipantConnected? && ev.participant.uuid.Str?
    ensures ApplyEvent(ApplyEvent(db, ev, Replace), ev, Replace) == ApplyEvent(db, ev, Replace)
  {
    ConnectedAgain(db, ev, Replace);
    var a := ev.conferenceAlias;
    var name := if Present(ev.conferenceName) then ev.conferenceName else Some(a);
    var pr := RowOf(ev.participant, a);
    var row := UpsertRow(db, Some(a), name, true, false, ToSql(ev.destinationAlias), ev.timestamp);
    var c0 := DropConference(db.conferences, a);
    DropAppended(c0, row, a);
    DropAbsent(c0, a);
    var q1 := DropParticipantsOf(db.participants, a);
    DropParticipantsAbsent(q1, a);
    DropParticipantsAppended(q1, pr, a);
  }

  lemma ConnectedIdempotentUpdate(db: Db, ev: Event)
    requires Consistent(db) && ev.ParticipantConnected? && ev.participant.uuid.Str?
    ensures ApplyEvent(ApplyEvent(db, ev, Update), ev, Update) == ApplyEvent(db, ev, Update)
  {
    ConnectedAgain(db, ev, Update);
    var a := ev.conferenceAlias;
    var name := if Present(ev.conferenceName) then ev.conferenceName else Some(a);
    var row := UpsertRow(db, Some(a), name, true, false, ToSql(ev.destinationAlias), ev.timestamp);
    var c1 := ApplyEvent(db, ev, Update).conferences;
    var c2 := SetConference(c1, row);
    forall i | 0 <= i < |c1| ensures c2[i] == c1[i] {
      if c1[i].alias == row.alias {
        OnlyRowWithAlias(c1, row, i);
      }
    }
    assert c2 == c1;
  }

  // ---------------------------------------------------------------------------
  // participant_updated, participant_disconnected, conference_ended

  /** `participant_updated` rewrites only rows matching both the uuid and the
      alias; a row with that uuid under another alias is untouched, and when
      nothing matches the store is unchanged (zero rows affected, no error). */
  lemma ParticipantUpdatedScope(db: Db, ev: Event, rule: ConflictRule)
    requires ev.ParticipantUpdated?
    ensures var after := ApplyEvent(db, ev, rule);
      var u := ToSql(ev.participant.uuid);
      && after.conferences == db.conferences
      && |after.participants| == |db.participants|
      && (forall i :: 0 <= i < |db.participants| && !Matches(db.participants[i], u, ev.conferenceAlias) ==>
            after.participants[i] == db.participants[i])
      && ((forall x :: x in db.participants ==> !Matches(x, u, ev.conferenceAlias)) ==> after == db)
  {
    var after := ApplyEvent(db, ev, rule);
    var u := ToSql(ev.participant.uuid);
    if forall x :: x in db.participants ==> !Matches(x, u, ev.conferenceAlias) {
      forall i | 0 <= i < |db.participants| ensures after.participants[i] == db.participants[i] {
        assert db.participants[i] in db.participants;
      }
    }
  }

  lemma DeleteNoMatch(ps: seq<ParticipantRow>, uuid: Option<string>, alias: string)
    requires forall x :: x in ps ==> !Matches(x, uuid, alias)
    ensures DeleteParticipant(ps, uuid, alias) == ps
  {
    forall i | 0 <= i < |ps| ensures !Matches(ps[i], uuid, alias) {
      assert ps[i] in ps;
    }
    DeleteNoMatchAt(ps, uuid, alias);
  }

  /** A `participant_disconnected` with a `null` uuid deletes nothing: the
      `uuid = NULL` comparison is never true. */
  lemma NullUuidDeletesNothing(db: Db, a: string, ts: string, rule: ConflictRule)
    ensures ApplyEvent(db, ParticipantDisconnected(a, Null, ts), rule) == db
  {
    DeleteNoMatch(db.participants, None, a);
    assert ApplyEvent(db, ParticipantDisconnected(a, Null, ts), rule)
        == Db(db.conferences, DeleteParticipant(db.participants, None, a));
  }

  lemma {:induction false} DeleteNoMatchAt(ps: seq<ParticipantRow>, uuid: Option<string>, alias: string)
    requires forall i :: 0 <= i < |ps| ==> !Matches(ps[i], uuid, alias)
    ensures DeleteParticipant(ps, uuid, alias) == ps
  {
    if ps != [] {
      DeleteNoMatchAt(ps[1..], uuid, alias);
      assert ps == [ps[0]] + ps[1..];
    }
  }

  /** `participant_disconnected` removes exactly the rows matching both the
      uuid and the alias; when nothing matches the store is unchanged. */
  lemma ParticipantDisconnectedScope(db: Db, ev: Event, rule: ConflictRule)
    requires ev.ParticipantDisconnected?
    ensures var after := ApplyEvent(db, ev, rule);
      var u := ToSql(ev.uuid);
      && after.conferences == db.conferences
      && (forall x :: x in after.participants <==> x in db.participants && !Matches(x, u, ev.conferenceAlias))
      && ((forall x :: x in db.participants ==> !Matches(x, u, ev.conferenceAlias)) ==> after == db)
  {
    var u := ToSql(ev.uuid);
    if forall x :: x in db.participants ==> !Matches(x, u, ev.conferenceAlias) {
      DeleteNoMatch(db.participants, u, ev.conferenceAlias);
    }
  }

  lemma {:induction false} RowsOfAbsent(ps: seq<ParticipantRow>, a: string)
    requires forall p :: p in ps ==> p.conferenceAlias != a
    ensures RowsOf(ps, a) == []
  {
    if ps != [] {
      assert ps[0].conferenceAlias != a by {
        assert ps[0] in ps;
      }
      assert forall p :: p in ps[1..] ==> p in ps;
      RowsOfAbsent(ps[1..], a);
    }
  }

  /** `conference_ended` deletes the conference row and, by the cascade, its
      participants; every other row stays, and the participants snapshot of
      that alias is then empty. Without an alias it deletes nothing. */
  lemma ConferenceEndedCascades(db: Db, ev: Event, rule: ConflictRule)
    requires ev.ConferenceEnded?
    ensures ev.alias.None? ==> ApplyEvent(db, ev, rule) == db
    ensures ev.alias.Some? ==>
      var a := ev.alias.value;
      var after := ApplyEvent(db, ev, rule);
      && (forall c :: c in after.conferences <==> c in db.conferences && c.alias != Some(a))
      && (forall p :: p in after.participants <==> p in db.participants && p.conferenceAlias != a)
      && ParticipantsSnapshot(after, Some(a)) == []
  {
    if ev.alias.Some? {
      RowsOfAbsent(ApplyEvent(db, ev, rule).participants, ev.alias.value);
    }
  }

  // ---------------------------------------------------------------------------
  // Snapshots

  /** A participant written by the receiver reads back from a snapshot with
      each flag equal to the truthiness of the flag it was written from. */
  lemma ParticipantReadsBack(p: Participant, alias: string)
    ensures ViewOf(RowOf(p, alias)) ==
      ParticipantView(ToSql(p.uuid), alias, ToSql(p.displayName), ToSql(p.role),
                      Flag(p.isMuted), Flag(p.isVideoMuted), Flag(p.isPresenting))
  {
  }

  lemma ViewsMember(rows: seq<ParticipantRow>, x: ParticipantRow)
    requires x in rows
    ensures ViewOf(x) in Views(rows)
  {
    var i :| 0 <= i < |rows| && rows[i] == x;
    assert Views(rows)[i] == ViewOf(x);
  }

  lemma ViewsOrigin(rows: seq<ParticipantRow>, v: ParticipantView)
    requires v in Views(rows)
    ensures exists x :: x in rows && v == ViewOf(x)
  {
    var i :| 0 <= i < |Views(rows)| && Views(rows)[i] == v;
    assert rows[i] in rows;
  }

  /** In a consistent store the full snapshot shows every participant row,
      under the conference it references, and nowhere else. */
  lemma SnapshotCoversStore(db: Db)
    requires Consistent(db)
    ensures forall p :: p in db.participants ==>
      exists i :: 0 <= i < |db.conferences| && db.conferences[i].alias == Some(p.conferenceAlias)
        && ViewOf(p) in Snapshot(db)[i].participants
    ensures forall i, v :: 0 <= i < |db.conferences| && v in Snapshot(db)[i].participants ==>
      db.conferences[i].alias == Some(v.conferenceAlias)
  {
    var snap := Snapshot(db);
    forall p | p in db.participants
      ensures exists i :: (0 <= i < |db.conferences| && db.conferences[i].alias == Some(p.conferenceAlias)
                           && ViewOf(p) in snap[i].participants)
    {
      var c :| c in db.conferences && c.alias == Some(p.conferenceAlias);
      var i :| 0 <= i < |db.conferences| && db.conferences[i] == c;
      ViewsMember(RowsOf(db.participants, p.conferenceAlias), p);
      assert ViewOf(p) in snap[i].participants;
    }
    forall i, v | 0 <= i < |db.conferences| && v in snap[i].participants
      ensures db.conferences[i].alias == Some(v.conferenceAlias)
    {
      var a := db.conferences[i].alias.value;
      ViewsOrigin(RowsOf(db.participants, a), v);
    }
  }

  // ---------------------------------------------------------------------------
  // The upsert's conflict rule

  /** As written, `INSERT OR REPLACE` deletes the old conference row and the
      cascade takes its participants with it: after `conference_started` or
      `conference_updated` the conference has no participants left, and after
      `participant_connected` only the connecting one. */
  lemma ReplaceUpsertDropsParticipants(db: Db, ev: Event)
    requires Consistent(db)
    ensures (ev.ConferenceStarted? || ev.ConferenceUpdated?) && ev.alias.Some? ==>
      forall p :: p in ApplyEvent(db, ev, Replace).participants ==> p.conferenceAlias != ev.alias.value
    ensures ev.ParticipantConnected? ==>
      forall p :: p in ApplyEvent(db, ev, Replace).participants && p.conferenceAlias == ev.conferenceAlias ==>
        p == RowOf(ev.participant, ev.conferenceAlias)
  {
  }

  /** Updating the conference row in place instead leaves the participant
      table alone: conference events do not touch it, and a connect only
      adds a row. */
  lemma UpdateUpsertKeepsParticipants(db: Db, ev: Event)
    ensures ev.ConferenceStarted? || ev.ConferenceUpdated? ==>
      ApplyEvent(db, ev, Update).participants == db.participants
    ensures ev.ParticipantConnected? ==>
      var ps := ApplyEvent(db, ev, Update).participants;
      ps == db.participants || ps == db.participants + [RowOf(ev.participant, ev.conferenceAlias)]
  {
  }

  /** Two participants with different uuids connect to the same conference,
      one after the other. As written the first one's row is gone from the
      store; with the in-place upsert both rows are kept. */
  lemma SecondConnectEvictsFirst(db: Db, first: Event, second: Event)
    requires Consistent(db)
    requires first.ParticipantConnected? && second.ParticipantConnected?
    requires first.conferenceAlias == second.conferenceAlias
    requires first.participant.uuid.Str? && second.participant.uuid.Str?
    requires first.participant.uuid != second.participant.uuid
    requires !HasUuidRow(db.participants, first.participant.uuid.s)
    ensures RowOf(first.participant, first.conferenceAlias) in ApplyEvent(db, first, Replace).participants
    ensures RowOf(first.participant, first.conferenceAlias) !in ApplyEvent(ApplyEvent(db, first, Replace), second, Replace).participants
    ensures RowOf(first.participant, first.conferenceAlias) in ApplyEvent(ApplyEvent(db, first, Update), second, Update).participants
  {
    var a := first.conferenceAlias;
    var r1 := RowOf(first.participant, a);
    assert r1 in ApplyEvent(db, first, Replace).participants by {
      var w1 := ApplyEvent(db, first, Replace);
      assert forall x :: x in DropParticipantsOf(db.participants, a) ==> x in db.participants;
    }
    ApplyKeepsConsistent(db, first, Replace);
    ReplaceUpsertDropsParticipants(ApplyEvent(db, first, Replace), second);
    assert r1 != RowOf(second.participant, a);
    var u1 := ApplyEvent(db, first, Update);
    assert r1 in u1.participants by {
      assert r1 in db.participants + [r1];
    }
    UpdateUpsertKeepsParticipants(u1, second);
  }
  // ---------------------------------------------------------------------------
  // Deletes and reads keep rowid order

  lemma AppendAssoc<T>(x: seq<T>, y: seq<T>, z: seq<T>)
    ensures x + (y + z) == (x + y) + z
  {
  }

  lemma SplitHead<T>(a: seq<T>, b: seq<T>)
    requires a != []
    ensures a == [a[0]] + a[1..]
    ensures a + b == [a[0]] + (a[1..] + b)
  {
  }

  /** `DELETE FROM conferences` filters row by row: it distributes over
      concatenation, so the surviving rows keep their rowid order. */
  lemma {:induction false} DropConferenceIsFilter(a: seq<ConferenceRow>, b: seq<ConferenceRow>,
                                                  c: ConferenceRow, alias: string)
    ensures DropConference(a + b, alias) == DropConference(a, alias) + DropConference(b, alias)
    ensures DropConference([c], alias) == if c.alias == Some(alias) then [] else [c]
  {
    DropConferenceSingle(c, alias);
    if a == [] {
      assert a + b == b;
    } else {
      var t := a[1..];
      assert DropConference(a + b, alias) == (if a[0].alias == Some(alias) then [] else [a[0]]) + DropConference(t + b, alias) by {
        DropConferenceCons(a[0], t + b, alias);
        SplitHead(a, b);
      }
      assert DropConference(a, alias) == (if a[0].alias == Some(alias) then [] else [a[0]]) + DropConference(t, alias) by {
        DropConferenceCons(a[0], t, alias);
        SplitHead(a, b);
      }
      DropConferenceIsFilter(t, b, c, alias);
      AppendAssoc((if a[0].alias == Some(alias) then [] else [a[0]]), DropConference(t, alias), DropConference(b, alias));
    }
  }


  lemma DropConferenceSingle(c: ConferenceRow, alias: string)
    ensures DropConference([c], alias) == (if c.alias == Some(alias) then [] else [c])
  {
    DropConferenceCons(c, [], alias);
    assert [c] + [] == [c];
  }

  lemma DropConferenceCons(c: ConferenceRow, cs: seq<ConferenceRow>, alias: string)
    ensures DropConference([c] + cs, alias) == (if c.alias == Some(alias) then [] else [c]) + DropConference(cs, alias)
  {
    assert ([c] + cs)[1..] == cs;
  }

  /** The cascade filters row by row as well. */
  lemma {:induction false} DropParticipantsIsFilter(a: seq<ParticipantRow>, b: seq<ParticipantRow>,
                                                    p: ParticipantRow, alias: string)
    ensures DropParticipantsOf(a + b, alias) == DropParticipantsOf(a, alias) + DropParticipantsOf(b, alias)
    ensures DropParticipantsOf([p], alias) == if p.conferenceAlias == alias then [] else [p]
  {
    DropParticipantsSingle(p, alias);
    if a == [] {
      assert a + b == b;
    } else {
      var t := a[1..];
      assert DropParticipantsOf(a + b, alias) == (if a[0].conferenceAlias == alias then [] else [a[0]]) + DropParticipantsOf(t + b, alias) by {
        DropParticipantsCons(a[0], t + b, alias);
        SplitHead(a, b);
      }
      assert DropParticipantsOf(a, alias) == (if a[0].conferenceAlias == alias then [] else [a[0]]) + DropParticipantsOf(t, alias) by {
        DropParticipantsCons(a[0], t, alias);
        SplitHead(a, b);
      }
      DropParticipantsIsFilter(t, b, p, alias);
      AppendAssoc((if a[0].conferenceAlias == alias then [] else [a[0]]), DropParticipantsOf(t, alias), DropParticipantsOf(b, alias));
    }
  }


  lemma DropParticipantsSingle(p: ParticipantRow, alias: string)
    ensures DropParticipantsOf([p], alias) == (if p.conferenceAlias == alias then [] else [p])
  {
    DropParticipantsCons(p, [], alias);
    assert [p] + [] == [p];
  }

  lemma DropParticipantsCons(p: ParticipantRow, ps: seq<ParticipantRow>, alias: string)
    ensures DropParticipantsOf([p] + ps, alias) == (if p.conferenceAlias == alias then [] else [p]) + DropParticipantsOf(ps, alias)
  {
    assert ([p] + ps)[1..] == ps;
  }

  /** `DELETE FROM participants WHERE uuid = ? AND conferenceAlias = ?` filters
      row by row, keeping the order of the other rows. */
  lemma {:induction false} DeleteParticipantIsFilter(a: seq<ParticipantRow>, b: seq<ParticipantRow>,
                                                     p: ParticipantRow, uuid: Option<string>, alias: string)
    ensures DeleteParticipant(a + b, uuid, alias) == DeleteParticipant(a, uuid, alias) + DeleteParticipant(b, uuid, alias)
    ensures DeleteParticipant([p], uuid, alias) == if Matches(p, uuid, alias) then [] else [p]
  {
    DeleteParticipantSingle(p, uuid, alias);
    if a == [] {
      assert a + b == b;
    } else {
      var t := a[1..];
      var h: seq<ParticipantRow> := if Matches(a[0], uuid, alias) then [] else [a[0]];
      assert DeleteParticipant(a + b, uuid, alias) == h + DeleteParticipant(t + b, uuid, alias) by {
        DeleteParticipantCons(a[0], t + b, uuid, alias);
        SplitHead(a, b);
      }
      assert DeleteParticipant(a, uuid, alias) == h + DeleteParticipant(t, uuid, alias) by {
        DeleteParticipantCons(a[0], t, uuid, alias);
        SplitHead(a, b);
      }
      DeleteParticipantIsFilter(t, b, p, uuid, alias);
      AppendAssoc(h, DeleteParticipant(t, uuid, alias), DeleteParticipant(b, uuid, alias));
    }
  }


  lemma DeleteParticipantSingle(p: ParticipantRow, uuid: Option<string>, alias: string)
    ensures DeleteParticipant([p], uuid, alias) == (if Matches(p, uuid, alias) then [] else [p])
  {
    DeleteParticipantCons(p, [], uuid, alias);
    assert [p] + [] == [p];
  }

  lemma DeleteParticipantCons(p: ParticipantRow, ps: seq<ParticipantRow>, uuid: Option<string>, alias: string)
    ensures DeleteParticipant([p] + ps, uuid, alias) == (if Matches(p, uuid, alias) then [] else [p]) + DeleteParticipant(ps, uuid, alias)
  {
    assert ([p] + ps)[1..] == ps;
  }

  /** The snapshot's `SELECT` keeps the matching rows in rowid order. */
  lemma {:induction false} RowsOfIsFilter(a: seq<ParticipantRow>, b: seq<ParticipantRow>,
                                          p: ParticipantRow, alias: string)
    ensures RowsOf(a + b, alias) == RowsOf(a, alias) + RowsOf(b, alias)
    ensures RowsOf([p], alias) == if p.conferenceAlias == alias then [p] else []
  {
    RowsOfSingle(p, alias);
    if a == [] {
      assert a + b == b;
    } else {
      var t := a[1..];
      assert RowsOf(a + b, alias) == (if a[0].conferenceAlias == alias then [a[0]] else []) + RowsOf(t + b, alias) by {
        RowsOfCons(a[0], t + b, alias);
        SplitHead(a, b);
      }
      assert RowsOf(a, alias) == (if a[0].conferenceAlias == alias then [a[0]] else []) + RowsOf(t, alias) by {
        RowsOfCons(a[0], t, alias);
        SplitHead(a, b);
      }
      RowsOfIsFilter(t, b, p, alias);
      AppendAssoc((if a[0].conferenceAlias == alias then [a[0]] else []), RowsOf(t, alias), RowsOf(b, alias));
    }
  }


  lemma RowsOfSingle(p: ParticipantRow, alias: string)
    ensures RowsOf([p], alias) == (if p.conferenceAlias == alias then [p] else [])
  {
    RowsOfCons(p, [], alias);
    assert [p] + [] == [p];
  }

  lemma RowsOfCons(p: ParticipantRow, ps: seq<ParticipantRow>, alias: string)
    ensures RowsOf([p] + ps, alias) == (if p.conferenceAlias == alias then [p] else []) + RowsOf(ps, alias)
  {
    assert ([p] + ps)[1..] == ps;
  }

  // ---------------------------------------------------------------------------
  // A `data` that is not an object

  /** A `conference_updated` whose `data` is a primitive (`false`, `0`, `""`, or
      a truthy one) reads every field as `undefined` instead of throwing: it is
      published, answered with success, and appends a row with a NULL alias, a
      NULL name and both flags 0, whatever the conflict rule. */
  lemma PrimitiveDataAppendsNullRow(db: Db, truthy: bool, now: string, rule: ConflictRule)
    ensures var ev := Normalize(Webhook(Str("conference_updated"), Primitive(truthy)), now);
      && Respond(ev) == Reply(200, "success")
      && Published(ev) == Some(ev)
      && ApplyEvent(db, ev, rule) == Db(db.conferences + [ConferenceRow(None, None, now, 0, 0, None)], db.participants)
  {
    var ev := Normalize(Webhook(Str("conference_updated"), Primitive(truthy)), now);
    assert ev == ConferenceUpdated(None, None, None, None, Undefined, now);
  }
}
