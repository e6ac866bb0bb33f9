/**
 * The two ways the dashboard learns about the store: the snapshot it reads
 * at start-up, and the live events it applies afterwards. For the participant
 * updates and removals and for conference ends, a client that read the
 * snapshot and then applied the event holds exactly what a snapshot read after
 * the event would show. For the other events, a second destination alias, a
 * conference end without an alias and a disconnect with a `null` uuid, the
 * two disagree, and the lemmas at the end say how.
 */
module Convergence {
  import opened Json
  import opened Roster
  import opened Ingest
  import opened Store
  import opened StoreFacts
  import opened Reconciler

  /** What a fresh client shows for the store. */
  function ClientOf(db: Db): seq<ClientConference> {
    ParseSnapshot(Snapshot(db))
  }

  /** The roster a fresh client shows for conference `a`. */
  function ClientRoster(ps: seq<ParticipantRow>, a: string): seq<Participant> {
    ParseParticipants(Views(RowsOf(ps, a)))
  }

  lemma ClientRosterCons(r: ParticipantRow, rest: seq<ParticipantRow>, a: string)
    ensures ClientRoster([r] + rest, a) ==
      (if r.conferenceAlias == a then [ParseParticipant(ViewOf(r))] else []) + ClientRoster(rest, a)
  {
    assert ([r] + rest)[1..] == rest;
    if r.conferenceAlias == a {
      var tail := RowsOf(rest, a);
      assert Views([r] + tail)[1..] == Views(tail) by { assert ([r] + tail)[1..] == tail; }
      var vs := Views([r] + tail);
      assert ParseParticipants(vs) == [ParseParticipant(vs[0])] + ParseParticipants(vs[1..]);
    }
  }

  lemma ClientConferenceOf(db: Db, c: ConferenceRow)
    ensures ParseConference(ConferenceViewOf(db, c)).alias == FromSql(c.alias)
    ensures ParseConference(ConferenceViewOf(db, c)).participants ==
      if c.alias.None? then [] else ClientRoster(db.participants, c.alias.value)
  {
  }

  /** The server's `UPDATE … WHERE uuid = ? AND conferenceAlias = ?`, read back
      per conference, is the client's replace-by-uuid on that conference's
      roster, and nothing on the others. */
  lemma {:induction false} RosterAfterUpdate(ps: seq<ParticipantRow>, p: Participant, alias: string, a: string)
    requires !p.uuid.Null? && !p.displayName.Undefined? && !p.role.Undefined?
    requires p.isMuted.Some? && p.isVideoMuted.Some? && p.isPresenting.Some?
    ensures ClientRoster(UpdateParticipant(ps, p, alias), a) ==
      if a == alias then ReplaceByUuid(ClientRoster(ps, a), p) else ClientRoster(ps, a)
  {
    if ps != [] {
      var r0 := if Matches(ps[0], ToSql(p.uuid), alias) then RowOf(p, alias) else ps[0];
      assert UpdateParticipant(ps, p, alias) == [r0] + UpdateParticipant(ps[1..], p, alias);
      ClientRosterCons(r0, UpdateParticipant(ps[1..], p, alias), a);
      ClientRosterCons(ps[0], ps[1..], a);
      assert ps == [ps[0]] + ps[1..];
      RosterAfterUpdate(ps[1..], p, alias, a);
      if Matches(ps[0], ToSql(p.uuid), alias) {
        ParticipantRoundTrip(p, alias);
      }
      if a == alias && ps[0].conferenceAlias == a {
        var q := ParseParticipant(ViewOf(ps[0]));
        var s := [q] + ClientRoster(ps[1..], a);
        assert s[1..] == ClientRoster(ps[1..], a);
        assert q.uuid == p.uuid <==> Matches(ps[0], ToSql(p.uuid), alias);
        assert ReplaceByUuid(s, p) == [if q.uuid == p.uuid then p else q] + ReplaceByUuid(s[1..], p);
      }
    }
  }

  /** The server's `DELETE … WHERE uuid = ? AND conferenceAlias = ?`, read
      back, is the client's remove-by-uuid on that conference's roster. */
  lemma {:induction false} RosterAfterDelete(ps: seq<ParticipantRow>, uuid: JsStr, alias: string, a: string)
    requires !uuid.Null?
    ensures ClientRoster(DeleteParticipant(ps, ToSql(uuid), alias), a) ==
      if a == alias then RemoveByUuid(ClientRoster(ps, a), uuid) else ClientRoster(ps, a)
  {
    if ps != [] {
      var rest := DeleteParticipant(ps[1..], ToSql(uuid), alias);
      assert ps == [ps[0]] + ps[1..];
      RosterAfterDelete(ps[1..], uuid, alias, a);
      ClientRosterCons(ps[0], ps[1..], a);
      if !Matches(ps[0], ToSql(uuid), alias) {
        assert DeleteParticipant(ps, ToSql(uuid), alias) == [ps[0]] + rest;
        ClientRosterCons(ps[0], rest, a);
      } else {
        assert DeleteParticipant(ps, ToSql(uuid), alias) == rest;
      }
      if a == alias && ps[0].conferenceAlias == a {
        var q := ParseParticipant(ViewOf(ps[0]));
        var s := [q] + ClientRoster(ps[1..], a);
        assert s[1..] == ClientRoster(ps[1..], a);
        assert q.uuid == uuid <==> Matches(ps[0], ToSql(uuid), alias);
      }
    }
  }

  /** A conference's roster after the cascade of another conference's end. */
  lemma {:induction false} RosterAfterDrop(ps: seq<ParticipantRow>, gone: string, a: string)
    requires a != gone
    ensures ClientRoster(DropParticipantsOf(ps, gone), a) == ClientRoster(ps, a)
  {
    if ps != [] {
      var rest := DropParticipantsOf(ps[1..], gone);
      assert ps == [ps[0]] + ps[1..];
      RosterAfterDrop(ps[1..], gone, a);
      ClientRosterCons(ps[0], ps[1..], a);
      if ps[0].conferenceAlias != gone {
        assert DropParticipantsOf(ps, gone) == [ps[0]] + rest;
        ClientRosterCons(ps[0], rest, a);
      } else {
        assert DropParticipantsOf(ps, gone) == rest;
      }
    }
  }

  /** One conference entry after `participant_updated`, read back. */
  lemma UpdatedEntry(db: Db, c: ConferenceRow, p: Participant, alias: string)
    requires !p.uuid.Null? && !p.displayName.Undefined? && !p.role.Undefined?
    requires p.isMuted.Some? && p.isVideoMuted.Some? && p.isPresenting.Some?
    ensures var before := ParseConference(ConferenceViewOf(db, c));
      var after := ParseConference(ConferenceViewOf(Db(db.conferences, UpdateParticipant(db.participants, p, alias)), c));
      after == if before.alias == Str(alias) then before.(participants := ReplaceByUuid(before.participants, p)) else before
  {
    ClientConferenceOf(db, c);
    ClientConferenceOf(Db(db.conferences, UpdateParticipant(db.participants, p, alias)), c);
    if c.alias.Some? {
      RosterAfterUpdate(db.participants, p, alias, c.alias.value);
    }
  }

  /** One conference entry after `participant_disconnected`, read back. */
  lemma DisconnectedEntry(db: Db, c: ConferenceRow, uuid: JsStr, alias: string)
    requires !uuid.Null?
    ensures var before := ParseConference(ConferenceViewOf(db, c));
      var after := ParseConference(ConferenceViewOf(Db(db.conferences, DeleteParticipant(db.participants, ToSql(uuid), alias)), c));
      after == if before.alias == Str(alias) then before.(participants := RemoveByUuid(before.participants, uuid)) else before
  {
    ClientConferenceOf(db, c);
    ClientConferenceOf(Db(db.conferences, DeleteParticipant(db.participants, ToSql(uuid), alias)), c);
    if c.alias.Some? {
      RosterAfterDelete(db.participants, uuid, alias, c.alias.value);
    }
  }

  /** The conference list a fresh client reads after the participant
      `UPDATE` is the live update of the list it read before. */
  lemma UpdatedList(db: Db, p: Participant, alias: string)
    requires !p.uuid.Null? && !p.displayName.Undefined? && !p.role.Undefined?
    requires p.isMuted.Some? && p.isVideoMuted.Some? && p.isPresenting.Some?
    ensures ClientOf(Db(db.conferences, UpdateParticipant(db.participants, p, alias))) ==
      OnParticipantUpdated(ClientOf(db), Str(alias), p)
  {
    var after := Db(db.conferences, UpdateParticipant(db.participants, p, alias));
    var lhs := ClientOf(after);
    var rhs := OnParticipantUpdated(ClientOf(db), Str(alias), p);
    forall i | 0 <= i < |db.conferences| ensures lhs[i] == rhs[i] {
      assert lhs[i] == ParseConference(ConferenceViewOf(after, db.conferences[i]));
      assert ClientOf(db)[i] == ParseConference(ConferenceViewOf(db, db.conferences[i]));
      UpdatedEntry(db, db.conferences[i], p, alias);
    }
  }

  /** Convergence for `participant_updated`: applying the live event to what a
      client read before it gives what a client reading after it sees. */
  lemma ParticipantUpdatedConverges(db: Db, alias: string, p: Participant, ts: string, rule: ConflictRule)
    requires !p.uuid.Null? && !p.displayName.Undefined? && !p.role.Undefined?
    requires p.isMuted.Some? && p.isVideoMuted.Some? && p.isPresenting.Some?
    ensures (ClientOf(ApplyEvent(db, ParticipantUpdated(alias, p, ts), rule)) ==
      OnParticipantUpdated(ClientOf(db), Str(alias), p))
  {
    assert ApplyEvent(db, ParticipantUpdated(alias, p, ts), rule) ==
      Db(db.conferences, UpdateParticipant(db.participants, p, alias));
    UpdatedList(db, p, alias);
  }

  /** The conference list a fresh client reads after the participant
      `DELETE` is the live update of the list it read before. */
  lemma DisconnectedList(db: Db, uuid: JsStr, alias: string)
    requires !uuid.Null?
    ensures ClientOf(Db(db.conferences, DeleteParticipant(db.participants, ToSql(uuid), alias))) ==
      OnParticipantDisconnected(ClientOf(db), Str(alias), uuid)
  {
    var after := Db(db.conferences, DeleteParticipant(db.participants, ToSql(uuid), alias));
    var lhs := ClientOf(after);
    var rhs := OnParticipantDisconnected(ClientOf(db), Str(alias), uuid);
    forall i | 0 <= i < |db.conferences| ensures lhs[i] == rhs[i] {
      assert lhs[i] == ParseConference(ConferenceViewOf(after, db.conferences[i]));
      assert ClientOf(db)[i] == ParseConference(ConferenceViewOf(db, db.conferences[i]));
      DisconnectedEntry(db, db.conferences[i], uuid, alias);
    }
  }

  /** Convergence for `participant_disconnected`. */
  lemma ParticipantDisconnectedConverges(db: Db, alias: string, uuid: JsStr, ts: string, rule: ConflictRule)
    requires !uuid.Null?
    ensures (ClientOf(ApplyEvent(db, ParticipantDisconnected(alias, uuid, ts), rule)) ==
      OnParticipantDisconnected(ClientOf(db), Str(alias), uuid))
  {
    assert ApplyEvent(db, ParticipantDisconnected(alias, uuid, ts), rule) ==
      Db(db.conferences, DeleteParticipant(db.participants, ToSql(uuid), alias));
    DisconnectedList(db, uuid, alias);
  }

  lemma {:induction false} ClientListAfterEnd(ps: seq<ParticipantRow>, cs: seq<ConferenceRow>,
                                                    allBefore: seq<ConferenceRow>, allAfter: seq<ConferenceRow>, a: string)
    ensures ParseSnapshot(SnapshotOf(Db(allAfter, DropParticipantsOf(ps, a)), DropConference(cs, a))) ==
      OnConferenceEnded(ParseSnapshot(SnapshotOf(Db(allBefore, ps), cs)), Str(a))
  {
    var after := Db(allAfter, DropParticipantsOf(ps, a));
    var before := Db(allBefore, ps);
    if cs != [] {
      var c := cs[0];
      ClientListAfterEnd(ps, cs[1..], allBefore, allAfter, a);
      ClientConferenceOf(before, c);
      ClientConferenceOf(after, c);
      var prior := ParseSnapshot(SnapshotOf(before, cs));
      assert prior == [ParseConference(ConferenceViewOf(before, c))] + ParseSnapshot(SnapshotOf(before, cs[1..])) by {
        assert SnapshotOf(before, cs)[1..] == SnapshotOf(before, cs[1..]);
      }
      assert prior[1..] == ParseSnapshot(SnapshotOf(before, cs[1..]));
      if c.alias != Some(a) {
        var rest := DropConference(cs[1..], a);
        assert DropConference(cs, a) == [c] + rest;
        assert SnapshotOf(after, [c] + rest)[1..] == SnapshotOf(after, rest) by {
          assert ([c] + rest)[1..] == rest;
        }
        if c.alias.Some? {
          RosterAfterDrop(ps, a, c.alias.value);
        }
      } else {
        assert DropConference(cs, a) == DropConference(cs[1..], a);
      }
    }
  }

  /** Convergence for `conference_ended` naming a conference, the cascade
      included. */
  lemma ConferenceEndedConverges(db: Db, alias: string, name: Option<string>, ts: string, rule: ConflictRule)
    ensures (ClientOf(ApplyEvent(db, ConferenceEnded(Some(alias), name, ts), rule)) ==
      OnConferenceEnded(ClientOf(db), Str(alias)))
  {
    var after := Db(DropConference(db.conferences, alias), DropParticipantsOf(db.participants, alias));
    assert ApplyEvent(db, ConferenceEnded(Some(alias), name, ts), rule) == after;
    assert ClientOf(after) == ParseSnapshot(SnapshotOf(after, after.conferences));
    assert ClientOf(db) == ParseSnapshot(SnapshotOf(db, db.conferences));
    ClientListAfterEnd(db.participants, db.conferences, db.conferences, after.conferences, alias);
  }

  /** Where the two disagree: a `conference_ended` whose conference could not
      be identified is published with a `null` alias. The store deletes nothing
      (`= NULL` matches no row), while a live client drops every conference
      whose alias is `null`, so a stored conference with a NULL alias
      disappears from the client only. */
  lemma UnidentifiedEndDiverges(db: Db, name: Option<string>, ts: string, rule: ConflictRule)
    ensures ApplyEvent(db, ConferenceEnded(None, name, ts), rule) == db
    ensures !HasConference(OnConferenceEnded(ClientOf(db), OptStr(None)), Null)
    ensures (exists c :: c in db.conferences && c.alias.None?) ==> HasConference(ClientOf(db), Null)
  {
    if c :| c in db.conferences && c.alias.None? {
      var i :| 0 <= i < |db.conferences| && db.conferences[i] == c;
      ClientConferenceOf(db, c);
      assert ClientOf(db)[i].alias == Null;
    }
  }

  /** Where the two disagree: once a conference has a destination alias, a
      `participant_connected` carrying a different one overwrites it in the
      store, while a live client keeps the first one. */
  lemma SecondDestinationDiverges(db: Db, alias: string, first: string, second: string, p: Participant,
                                  ts: string, name: Option<string>, rule: ConflictRule, c: ClientConference)
    requires Consistent(db) && StoredDestination(db, alias) == Some(first)
    requires second != "" && second != first
    requires c.alias == Str(alias) && c.destinationAlias == Str(first) && first != ""
    ensures StoredDestination(ApplyEvent(db, ParticipantConnected(alias, Str(second), p, ts, name), rule), alias) == Some(second)
    ensures ConnectedConference(c, Str(second), p).destinationAlias == Str(first)
  {
    ConnectedOverwritesDestination(db, ParticipantConnected(alias, Str(second), p, ts, name), rule);
  }

  /** The entry a fresh client shows for the `i`th stored conference. */
  lemma ClientEntry(db: Db, i: int)
    requires 0 <= i < |db.conferences|
    ensures |ClientOf(db)| == |db.conferences|
    ensures ClientOf(db)[i] == ParseConference(ConferenceViewOf(db, db.conferences[i]))
  {
  }

  /** A stored participant row of conference `a` shows in a fresh client's
      roster of `a`. */
  lemma RosterHasRow(ps: seq<ParticipantRow>, a: string, r: ParticipantRow)
    requires r in ps && r.conferenceAlias == a
    ensures ClientRoster(ps, a) != []
  {
    assert r in RowsOf(ps, a);
  }

  /** Where the two disagree: `conference_updated` on a conference that has
      participants. As written, the store's `INSERT OR REPLACE` cascades and a
      reload shows an empty roster, with flags coerced to booleans; a live
      client keeps the roster and stores the event's flags as they came,
      `undefined` included. */
  lemma ConferenceUpdatedDropsRoster(db: Db, a: string, name: Option<string>, isStarted: Option<bool>,
                                     isLocked: Option<bool>, ts: string, i: int, r: ParticipantRow)
    requires 0 <= i < |db.conferences| && db.conferences[i].alias == Some(a)
    requires r in db.participants && r.conferenceAlias == a
    ensures var live := OnConferenceUpdated(ClientOf(db), Str(a), isStarted, isLocked, Undefined)[i];
      && live.participants == ClientOf(db)[i].participants && live.participants != []
      && live.isStarted == isStarted && live.isLocked == isLocked
    ensures var after := ApplyEvent(db, ConferenceUpdated(Some(a), name, isStarted, isLocked, Undefined, ts), Replace);
      var row := UpsertRow(db, Some(a), name, Flag(isStarted), Flag(isLocked), None, ts);
      var reread := ParseConference(ConferenceViewOf(after, row));
      && row in after.conferences
      && reread.participants == []
      && reread.isStarted == Some(Flag(isStarted)) && reread.isLocked == Some(Flag(isLocked))
  {
    ClientEntry(db, i);
    ClientConferenceOf(db, db.conferences[i]);
    RosterHasRow(db.participants, a, r);
    var after := ApplyEvent(db, ConferenceUpdated(Some(a), name, isStarted, isLocked, Undefined, ts), Replace);
    var row := UpsertRow(db, Some(a), name, Flag(isStarted), Flag(isLocked), None, ts);
    RowsOfAbsent(after.participants, a);
    ClientConferenceOf(after, row);
  }

  /** Where the two disagree: the live entry `conference_started` adds spreads
      an event that carries no flags, so both are `undefined`, while the store
      writes `is_started = 1` and `is_locked = 0` and a reload shows `true` and
      `false`. */
  lemma ConferenceStartedFlagsDiverge(db: Db, a: string, name: Option<string>, ts: string, now: string,
                                      rule: ConflictRule)
    requires !HasConference(ClientOf(db), Str(a))
    ensures var prev := ClientOf(db);
      var live := OnConferenceStarted(prev, Str(a), OptStr(name), now);
      && |live| == |prev| + 1 && live[|prev|].alias == Str(a)
      && live[|prev|].isStarted == None && live[|prev|].isLocked == None
    ensures var after := ApplyEvent(db, ConferenceStarted(Some(a), name, ts), rule);
      var row := UpsertRow(db, Some(a), name, true, false, None, ts);
      var reread := ParseConference(ConferenceViewOf(after, row));
      && row in after.conferences && reread.alias == Str(a)
      && reread.isStarted == Some(true) && reread.isLocked == Some(false)
  {
  }

  /** Where the two disagree: a `participant_connected` on a conference that
      already has a participant. As written, the store's `INSERT OR REPLACE`
      evicts the earlier participant's row, while a live client keeps that
      participant in the conference's roster. */
  lemma ConnectEvictionDiverges(db: Db, a: string, destination: JsStr, p: Participant, ts: string,
                                name: Option<string>, i: int, r: ParticipantRow)
    requires Consistent(db)
    requires 0 <= i < |db.conferences| && db.conferences[i].alias == Some(a)
    requires r in db.participants && r.conferenceAlias == a && r.uuid != ToSql(p.uuid)
    ensures ParseParticipant(ViewOf(r)) in
      OnParticipantConnected(ClientOf(db), Str(a), destination, p)[i].participants
    ensures r !in ApplyEvent(db, ParticipantConnected(a, destination, p, ts, name), Replace).participants
  {
    ClientEntry(db, i);
    ClientConferenceOf(db, db.conferences[i]);
    RosterShowsRow(db.participants, a, r);
    ConnectKeepsListed(ClientOf(db)[i], destination, p, ParseParticipant(ViewOf(r)));
    ReplaceUpsertDropsParticipants(db, ParticipantConnected(a, destination, p, ts, name));
  }

  lemma RosterShowsRow(ps: seq<ParticipantRow>, a: string, r: ParticipantRow)
    requires r in ps && r.conferenceAlias == a
    ensures ParseParticipant(ViewOf(r)) in ClientRoster(ps, a)
  {
    var rows := RowsOf(ps, a);
    assert r in rows;
    var k :| 0 <= k < |rows| && rows[k] == r;
    assert ClientRoster(ps, a)[k] == ParseParticipant(ViewOf(r));
  }

  /** A live `participant_connected` never drops a listed participant. */
  lemma ConnectKeepsListed(c: ClientConference, destination: JsStr, p: Participant, q: Participant)
    requires q in c.participants
    ensures q in ConnectedConference(c, destination, p).participants
  {
    var w := if Truthy(destination) && !Truthy(c.destinationAlias) then c.(destinationAlias := destination) else c;
    assert w.participants == c.participants;
    var added := AddIfAbsent(c.participants, p);
    if !HasUuid(c.participants, p.uuid) {
      assert q in multiset(c.participants);
      assert q in multiset(added);
    }
  }

  /** Where the two disagree: a `participant_disconnected` whose uuid is
      `null`. The store's `uuid = NULL` matches no row, so nothing is deleted,
      while a live client removes every listed participant whose uuid is
      `null`, such as one bootstrapped from a stored row with a NULL uuid. */
  lemma NullUuidDisconnectDiverges(db: Db, a: string, ts: string, rule: ConflictRule, i: int, r: ParticipantRow)
    requires 0 <= i < |db.conferences| && db.conferences[i].alias == Some(a)
    requires r in db.participants && r.conferenceAlias == a && r.uuid.None?
    ensures ApplyEvent(db, ParticipantDisconnected(a, Null, ts), rule) == db
    ensures ParseParticipant(ViewOf(r)) in ClientOf(db)[i].participants
    ensures ParseParticipant(ViewOf(r)) !in OnParticipantDisconnected(ClientOf(db), Str(a), Null)[i].participants
  {
    NullUuidDeletesNothing(db, a, ts, rule);
    NullUuidRowRemovedLive(db, a, i, r);
  }

  lemma NullUuidRowRemovedLive(db: Db, a: string, i: int, r: ParticipantRow)
    requires 0 <= i < |db.conferences| && db.conferences[i].alias == Some(a)
    requires r in db.participants && r.conferenceAlias == a && r.uuid.None?
    ensures ParseParticipant(ViewOf(r)) in ClientOf(db)[i].participants
    ensures ParseParticipant(ViewOf(r)) !in OnParticipantDisconnected(ClientOf(db), Str(a), Null)[i].participants
  {
    ClientEntry(db, i);
    ClientConferenceOf(db, db.conferences[i]);
    RosterShowsRow(db.participants, a, r);
  }
}
