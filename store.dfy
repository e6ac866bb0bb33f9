/**
 * The receiver's SQLite store: the `conferences` and `participants` tables as
 * sequences of rows in rowid order (the order `SELECT *` returns them in), the
 * statements the webhook handler runs, the event-to-statement mapping, and the
 * two snapshot endpoints that read the tables back.
 *
 * SQLite semantics chosen: foreign keys are enforced (the driver's default), so
 * deleting a conference row deletes its participants (`ON DELETE CASCADE`);
 * `INSERT OR REPLACE` deletes a conflicting row and appends a new one; a
 * `TEXT PRIMARY KEY` admits NULL keys, which never conflict; `col = NULL`
 * matches no row.
 */
module Store {
  import opened Json
  import opened Roster
  import opened Ingest

  /** A `conferences` row. */
  datatype ConferenceRow = ConferenceRow(
    alias: Option<string>,
    name: Option<string>,
    startTime: string,
    isStarted: int,
    isLocked: int,
    destinationAlias: Option<string>)

  /** A `participants` row. */
  datatype ParticipantRow = ParticipantRow(
    uuid: Option<string>,
    conferenceAlias: string,
    displayName: Option<string>,
    role: Option<string>,
    isMuted: int,
    isVideoMuted: int,
    isPresenting: int)

  datatype Db = Db(conferences: seq<ConferenceRow>, participants: seq<ParticipantRow>)

  /** `b ? 1 : 0` */
  function Bit(b: bool): (n: int)
    ensures n == 0 || n == 1
    ensures n != 0 <==> b
  {
    if b then 1 else 0
  }

  predicate HasAlias(cs: seq<ConferenceRow>, a: string) {
    exists c :: c in cs && c.alias == Some(a)
  }

  /** The PRIMARY KEY of `conferences`: no two rows share a non-NULL alias. */
  predicate AliasesUnique(cs: seq<ConferenceRow>) {
    forall i, j :: 0 <= i < j < |cs| && cs[i].alias.Some? ==> cs[i].alias != cs[j].alias
  }

  predicate HasUuidRow(ps: seq<ParticipantRow>, u: string) {
    exists p :: p in ps && p.uuid == Some(u)
  }

  /** The PRIMARY KEY of `participants`: no two rows share a non-NULL uuid. */
  predicate UuidsUnique(ps: seq<ParticipantRow>) {
    forall i, j :: 0 <= i < j < |ps| && ps[i].uuid.Some? ==> ps[i].uuid != ps[j].uuid
  }

  /** The FOREIGN KEY: every participant row names an existing conference. */
  predicate ReferencesResolve(db: Db) {
    forall p :: p in db.participants ==> HasAlias(db.conferences, p.conferenceAlias)
  }

  /** The constraints the schema declares. */
  predicate Consistent(db: Db) {
    AliasesUnique(db.conferences) && UuidsUnique(db.participants) && ReferencesResolve(db)
  }

  lemma AliasesUniqueCons(c: ConferenceRow, cs: seq<ConferenceRow>)
    ensures AliasesUnique([c] + cs) <==> AliasesUnique(cs) && (c.alias.Some? ==> !HasAlias(cs, c.alias.value))
  {
    var s := [c] + cs;
    if AliasesUnique(s) {
      forall i, j | 0 <= i < j < |cs| && cs[i].alias.Some? ensures cs[i].alias != cs[j].alias {
        assert s[i + 1] == cs[i] && s[j + 1] == cs[j];
      }
      if c.alias.Some? {
        forall d | d in cs ensures d.alias != c.alias {
          var j :| 0 <= j < |cs| && cs[j] == d;
          assert s[0] == c && s[j + 1] == d;
        }
      }
    } else if AliasesUnique(cs) && c.alias.Some? {
      var i, j :| 0 <= i < j < |s| && s[i].alias.Some? && s[i].alias == s[j].alias;
      assert s[j] == cs[j - 1] && s[j] in cs;
    }
  }

  lemma AliasesUniqueSnoc(cs: seq<ConferenceRow>, c: ConferenceRow)
    requires AliasesUnique(cs)
    requires c.alias.Some? ==> !HasAlias(cs, c.alias.value)
    ensures AliasesUnique(cs + [c])
  {
    var s := cs + [c];
    forall i, j | 0 <= i < j < |s| && s[i].alias.Some? ensures s[i].alias != s[j].alias {
      if j == |cs| {
        assert s[i] == cs[i] && cs[i] in cs;
      } else {
        assert s[i] == cs[i] && s[j] == cs[j];
      }
    }
  }

  lemma UuidsUniqueCons(p: ParticipantRow, ps: seq<ParticipantRow>)
    ensures UuidsUnique([p] + ps) <==> UuidsUnique(ps) && (p.uuid.Some? ==> !HasUuidRow(ps, p.uuid.value))
  {
    var s := [p] + ps;
    if UuidsUnique(s) {
      forall i, j | 0 <= i < j < |ps| && ps[i].uuid.Some? ensures ps[i].uuid != ps[j].uuid {
        assert s[i + 1] == ps[i] && s[j + 1] == ps[j];
      }
      if p.uuid.Some? {
        forall d | d in ps ensures d.uuid != p.uuid {
          var j :| 0 <= j < |ps| && ps[j] == d;
          assert s[0] == p && s[j + 1] == d;
        }
      }
    } else if UuidsUnique(ps) && p.uuid.Some? {
      var i, j :| 0 <= i < j < |s| && s[i].uuid.Some? && s[i].uuid == s[j].uuid;
      assert s[j] == ps[j - 1] && s[j] in ps;
    }
  }

  lemma UuidsUniqueSnoc(ps: seq<ParticipantRow>, p: ParticipantRow)
    requires UuidsUnique(ps)
    requires p.uuid.Some? ==> !HasUuidRow(ps, p.uuid.value)
    ensures UuidsUnique(ps + [p])
  {
    var s := ps + [p];
    forall i, j | 0 <= i < j < |s| && s[i].uuid.Some? ensures s[i].uuid != s[j].uuid {
      if j == |ps| {
        assert s[i] == ps[i] && ps[i] in ps;
      } else {
        assert s[i] == ps[i] && s[j] == ps[j];
      }
    }
  }

  /** `SELECT … FROM conferences WHERE conferenceAlias = ?` with `.get()`: the
      first matching row; a NULL parameter matches nothing. */
  function Lookup(cs: seq<ConferenceRow>, alias: Option<string>): (r: Option<ConferenceRow>)
    ensures r.Some? <==> alias.Some? && HasAlias(cs, alias.value)
    ensures r.Some? ==> r.value in cs && r.value.alias == alias
  {
    if alias.None? || cs == [] then None
    else if cs[0].alias == alias then Some(cs[0])
    else
      var r := Lookup(cs[1..], alias);
      assert forall c :: c in cs && c != cs[0] ==> c in cs[1..];
      r
  }

  /** With unique aliases, the row found is the only row carrying that alias. */
  lemma LookupUnique(cs: seq<ConferenceRow>, c: ConferenceRow)
    requires AliasesUnique(cs) && c in cs && c.alias.Some?
    ensures Lookup(cs, c.alias) == Some(c)
  {
    var r := Lookup(cs, c.alias).value;
    var i :| 0 <= i < |cs| && cs[i] == c;
    var j :| 0 <= j < |cs| && cs[j] == r;
    assert forall k :: 0 <= k < |cs| && k != i ==> cs[k].alias != c.alias;
    assert j == i;
  }

  /** The conference rows other than those keyed by `a`. */
  function DropConference(cs: seq<ConferenceRow>, a: string): (r: seq<ConferenceRow>)
    ensures forall c :: c in r <==> c in cs && c.alias != Some(a)
    ensures AliasesUnique(cs) ==> AliasesUnique(r)
  {
    if cs == [] then []
    else
      var rest := DropConference(cs[1..], a);
      assert cs == [cs[0]] + cs[1..];
      AliasesUniqueCons(cs[0], cs[1..]);
      if cs[0].alias == Some(a) then rest
      else
        AliasesUniqueCons(cs[0], rest);
        [cs[0]] + rest
  }

  /** `ON DELETE CASCADE`: the participant rows not referencing conference `a`. */
  function DropParticipantsOf(ps: seq<ParticipantRow>, a: string): (r: seq<ParticipantRow>)
    ensures forall p :: p in r <==> p in ps && p.conferenceAlias != a
    ensures UuidsUnique(ps) ==> UuidsUnique(r)
  {
    if ps == [] then []
    else
      var rest := DropParticipantsOf(ps[1..], a);
      assert ps == [ps[0]] + ps[1..];
      UuidsUniqueCons(ps[0], ps[1..]);
      if ps[0].conferenceAlias == a then rest
      else
        UuidsUniqueCons(ps[0], rest);
        [ps[0]] + rest
  }

  /** `INSERT OR REPLACE INTO conferences`: a row with the same non-NULL alias
      is deleted, its participants with it, and the new row is appended. */
  function ReplaceConference(db: Db, row: ConferenceRow): (r: Db)
    ensures row in r.conferences
    ensures row.alias.Some? ==> forall c :: c in r.conferences && c.alias == row.alias ==> c == row
    ensures forall p :: p in r.participants <==> p in db.participants && Some(p.conferenceAlias) != row.alias
  {
    if row.alias.None? then Db(db.conferences + [row], db.participants)
    else
      var a := row.alias.value;
      Db(DropConference(db.conferences, a) + [row], DropParticipantsOf(db.participants, a))
  }

  /** Updating the row keyed by the new row's alias in place, or appending it
      when there is none: what the upsert evidently intends. */
  function UpdateOrInsertConference(db: Db, row: ConferenceRow): (r: Db)
    ensures row in r.conferences
    ensures r.participants == db.participants
  {
    if row.alias.Some? && HasAlias(db.conferences, row.alias.value) then
      var cs := SetConference(db.conferences, row);
      assert row in cs by {
        var c :| c in db.conferences && c.alias == row.alias;
        var i :| 0 <= i < |db.conferences| && db.conferences[i] == c;
        assert cs[i] == row;
      }
      Db(cs, db.participants)
    else
      assert (db.conferences + [row])[|db.conferences|] == row;
      Db(db.conferences + [row], db.participants)
  }

  /** Every row keyed by `row.alias` replaced by `row`, in place. */
  function SetConference(cs: seq<ConferenceRow>, row: ConferenceRow): (r: seq<ConferenceRow>)
    requires row.alias.Some?
    ensures |r| == |cs|
    ensures forall i :: 0 <= i < |cs| ==> r[i] == if cs[i].alias == row.alias then row else cs[i]
  {
    if cs == [] then []
    else [if cs[0].alias == row.alias then row else cs[0]] + SetConference(cs[1..], row)
  }

  /** How an `INSERT` into `conferences` resolves a conflicting alias. */
  datatype ConflictRule =
    | Replace  // `INSERT OR REPLACE`, as the receiver issues it
    | Update   // update in place, as an upsert is evidently meant to behave

  function WriteConference(db: Db, row: ConferenceRow, rule: ConflictRule): Db {
    match rule
    case Replace => ReplaceConference(db, row)
    case Update => UpdateOrInsertConference(db, row)
  }

  /** The row `upsertConference` writes: the name defaults to the alias, the
      destination alias to the stored one. */
  function UpsertRow(db: Db, alias: Option<string>, name: Option<string>, isStarted: bool, isLocked: bool,
                     destination: Option<string>, startTime: string): (row: ConferenceRow)
    ensures row.alias == alias && row.startTime == startTime
    ensures row.name == if Present(name) then name else alias
    ensures row.isStarted != 0 <==> isStarted
    ensures row.isLocked != 0 <==> isLocked
    ensures Present(destination) ==> row.destinationAlias == destination
    ensures !Present(destination) && alias.Some? && HasAlias(db.conferences, alias.value) ==>
      row.destinationAlias == Lookup(db.conferences, alias).value.destinationAlias
    ensures !Present(destination) && !(alias.Some? && HasAlias(db.conferences, alias.value)) ==>
      row.destinationAlias == None
  {
    var existing := Lookup(db.conferences, alias);
    var current := if existing.Some? then existing.value.destinationAlias else None;
    ConferenceRow(alias, if Present(name) then name else alias, startTime, Bit(isStarted), Bit(isLocked),
                  if Present(destination) then destination else current)
  }

  /** `upsertConference(alias, name, isStarted, isLocked, destAlias, startTime)` */
  function Upsert(db: Db, alias: Option<string>, name: Option<string>, isStarted: bool, isLocked: bool,
                  destination: Option<string>, startTime: string, rule: ConflictRule): (r: Db)
    ensures UpsertRow(db, alias, name, isStarted, isLocked, destination, startTime) in r.conferences
    ensures rule.Update? ==> r.participants == db.participants
    ensures rule.Replace? ==>
      forall p :: p in r.participants <==> p in db.participants && Some(p.conferenceAlias) != alias
  {
    WriteConference(db, UpsertRow(db, alias, name, isStarted, isLocked, destination, startTime), rule)
  }

  /** `DELETE FROM conferences WHERE conferenceAlias = ?`, with the cascade. */
  function DeleteConference(db: Db, alias: Option<string>): Db {
    if alias.None? then db
    else Db(DropConference(db.conferences, alias.value), DropParticipantsOf(db.participants, alias.value))
  }

  /** The participant row bound from an event's participant record. */
  function RowOf(p: Participant, alias: string): ParticipantRow {
    ParticipantRow(ToSql(p.uuid), alias, ToSql(p.displayName), ToSql(p.role),
                   Bit(Flag(p.isMuted)), Bit(Flag(p.isVideoMuted)), Bit(Flag(p.isPresenting)))
  }

  /** `INSERT OR IGNORE INTO participants`: nothing happens when the uuid is
      already a key. */
  function InsertOrIgnore(ps: seq<ParticipantRow>, row: ParticipantRow): (r: seq<ParticipantRow>)
    ensures row.uuid.Some? && HasUuidRow(ps, row.uuid.value) ==> r == ps
    ensures !(row.uuid.Some? && HasUuidRow(ps, row.uuid.value)) ==> r == ps + [row]
  {
    if row.uuid.Some? && HasUuidRow(ps, row.uuid.value) then ps else ps + [row]
  }

  /** `WHERE uuid = ? AND conferenceAlias = ?` */
  predicate Matches(row: ParticipantRow, uuid: Option<string>, alias: string) {
    uuid.Some? && row.uuid == uuid && row.conferenceAlias == alias
  }

  /** `UPDATE participants SET display_name, role, is_muted, is_video_muted,
      is_presenting WHERE uuid = ? AND conferenceAlias = ?` */
  function UpdateParticipant(ps: seq<ParticipantRow>, p: Participant, alias: string): (r: seq<ParticipantRow>)
    ensures |r| == |ps|
    ensures forall i :: 0 <= i < |ps| ==>
      r[i] == if Matches(ps[i], ToSql(p.uuid), alias) then RowOf(p, alias) else ps[i]
  {
    if ps == [] then []
    else [if Matches(ps[0], ToSql(p.uuid), alias) then RowOf(p, alias) else ps[0]]
         + UpdateParticipant(ps[1..], p, alias)
  }

  /** `DELETE FROM participants WHERE uuid = ? AND conferenceAlias = ?` */
  function DeleteParticipant(ps: seq<ParticipantRow>, uuid: Option<string>, alias: string): (r: seq<ParticipantRow>)
    ensures forall x :: x in r <==> x in ps && !Matches(x, uuid, alias)
    ensures |r| <= |ps|
    ensures UuidsUnique(ps) ==> UuidsUnique(r)
  {
    if ps == [] then []
    else
      var rest := DeleteParticipant(ps[1..], uuid, alias);
      assert ps == [ps[0]] + ps[1..];
      UuidsUniqueCons(ps[0], ps[1..]);
      if Matches(ps[0], uuid, alias) then rest
      else
        UuidsUniqueCons(ps[0], rest);
        [ps[0]] + rest
  }

  /** The statements the handler's switch runs for one event. */
  function ApplyEvent(db: Db, ev: Event, rule: ConflictRule): (r: Db)
    ensures !Publishes(ev) ==> r == db
    ensures ev.ConferenceEnded? && ev.alias.None? ==> r == db
    ensures ev.ParticipantUpdated? || ev.ParticipantDisconnected? ==> r.conferences == db.conferences
    ensures ev.ParticipantConnected? ==> HasAlias(r.conferences, ev.conferenceAlias)
  {
    match ev
    case ConferenceStarted(alias, name, ts) =>
      Upsert(db, alias, name, true, false, None, ts, rule)
    case ConferenceEnded(alias, _, _) =>
      DeleteConference(db, alias)
    case ConferenceUpdated(alias, name, isStarted, isLocked, _, ts) =>
      Upsert(db, alias, name, Flag(isStarted), Flag(isLocked), None, ts, rule)
    case ParticipantConnected(alias, destination, p, ts, name) =>
      var db1 := Upsert(db, Some(alias), if Present(name) then name else Some(alias), true, false, ToSql(destination), ts, rule);
      Db(db1.conferences, InsertOrIgnore(db1.participants, RowOf(p, alias)))
    case ParticipantUpdated(alias, p, _) =>
      Db(db.conferences, UpdateParticipant(db.participants, p, alias))
    case ParticipantDisconnected(alias, uuid, _) =>
      Db(db.conferences, DeleteParticipant(db.participants, ToSql(uuid), alias))
    case Ignored => db
    case Malformed => db
  }

  // ---------------------------------------------------------------------------
  // Snapshots

  /** A participant as the snapshot endpoints serve it: the row with its 0/1
      columns read as booleans. */
  datatype ParticipantView = ParticipantView(
    uuid: Option<string>,
    conferenceAlias: string,
    displayName: Option<string>,
    role: Option<string>,
    isMuted: bool,
    isVideoMuted: bool,
    isPresenting: bool)

  datatype ConferenceView = ConferenceView(
    alias: Option<string>,
    name: Option<string>,
    startTime: string,
    isStarted: bool,
    isLocked: bool,
    destinationAlias: Option<string>,
    participants: seq<ParticipantView>)

  /** `{...p, is_muted: Boolean(p.is_muted), …}` */
  function ViewOf(row: ParticipantRow): ParticipantView {
    ParticipantView(row.uuid, row.conferenceAlias, row.displayName, row.role,
                    row.isMuted != 0, row.isVideoMuted != 0, row.isPresenting != 0)
  }

  /** `SELECT * FROM participants WHERE conferenceAlias = ?`, in rowid order. */
  function RowsOf(ps: seq<ParticipantRow>, a: string): (r: seq<ParticipantRow>)
    ensures forall x :: x in r <==> x in ps && x.conferenceAlias == a
    ensures |r| <= |ps|
  {
    if ps == [] then []
    else if ps[0].conferenceAlias == a then [ps[0]] + RowsOf(ps[1..], a)
    else RowsOf(ps[1..], a)
  }

  function Views(rows: seq<ParticipantRow>): (r: seq<ParticipantView>)
    ensures |r| == |rows|
    ensures forall i :: 0 <= i < |rows| ==> r[i] == ViewOf(rows[i])
  {
    if rows == [] then [] else [ViewOf(rows[0])] + Views(rows[1..])
  }

  /** The participants of a conference; a NULL alias matches none. */
  function ParticipantsSnapshot(db: Db, alias: Option<string>): seq<ParticipantView> {
    if alias.None? then [] else Views(RowsOf(db.participants, alias.value))
  }

  function ConferenceViewOf(db: Db, c: ConferenceRow): ConferenceView {
    ConferenceView(c.alias, c.name, c.startTime, c.isStarted != 0, c.isLocked != 0, c.destinationAlias,
                   ParticipantsSnapshot(db, c.alias))
  }

  /** `GET /active-conferences-data`: every conference with its participants. */
  function Snapshot(db: Db): (r: seq<ConferenceView>)
    ensures |r| == |db.conferences|
    ensures forall i :: 0 <= i < |r| ==> r[i] == ConferenceViewOf(db, db.conferences[i])
  {
    SnapshotOf(db, db.conferences)
  }

  function SnapshotOf(db: Db, cs: seq<ConferenceRow>): (r: seq<ConferenceView>)
    ensures |r| == |cs|
    ensures forall i :: 0 <= i < |r| ==> r[i] == ConferenceViewOf(db, cs[i])
  {
    if cs == [] then [] else [ConferenceViewOf(db, cs[0])] + SnapshotOf(db, cs[1..])
  }
}
