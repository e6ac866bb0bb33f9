# Pexip webhook dashboard: a verified model

This project models the parts of a Pexip conference dashboard that decide
what the dashboard shows and what it sends:

- **The webhook receiver** (`backend/server.js`):
  - It extracts a conference identity from a loosely typed webhook payload.
  - It classifies the event into one of six handled kinds, or as ignored or
    malformed.
  - It applies the event to the SQLite tables `conferences` and
    `participants`.
  - It answers the caller with `success`, `ignored` or a 500.
- **The server's read side** (`backend/server.js`):
  - the snapshot endpoints, which turn stored 0/1 flags into booleans;
  - the server-sent-events frame string `event: <type>\ndata: <json>\n\n`,
    which follows a `connected` greeting.
- **The dashboard reconciler** (`frontend/src/App.jsx`):
  - It bootstraps the conference list from the snapshot.
  - It folds every live event into the conference list and the joined
    conference's roster.
  - It has separate main-stream listeners for `participant_create`,
    `participant_update` and `participant_delete`.
- **The conference hook, current and earlier versions**
  (`src/hooks/useConference.js`, `src/hooks/useConference-old.js`):
  - host and guest rosters routed by role;
  - the login split;
  - the available-layouts dictionary;
  - the `transformLayout` body builders;
  - the layout-selector guards.
- **The transform-layout form** (`TransformLayoutForm.jsx`): its
  `handleSubmit` validation and payload.

Modules and files:

| module | file | what it holds |
|---|---|---|
| `Json` | `json.dfy` | JavaScript values as the code sees them (`undefined`, `null` or a string), truthiness, SQL binding, trimming, the string order used for sorting |
| `Roster` | `roster.dfy` | The participant record and the list updaters shared by the dashboard and the hooks |
| `Ingest` | `ingest.dfy` | Identity extraction, the event switch as a pure `Normalize` into a tagged union, the reply, the publish decision |
| `Store` | `store.dfy` | The two tables and each SQL statement as a function: `INSERT OR REPLACE` with the `ON DELETE CASCADE` foreign key, `INSERT OR IGNORE`, `UPDATE`/`DELETE … WHERE uuid = ? AND conferenceAlias = ?`, the snapshot `SELECT`s |
| `StoreFacts` | `store_facts.dfy` | What every event does to the store |
| `Server` | `server.dfy` | The receiver as a class `Database`, whose methods update its two table fields in place, proved against `Store` |
| `Stream` | `stream.dfy` | The frame string and a parser that reads a stream session back |
| `Reconciler` | `reconciler.dfy` | The dashboard's listeners as pure list transformers |
| `Convergence` | `convergence.dfy` | Where a dashboard fed the live stream and a freshly loaded dashboard agree, and where they do not |
| `Hook` | `hook.dfy` | The current hook; `Hook.Selection` is a class for the three selected-layout state cells |
| `LegacyHook` | `legacy_hook.dfy` | The earlier hook |
| `LayoutForm` | `layout_form.dfy` | The form's submit handler, wired to either hook |

Semantics chosen for the store:

- **Foreign keys are on.** This is the default of the SQLite driver the
  server uses.
- **`INSERT OR REPLACE` is modelled as SQLite defines it.** The conflicting
  row is deleted, which cascades to its participants, and the new row is
  appended.
- **Tables are sequences of rows in rowid order**, not maps:
  - `SELECT *` returns rows in that order.
  - A `TEXT PRIMARY KEY` column admits any number of NULL keys. For example,
    `conference_started` without a name stores a NULL alias, and a
    participant without a uuid stores a NULL uuid.
- **JavaScript `undefined` binds as SQL NULL.**

The client listens on `/sse-events`, and the server publishes on `/stream`.
The convergence lemmas take these to be the same stream: a proxy that is not
part of this model forwards one to the other.

## Model

| member | source | states |
|---|---|---|
| Json.ToSql | backend/server.js:213-217 | Binding a value to a statement: a string is stored as itself, and `null` and `undefined` both become NULL |
| Json.FromSql | backend/server.js:55-57 | A column read back is a string exactly when it was not NULL, never `undefined` |
| Json.SqlRoundTrip | backend/server.js:210-221 | A value survives the store and the read back exactly when it is not `undefined` |
| Json.TrimStart | src/hooks/useConference.js:348 | The result is a suffix of the input, the removed prefix is all whitespace, and the result starts with a non-space |
| Json.TrimEnd | src/hooks/useConference.js:348 | The result is a prefix of the input, the removed suffix is all whitespace, and the result ends with a non-space |
| Json.TrimEmptyIffBlank | src/hooks/useConference.js:348 | `text.trim() !== ""` holds exactly when the text has a non-whitespace character |
| Json.StrLeTotal | frontend/src/App.jsx:109 | The sort comparator's order is total |
| Json.StrLeTrans | frontend/src/App.jsx:109 | The sort comparator's order is transitive |
| Roster.InsertByName | frontend/src/App.jsx:109 | Inserting into a sorted roster gives a sorted permutation with one more entry |
| Roster.SortByName | frontend/src/App.jsx:109 | `sort` by `display_name ?? ''` yields a sorted permutation of its input |
| Roster.SortByNameIsStable | frontend/src/App.jsx:109 | The sort is stable: for every display name, the entries carrying it keep their relative order |
| Roster.InsertByNameIsStable | frontend/src/App.jsx:109 | An insertion step keeps each name's entries in order and puts the inserted entry first among its own name |
| Roster.SortSortedIsIdentity | frontend/src/App.jsx:276 | Sorting an already sorted roster changes nothing |
| Roster.InsertKeepsUnique | frontend/src/App.jsx:276 | Inserting an entry whose uuid is new keeps uuids distinct |
| Roster.SortKeepsUnique | frontend/src/App.jsx:276 | Sorting keeps uuids distinct |
| Roster.AddIfAbsent | frontend/src/App.jsx:273-277 | An entry whose uuid is listed is not added. Otherwise the result is sorted and has exactly one more entry, the new one |
| Roster.AddIfAbsentContract | frontend/src/App.jsx:105-110 | After the add the uuid is listed, the listed uuids are the old ones plus it, and distinct uuids stay distinct |
| Roster.AddIfAbsentIdempotent | frontend/src/App.jsx:107 | A duplicate create is a no-op |
| Roster.AddThenSort | src/hooks/useConference.js:71-79 | The hooks' add sorts in both branches. It adds the entry only when its uuid is absent |
| Roster.AddThenSortContract | src/hooks/useConference-old.js:88-95 | After the hooks' add the uuid is listed, uuids stay distinct, and a duplicate create is a no-op |
| Roster.ReplaceByUuid | frontend/src/App.jsx:115 | Same length and same uuids at every position. Entries with the uuid become the event's participant, and all others are unchanged |
| Roster.ReplaceByUuidNeverInserts | frontend/src/App.jsx:303-305 | Replace never inserts: an absent uuid is a no-op, the set of uuids is unchanged, it is idempotent and it keeps uuids distinct |
| Roster.RemoveByUuid | frontend/src/App.jsx:120 | Keeps exactly the entries with another uuid |
| Roster.RemoveByUuidIsFilter | frontend/src/App.jsx:120 | The filter acts entry by entry: it distributes over concatenation and keeps a single entry exactly when its uuid differs, so the kept entries stay in their order |
| Roster.RemoveByUuidKeepsSorted | frontend/src/App.jsx:120 | Removing from a roster sorted by display name leaves it sorted |
| Roster.RemoveAbsentIsIdentity | frontend/src/App.jsx:325 | Removing an absent uuid changes nothing |
| Roster.RemoveByUuidIdempotent | frontend/src/App.jsx:333 | A duplicate delete is a no-op |
| Roster.RemoveByUuidContract | frontend/src/App.jsx:325 | On a roster with distinct uuids, removing a listed uuid shortens it by exactly one and keeps uuids distinct |
| Roster.NonGuests | src/hooks/useConference.js:276 | Keeps exactly the entries whose role is not `guest` |
| Roster.Guests | src/hooks/useConference.js:277 | Keeps exactly the entries whose role is `guest` |
| Roster.SplitByRoleIsPartition | src/hooks/useConference-old.js:214-215 | The two filtered lists together hold exactly the input participants, as a multiset |
| Ingest.FirstPresent | backend/server.js:109-124 | A fallback chain yields a value exactly when some link is truthy, and that value is the first truthy link |
| Ingest.IdentityOf | backend/server.js:109-129 | Identity is read only from a truthy `data`: an alias comes only from an object `data`, and whenever there is an alias there is a name. A truthy `conference` is the alias, else `name` is. A `data` that is not an object gives no identity |
| Ingest.ExtractIdentity | backend/server.js:103-129 | The step-by-step reassignment of the three locals computes the fallback chains. A truthy `conference` is the alias, and the alias only ever comes from `conference` or `name` |
| Ingest.UnfoldChains | backend/server.js:110-128 | The three chains are: the alias is `conference`, else `name`; the name is `name`, else `conference`, else `display_name`; the destination is `destination_alias` |
| Ingest.DisplayNameNeverAlias | backend/server.js:121-124 | `display_name` is only a fallback for the name and never becomes the alias |
| Ingest.Normalize | backend/server.js:146-286 | A published event carries the event name it came from. The event is malformed (a 500) exactly when it is `conference_updated` whose `data` is `null` or missing. A `data` that is not an object yields a `conference_updated` with no identity and both flags `undefined`. `conference_updated` carries no destination alias, and a connect carries `is_presenting = false` |
| Ingest.IgnoredClassification | backend/server.js:186-285 | An event is ignored exactly when its type is not one of the six, or it is a participant event whose `data` yields no conference alias (a `data` that is not an object never does) |
| Ingest.Respond | backend/server.js:288-299 | The reply is 500 exactly for a malformed event, `success` exactly for a published one, and `ignored` exactly for an ignored one |
| Ingest.Published | backend/server.js:288-292 | Something is published exactly when the reply is `success`, and it is the event itself |
| Store.Bit | backend/server.js:218-220 | `x ? 1 : 0` stores 0 or 1, and the stored value is non-zero exactly when `x` was truthy |
| Store.Lookup | backend/server.js:136-137 | Finds a row exactly when the alias is non-NULL and stored, and the row found carries that alias |
| Store.LookupUnique | backend/server.js:136 | With unique aliases, the lookup returns the one row with that alias |
| Store.DropConference | backend/server.js:167-168 | `DELETE FROM conferences WHERE conferenceAlias = ?` keeps exactly the rows with another alias, and keeps aliases unique |
| Store.DropParticipantsOf | backend/server.js:37 | The cascade keeps exactly the participants of other conferences, and keeps uuids unique |
| Store.ReplaceConference | backend/server.js:140-143 | `INSERT OR REPLACE` as written: the new row is present and is the only row with its alias, and the participants of that alias are gone |
| Store.UpdateOrInsertConference | backend/server.js:140-143 | The corrected upsert, which updates in place, stores the new row and leaves the participant table unchanged |
| Store.SetConference | backend/server.js:140-143 | The in-place update rewrites exactly the rows with the row's alias and leaves every other position alone |
| Store.UpsertRow | backend/server.js:134-143 | The row `upsertConference` writes: the alias and start time given, the name defaulting to the alias, the flags as 0/1, and the destination alias the incoming one when non-empty, else the stored row's, else NULL |
| Store.Upsert | backend/server.js:134-144 | After the upsert the written row is in the table. In place, the participant table is unchanged; as written, exactly the participants of that alias are gone |
| Store.InsertOrIgnore | backend/server.js:209-212 | An existing non-NULL uuid leaves the table unchanged. Any other row is appended |
| Store.UpdateParticipant | backend/server.js:245-258 | Same length. Rows matching uuid and alias take the new fields, and all others are unchanged |
| Store.DeleteParticipant | backend/server.js:275-276 | Keeps exactly the rows not matching uuid and alias, and keeps uuids unique |
| Store.ApplyEvent | backend/server.js:146-286 | The statements of one event: an event that publishes nothing writes nothing, a `conference_ended` without alias deletes nothing, participant updates and deletes leave the conference table alone, and after a connect its conference is in the table |
| Store.RowsOf | backend/server.js:82 | `SELECT * FROM participants WHERE conferenceAlias = ?` keeps exactly the rows of that alias |
| Store.Views | backend/server.js:83-88 | Each participant row is shown with its flags coerced to booleans, position by position |
| Store.Snapshot | backend/server.js:55-69 | One entry per conference row, in table order, each with that conference's participants |
| Store.SnapshotOf | backend/server.js:56-69 | The `map` over any list of conference rows, entry by entry |
| StoreFacts.WriteConferenceKeepsConsistent | backend/server.js:140-143 | Either upsert keeps keys unique and every participant's conference present, and the written row is stored |
| StoreFacts.DeleteConferenceKeepsConsistent | backend/server.js:166-168 | Deleting a conference with its cascade keeps the store consistent |
| StoreFacts.UpdateParticipantKeepsConsistent | backend/server.js:245-258 | The participant `UPDATE` keeps the store consistent |
| StoreFacts.ApplyKeepsConsistent | backend/server.js:146-286 | Every event keeps primary keys unique and every participant's conference row present |
| StoreFacts.UpsertReadsBack | backend/server.js:134-143 | After an upsert the row reads back with the flags as 0/1, the start time, the name defaulting to the alias, and the incoming destination if non-empty, else the stored one |
| StoreFacts.ConferenceEventKeepsDestination | backend/server.js:172-183 | `conference_started` and `conference_updated` never change the stored destination alias |
| StoreFacts.ConnectedOverwritesDestination | backend/server.js:136-138 | A connect with a non-empty destination alias overwrites the stored one. With an empty one it keeps it |
| StoreFacts.ParticipantConnectedContract | backend/server.js:186-221 | After a connect the conference row exists with `is_started = 1` and `is_locked = 0`, and the uuid is stored. A new uuid is stored as the event's participant with `is_presenting = 0` |
| StoreFacts.InsertOrIgnoreIdempotent | backend/server.js:210 | Inserting the same non-NULL uuid twice is inserting it once |
| StoreFacts.ParticipantConnectedIdempotent | backend/server.js:204-221 | A repeated connect with a uuid leaves the store as one connect did |
| StoreFacts.ParticipantUpdatedScope | backend/server.js:245-258 | An update touches only rows matching uuid and alias. With no match the store is unchanged, and this is not an error |
| StoreFacts.ParticipantDisconnectedScope | backend/server.js:275-276 | A disconnect removes exactly the rows matching uuid and alias. With no match the store is unchanged |
| StoreFacts.ConferenceEndedCascades | backend/server.js:159-168 | `conference_ended` removes the conference row and, through the cascade, its participants. Everything else stays, and that alias's participants snapshot is empty. Without an alias nothing is deleted |
| StoreFacts.ParticipantReadsBack | backend/server.js:62-67 | A stored participant is shown with each flag equal to the truthiness of the flag it was written from |
| StoreFacts.SnapshotCoversStore | backend/server.js:53-69 | In a consistent store the snapshot shows every participant row under its own conference and nowhere else |
| StoreFacts.ReplaceUpsertDropsParticipants | backend/server.js:140-143 | As written, an upsert by a conference event leaves that conference with no participants, and a connect leaves only the connecting participant |
| StoreFacts.UpdateUpsertKeepsParticipants | backend/server.js:138-143 | With the in-place upsert, conference events leave the participants alone and a connect only adds its row |
| StoreFacts.SecondConnectEvictsFirst | backend/server.js:206-221 | Two participants connect in turn: as written the first one's row is gone, and with the in-place upsert it is kept |
| StoreFacts.DropConferenceIsFilter | backend/server.js:167-168 | The conference `DELETE` acts row by row, so the surviving rows keep their rowid order |
| StoreFacts.DropParticipantsIsFilter | backend/server.js:37 | The cascade acts row by row, so the surviving participant rows keep their rowid order |
| StoreFacts.DeleteParticipantIsFilter | backend/server.js:275-276 | The participant `DELETE` acts row by row, so the surviving rows keep their rowid order |
| StoreFacts.RowsOfIsFilter | backend/server.js:82 | The snapshot's per-conference `SELECT` keeps the matching rows in rowid order |
| StoreFacts.NullUuidDeletesNothing | backend/server.js:275-276 | A `participant_disconnected` whose uuid is `null` leaves the store as it was, since `uuid = NULL` matches no row |
| StoreFacts.PrimitiveDataAppendsNullRow | backend/server.js:172-184 | A `conference_updated` whose `data` is a primitive (`false`, `0`, `""` or a truthy one) is answered with success, is published, and appends a row with a NULL alias, a NULL name and both flags 0 |
| Server.Database.constructor | backend/server.js:19-39 | Both tables start empty and consistent |
| Server.Database.UpsertConference | backend/server.js:134-144 | The new state is the literal `INSERT OR REPLACE` upsert of the old one, and the store stays consistent |
| Server.Database.DeleteConference | backend/server.js:167-168 | The new state is the old one less the conference and its cascade |
| Server.Database.InsertParticipant | backend/server.js:209-221 | Only the participant table changes, by `INSERT OR IGNORE` |
| Server.Database.UpdateParticipant | backend/server.js:245-258 | Only the participant table changes, by the keyed `UPDATE` |
| Server.Database.DeleteParticipant | backend/server.js:275-276 | Only the participant table changes, by the keyed `DELETE` |
| Server.Database.ConferenceEvent | backend/server.js:147-184 | For the three conference events, the new state is the normalized event applied to the old one, and the published event is the normalized one |
| Server.Database.ConnectParticipant | backend/server.js:204-221 | The upsert with the name defaulting to the alias, then `INSERT OR IGNORE`, together apply the connect event to the old state |
| Server.Database.ParticipantEvent | backend/server.js:186-281 | For the three participant events, the new state is the normalized event applied to the old one, and the published event is the normalized one (none for an event the switch ignores) |
| Server.Database.HandleWebhook | backend/server.js:99-300 | The new state is the event applied to the old one. The reply and the published event are those of the normalized event, and the store stays consistent |
| Stream.Frame | backend/server.js:324 | A frame starts with `event: `, ends with a blank line and has the fixed overhead of the format |
| Stream.Session | backend/server.js:310-324 | Every subscriber's stream starts with the greeting frame and continues with the event frames |
| Stream.GreetingIsOneLine | backend/server.js:310 | The greeting's type and payload are single lines, so the greeting frame reads back whole |
| Stream.ParseFrames | backend/server.js:324 | Whatever the reader accepts is exactly the text the writer produces for the frames it returns |
| Stream.TakeLine | backend/server.js:324 | Splits at the first newline exactly when there is one |
| Stream.TakeLineSplit | backend/server.js:324 | A line without a newline is read back whole |
| Stream.ParseFramesStep | backend/server.js:324 | The parser reads one `event:`/`data:` pair and continues after the blank line |
| Stream.FrameThenRest | backend/server.js:324 | A frame followed by more stream text reads back as that frame followed by the rest |
| Stream.SessionRoundTrip | backend/server.js:303-329 | A session, the `connected` greeting followed by frames of one-line types and payloads, reads back as the greeting and then the events in order |
| Stream.FramesRoundTrip | backend/server.js:320-324 | Frames of one-line types and payloads read back as the events in order |
| Reconciler.ParseParticipants | frontend/src/App.jsx:185-190 | One client participant per snapshot row, in order |
| Reconciler.ParseParticipant | frontend/src/App.jsx:185-190 | A bootstrapped participant has its three flags as booleans and no `undefined` field |
| Reconciler.ParseConference | frontend/src/App.jsx:179-191 | A bootstrapped conference has both flags as booleans and one parsed participant per snapshot row, in order |
| Reconciler.ParseSnapshot | frontend/src/App.jsx:179-191 | One client conference per snapshot entry, in order |
| Reconciler.ParticipantRoundTrip | frontend/src/App.jsx:185-190 | A participant written by the server and bootstrapped by the dashboard is the one the event carried, provided no field was missing |
| Reconciler.OnConferenceStarted | frontend/src/App.jsx:219-228 | The alias is listed afterwards, and the old list is kept as a prefix of at most one more entry |
| Reconciler.ConferenceStartedIdempotent | frontend/src/App.jsx:221-227 | A known alias leaves the list unchanged, a new one is added with an empty roster, and a repeated event is a no-op |
| Reconciler.OnConferenceEnded | frontend/src/App.jsx:234-237 | Removes every entry with the alias and keeps every other entry |
| Reconciler.ConferenceEndedIsFilter | frontend/src/App.jsx:235 | The filter acts entry by entry, so the other conferences keep their order |
| Reconciler.ConferenceEndedUnknownIsNoOp | frontend/src/App.jsx:235 | An unknown alias leaves the list unchanged |
| Reconciler.ConferenceEndedIdempotent | frontend/src/App.jsx:235 | Ending a conference twice is ending it once |
| Reconciler.OnConferenceUpdated | frontend/src/App.jsx:244-256 | Same length. Other conferences are unchanged, and matching ones are rewritten as the updater says |
| Reconciler.ConferenceUpdatedContract | frontend/src/App.jsx:246-253 | Matching entries take `is_started` and `is_locked`, keep everything else, and keep the destination alias when the event's is `undefined`. A repeated event is a no-op |
| Reconciler.OnParticipantConnected | frontend/src/App.jsx:263-283 | Same length. Other conferences are unchanged, and matching ones take the destination and the participant |
| Reconciler.ParticipantConnectedContract | frontend/src/App.jsx:267-279 | A destination alias is taken only when the event has one and the entry has none. The uuid is then listed and uuids stay distinct. A listed uuid leaves the roster unchanged, and a repeated event is a no-op |
| Reconciler.OnParticipantUpdated | frontend/src/App.jsx:298-310 | Same length. Only matching conferences change, and only by replace-by-uuid in their roster |
| Reconciler.OnParticipantDisconnected | frontend/src/App.jsx:320-330 | Same length. Only matching conferences change, and only by filter-by-uuid in their roster |
| Reconciler.ParticipantDisconnectedContract | frontend/src/App.jsx:320-329 | The uuid is gone from matching rosters only. A roster that listed it shrinks by exactly one, one that did not is unchanged, and all rosters keep distinct uuids |
| Reconciler.ConnectedListFacts | frontend/src/App.jsx:263-283 | On the whole list, a repeated `participant_connected` is a no-op, and rosters free of repeated uuids stay so |
| Reconciler.UpdatedListFacts | frontend/src/App.jsx:298-310 | On the whole list, a repeated `participant_updated` is a no-op, and rosters free of repeated uuids stay so |
| Reconciler.DisconnectedListIdempotent | frontend/src/App.jsx:320-330 | On the whole list, a repeated `participant_disconnected` is a no-op |
| Reconciler.Reconcile | frontend/src/App.jsx:216-335 | No event changes which conference is joined. Conference events leave the joined roster alone, and participant events touch it only when they are for the joined conference |
| Reconciler.ReconcileIdempotent | frontend/src/App.jsx:216-335 | Every live event applied twice to the dashboard gives what applying it once gives |
| Reconciler.ReconcileKeepsRostersUnique | frontend/src/App.jsx:216-335 | Every live event keeps every roster, the joined one included, free of repeated uuids |
| Reconciler.OnMainStream | frontend/src/App.jsx:103-121 | After a main-stream create the uuid is listed, an update keeps the roster's length, and after a delete the uuid is not listed |
| Reconciler.MainStreamContract | frontend/src/App.jsx:103-121 | A main-stream create lists the uuid and adds it sorted only when absent. An update never changes which uuids are listed. A delete keeps exactly the other uuids. Each is idempotent and keeps uuids distinct |
| Convergence.ClientRosterCons | frontend/src/App.jsx:185-190 | The client roster of a table is built row by row |
| Convergence.ClientConferenceOf | frontend/src/App.jsx:179-191 | A bootstrapped conference carries the stored alias and that alias's participant rows |
| Convergence.RosterAfterUpdate | backend/server.js:245-258 | The server's keyed `UPDATE`, read back by a fresh client, is the client's replace-by-uuid on the matching roster |
| Convergence.RosterAfterDelete | backend/server.js:275-276 | The server's keyed `DELETE`, read back by a fresh client, is the client's filter-by-uuid on the matching roster |
| Convergence.RosterAfterDrop | backend/server.js:37 | Another conference's cascade leaves a roster as it was |
| Convergence.ClientListAfterEnd | backend/server.js:159-168 | Bootstrapping after a conference row and its participants are gone is the client's filter on the bootstrapped list |
| Convergence.ParticipantUpdatedConverges | frontend/src/App.jsx:295-315 | For `participant_updated` with a uuid and no missing field, a dashboard that applies the live event and one that reloads the snapshot afterwards show the same conference list |
| Convergence.ParticipantDisconnectedConverges | frontend/src/App.jsx:317-335 | For `participant_disconnected` with a uuid, the live update and a reload agree |
| Convergence.ConferenceEndedConverges | frontend/src/App.jsx:231-239 | For `conference_ended` naming its conference, the live update and a reload agree |
| Convergence.UnidentifiedEndDiverges | frontend/src/App.jsx:235 | A `conference_ended` without an alias deletes nothing on the server, but the dashboard drops every conference whose alias is `null` |
| Convergence.SecondDestinationDiverges | frontend/src/App.jsx:268-270 | After a second, different destination alias the server stores the new one, and the dashboard keeps the first |
| Convergence.ConferenceUpdatedDropsRoster | backend/server.js:172-184 | `conference_updated` on a conference with participants: a reload shows an empty roster and boolean flags, while the live entry keeps its roster and the event's flags as they came, `undefined` included |
| Convergence.ConferenceStartedFlagsDiverge | frontend/src/App.jsx:219-228 | The live entry added for `conference_started` has both flags `undefined`, while a reload shows `true` and `false` |
| Convergence.ConnectEvictionDiverges | backend/server.js:204-221 | A `participant_connected` evicts the conference's earlier participant rows from the store, while the live roster keeps them |
| Convergence.ConnectKeepsListed | frontend/src/App.jsx:273-277 | A live `participant_connected` never drops a listed participant |
| Convergence.NullUuidDisconnectDiverges | backend/server.js:275-276 | A `participant_disconnected` with a `null` uuid deletes nothing in the store, while the live roster drops every participant with a `null` uuid |
| Hook.OnCreateContract | src/hooks/useConference.js:69-81 | A create puts the uuid in `guests` exactly when the role is `guest` and in `participants` otherwise, sorts that list and leaves the other alone. It keeps uuids distinct and is idempotent |
| Hook.OnUpdateDeleteContract | src/hooks/useConference.js:82-89 | Update and delete change only the list the event's role selects. An update never changes which uuids either list holds. A delete removes the uuid from the selected list and is idempotent |
| Hook.OnCreate | src/hooks/useConference.js:69-81 | A create lists the uuid in the list the role selects and leaves the other list as it was |
| Hook.OnUpdate | src/hooks/useConference.js:82-85 | An update leaves the list the role does not select as it was, and both lists keep their length and their uuids position by position |
| Hook.OnDelete | src/hooks/useConference.js:86-89 | A delete removes the uuid from the list the role selects and leaves the other list as it was |
| Hook.LoginRosters | src/hooks/useConference-old.js:211-216 | The rosters are set at login exactly when the participants request returned a result |
| Hook.LoginSplitsByRole | src/hooks/useConference.js:273-278 | Login puts the guests in `guests` and everyone else in `participants`, and together the lists hold exactly the fetched participants |
| Hook.KeyCount | src/hooks/useConference.js:359 | `Object.keys(cleanTransforms).length` is zero exactly when no key was set |
| Hook.Chosen | src/hooks/useConference.js:319-329 | A layout argument contributes exactly when it is truthy |
| Hook.IsLecture | src/hooks/useConference.js:39 | Every lecture type is a string starting with `lecture`, and `"lecture"` itself is one |
| Hook.RequestBody | src/hooks/useConference.js:310-367 | A body exists exactly when the mode's layout keys or a non-blank overlay were given, and it then has at least one key |
| Hook.TransformLayout | src/hooks/useConference.js:310-367 | A body is sent exactly when the mode's layout keys or a non-blank overlay were given. In lecture mode (three type names) only `host_layout`/`guest_layout`, else only `layout`. The overlay defaults to `top`/`medium` and its text is never blank |
| Hook.Selection.constructor | src/hooks/useConference.js:391-393 | The three selections start empty |
| Hook.Selection.OnSetLayout | src/hooks/useConference.js:405-410 | Records the key and nothing else. It calls `transformLayout` exactly for a key whose trim is non-empty, and that call sends the layout unless the conference is a lecture |
| Hook.Selection.OnSetHostLayout | src/hooks/useConference.js:395-398 | Records the host key and nothing else. It calls exactly for a truthy key, and the call sends only in lecture mode |
| Hook.Selection.OnSetGuestLayout | src/hooks/useConference.js:400-403 | Records the guest key and nothing else. It calls exactly for a truthy key, and the call sends only in lecture mode |
| LegacyHook.LoadAvailableLayouts | src/hooks/useConference-old.js:6-23 | An array result gives a dictionary whose keys are exactly its elements, each mapped to itself. Any other result gives `{}` |
| LegacyHook.ListenIdempotent | src/hooks/useConference-old.js:88-107 | Every participant event is idempotent and keeps uuids distinct in both lists |
| LegacyHook.Listen | src/hooks/useConference-old.js:88-107 | An event changes only the list its role selects. After a create the uuid is listed there, and after a delete it is not |
| LegacyHook.RoleChangeIsLost | src/hooks/useConference-old.js:97-106 | A host whose update or delete says `guest` is neither updated, moved nor removed |
| LegacyHook.TransformLayout | src/hooks/useConference-old.js:248-262 | A body is sent exactly when a mode key or a non-empty `transforms` was given. Only `"lecture"` selects host and guest layouts, and `transforms` is forwarded unchanged |
| LegacyHook.LegacyRequestBody | src/hooks/useConference-old.js:248-262 | A body exists exactly when a mode key or a non-empty `transforms` was given, and any `transforms` it carries is the caller's, unchanged |
| LegacyHook.LectureReadingsDiffer | src/hooks/useConference-old.js:248-262 | For `lecture_mode` and `lecture_type` with only `layout` chosen, the earlier hook sends `layout` and the current hook sends nothing |
| LayoutForm.KeyOf | src/components/conference/TransformLayoutForm.jsx:31-39 | A select contributes a key exactly when it is non-empty, with its value |
| LayoutForm.Accepts | src/components/conference/TransformLayoutForm.jsx:26-38 | A submission passes exactly when the payload it would send has a layout key or the overlay is enabled |
| LayoutForm.Payload | src/components/conference/TransformLayoutForm.jsx:32-60 | In `"lecture"` only host and guest keys, else only `layout`, each exactly when its select is non-empty. `text_overlay` is always present, with empty text when disabled |
| LayoutForm.HandleSubmit | src/components/conference/TransformLayoutForm.jsx:20-61 | At most one call, and one exactly when the mode's check passes. In `"lecture"` only host and guest keys, else only `layout`, each only when non-empty. `text_overlay` is always present, with empty text when disabled |
| LayoutForm.BlankOverlayIsDropped | src/components/conference/TransformLayoutForm.jsx:43-54 | Through the current hook, a disabled or blank overlay never reaches the node, and an overlay-only submission sends nothing |
| LayoutForm.LegacyHookSendsEverySubmission | src/components/conference/TransformLayoutForm.jsx:57-60 | Through the earlier hook, every accepted submission is sent, with its overlay entry |
| LayoutForm.LectureModeLayoutIsDropped | src/components/conference/TransformLayoutForm.jsx:18 | For `lecture_mode`/`lecture_type`, the form sends `layout`, which the current hook ignores |
| LayoutForm.LectureAgrees | src/components/conference/TransformLayoutForm.jsx:26-32 | For `"lecture"`, the host and guest layouts the form sends are the ones the current hook sends |

## Left out

- Redis publish/subscribe and the stream endpoint's subscription lifecycle
  (`backend/server.js:45-46, 290, 312-335`) are network I/O and
  concurrency. Only the frame string and the greeting are modelled.
- Express routing, CORS, process start and the SQLite engine itself are not
  modelled. The tables are values whose semantics follow the SQL statements.
  - A storage error other than the `TypeError` of a `conference_updated`
    whose `data` is `null` or missing is not modelled.
- The tables are sequences of rows, not maps keyed by alias and uuid.
  SQLite admits NULL primary keys in these `TEXT` columns, and the
  snapshot's order is rowid order. A map could not hold either.
- Timestamps (`new Date().toISOString()`) are a `now` parameter.
  - The client stamps its own `start_time`, so `start_time` is outside the
    convergence lemmas.
- `JSON.parse`/`JSON.stringify` are not modelled. Payloads are records, and
  a field is `undefined`, `null` or a string. A boolean flag is
  `Option<bool>`, with `None` for missing. A webhook's `data` is `null` or
  missing, a primitive (every field read gives `undefined`) or an object.
  Numbers, objects and other non-string values in string fields are not
  modelled.
- `localeCompare` is modelled as code-point lexicographic order (a total
  order).
- The hooks' comparator `a.display_name.localeCompare(...)` throws on a
  missing `display_name`. The model uses `display_name ?? ''` there as the
  dashboard does, so that exception is not modelled.
- The snapshot rows' extra `conferenceAlias` column on participants is
  carried in the store but not compared by the client.
- Convergence is stated only for `participant_updated`,
  `participant_disconnected` and `conference_ended`. For the other events
  the live dashboard and a reload disagree, and the model states how:
  - `conference_started`: the live entry's flags are `undefined`
    (Convergence.ConferenceStartedFlagsDiverge).
  - `conference_updated`: as written, the store loses the roster and a
    reload shows boolean flags (Convergence.ConferenceUpdatedDropsRoster).
  - `participant_connected`: as written, the store evicts the earlier
    participants (Convergence.ConnectEvictionDiverges). With the in-place
    upsert, the order would still differ: the dashboard keeps rosters
    sorted by display name, and the snapshot returns them in rowid order.
- Convergence.ParticipantUpdatedConverges and
  Convergence.ParticipantDisconnectedConverges require a non-`null` uuid.
  With a `null` uuid the store's `uuid = ?` matches no row, while the
  dashboard replaces or removes every entry whose uuid is `null`.
  Convergence.NullUuidDisconnectDiverges states this for disconnects. The
  update case is not stated.
- Convergence.ParticipantUpdatedConverges also requires that no field be
  missing. A missing field is stored as NULL and reads back as `null`, not
  `undefined`.
- Roster.AddThenSort: the hooks' `sort` reorders `prev` in place and
  returns the same array when the uuid is already listed. The model
  returns a new sorted sequence, so aliasing is not modelled: React's
  state holds that same array object, reordered in place.
- All calls to the conferencing platform's client API are not modelled:
  - tokens, release on unload, presentation frames, chat, dial-out,
    pinning, muting and locking;
  - the current hook's loading of available layouts;
  - `resetTransformLayout`.
  These are I/O wrappers. Only the bodies that `transformLayout` builds are
  modelled, and a sent request is the body returned.
- Toasts, alerts and console output are not modelled.

## Findings

| source | as written | input that shows it | evidently intended | confidence | as-written member | corrected member |
|---|---|---|---|---|---|---|
| backend/server.js:140-143 | `upsertConference` runs `INSERT OR REPLACE` on `conferences`, whose participants reference it `ON DELETE CASCADE` (`:37`). The replace deletes the old row, and the delete removes that conference's participants | Two `participant_connected` events for conference `c`, with uuids `u1` then `u2`. After the second one the participant table has only `u2` | An upsert that updates the conference row in place. The helper reads back the existing row to carry its destination alias over, and the dashboard keeps earlier participants, so participants evidently should survive | not executed | StoreFacts.SecondConnectEvictsFirst | StoreFacts.UpdateUpsertKeepsParticipants |
