/**
 * Participant lists as the browser keeps them: the participant record carried
 * by events and snapshots, and the list updaters shared by the dashboard and
 * the conference hooks (add-if-absent then sort by display name, replace by
 * uuid, filter by uuid, split by role).
 */
module Roster {
  import opened Json

  /** A participant object: `uuid`, `display_name`, `role` and the three flags. */
  datatype Participant = Participant(
    uuid: JsStr,
    displayName: JsStr,
    role: JsStr,
    isMuted: Option<bool>,
    isVideoMuted: Option<bool>,
    isPresenting: Option<bool>)

  /** The sort key `display_name ?? ''`. */
  function NameKey(p: Participant): string {
    if p.displayName.Str? then p.displayName.s else ""
  }

  /** `list.some(p => p.uuid === u)` */
  predicate HasUuid(s: seq<Participant>, u: JsStr) {
    exists i :: 0 <= i < |s| && s[i].uuid == u
  }

  /** No uuid occurs twice in the list. */
  predicate UniqueUuids(s: seq<Participant>) {
    forall i, j :: 0 <= i < j < |s| ==> s[i].uuid != s[j].uuid
  }

  predicate SortedByName(s: seq<Participant>) {
    forall i, j :: 0 <= i < j < |s| ==> StrLe(NameKey(s[i]), NameKey(s[j]))
  }

  lemma HasUuidByMember(s: seq<Participant>, p: Participant)
    requires p in s
    ensures HasUuid(s, p.uuid)
  {
    var i :| 0 <= i < |s| && s[i] == p;
  }

  /** How `HasUuid` of a list relates to `HasUuid` of its tail. */
  lemma HasUuidTail(s: seq<Participant>, u: JsStr)
    requires s != []
    ensures HasUuid(s, u) <==> s[0].uuid == u || HasUuid(s[1..], u)
    ensures UniqueUuids(s) ==> UniqueUuids(s[1..]) && !HasUuid(s[1..], s[0].uuid)
  {
    if HasUuid(s[1..], u) {
      var i :| 0 <= i < |s[1..]| && s[1..][i].uuid == u;
      assert s[i + 1].uuid == u;
    }
    if HasUuid(s, u) && s[0].uuid != u {
      var i :| 0 <= i < |s| && s[i].uuid == u;
      assert s[1..][i - 1].uuid == u;
    }
    if UniqueUuids(s) {
      forall i | 0 <= i < |s[1..]| ensures s[1..][i].uuid != s[0].uuid {
        assert s[1..][i] == s[i + 1];
      }
    }
  }

  /** Membership in two lists with the same elements determines the same uuids. */
  lemma SameUuids(a: seq<Participant>, b: seq<Participant>)
    requires multiset(a) == multiset(b)
    ensures forall u :: HasUuid(a, u) <==> HasUuid(b, u)
  {
    forall u ensures HasUuid(a, u) ==> HasUuid(b, u) {
      if HasUuid(a, u) {
        var i :| 0 <= i < |a| && a[i].uuid == u;
        assert a[i] in multiset(b);
        HasUuidByMember(b, a[i]);
      }
    }
    forall u ensures HasUuid(b, u) ==> HasUuid(a, u) {
      if HasUuid(b, u) {
        var i :| 0 <= i < |b| && b[i].uuid == u;
        assert b[i] in multiset(a);
        HasUuidByMember(a, b[i]);
      }
    }
  }

  /** An entry no greater than every entry of a sorted list may go in front of it. */
  lemma ConsSorted(x: Participant, s: seq<Participant>)
    requires SortedByName(s)
    requires forall j :: 0 <= j < |s| ==> StrLe(NameKey(x), NameKey(s[j]))
    ensures SortedByName([x] + s)
  {
    forall i, j | 0 <= i < j < |[x] + s| ensures StrLe(NameKey(([x] + s)[i]), NameKey(([x] + s)[j])) {
      if i > 0 { assert ([x] + s)[i] == s[i - 1]; }
      assert ([x] + s)[j] == s[j - 1];
    }
  }

  /** An entry no greater than the head of a sorted list may go in front of it. */
  lemma PrependSmallest(p: Participant, s: seq<Participant>)
    requires SortedByName(s) && s != [] && StrLe(NameKey(p), NameKey(s[0]))
    ensures SortedByName([p] + s)
  {
    forall j | 0 <= j < |s| ensures StrLe(NameKey(p), NameKey(s[j])) {
      if j > 0 { StrLeTrans(NameKey(p), NameKey(s[0]), NameKey(s[j])); }
    }
    ConsSorted(p, s);
  }

  /** The head of a sorted list is no greater than any entry of its tail with
      a greater `p` inserted. */
  lemma HeadBelowRest(p: Participant, s: seq<Participant>, rest: seq<Participant>)
    requires SortedByName(s) && s != [] && StrLe(NameKey(s[0]), NameKey(p))
    requires multiset(rest) == multiset(s[1..]) + multiset{p}
    ensures forall j :: 0 <= j < |rest| ==> StrLe(NameKey(s[0]), NameKey(rest[j]))
  {
    forall j | 0 <= j < |rest| ensures StrLe(NameKey(s[0]), NameKey(rest[j])) {
      assert rest[j] in multiset(rest);
      if rest[j] != p {
        assert rest[j] in multiset(s[1..]);
        var k :| 0 <= k < |s[1..]| && s[1..][k] == rest[j];
        assert s[k + 1] == rest[j];
      }
    }
  }

  /** The head of a sorted list stays in front of the rest with `p` inserted,
      when `p` is greater than the head. */
  lemma KeepHead(p: Participant, s: seq<Participant>, rest: seq<Participant>)
    requires SortedByName(s) && s != [] && !StrLe(NameKey(p), NameKey(s[0]))
    requires SortedByName(rest) && multiset(rest) == multiset(s[1..]) + multiset{p}
    ensures SortedByName([s[0]] + rest)
    ensures multiset([s[0]] + rest) == multiset(s) + multiset{p}
  {
    StrLeTotal(NameKey(p), NameKey(s[0]));
    assert s == [s[0]] + s[1..];
    HeadBelowRest(p, s, rest);
    ConsSorted(s[0], rest);
  }

  /** Places `p` before the first entry whose name is not smaller; a stable step
      of the sort. */
  function InsertByName(p: Participant, s: seq<Participant>): (r: seq<Participant>)
    requires SortedByName(s)
    ensures SortedByName(r)
    ensures multiset(r) == multiset(s) + multiset{p}
    ensures |r| == |s| + 1
  {
    if s == [] then [p]
    else if StrLe(NameKey(p), NameKey(s[0])) then
      PrependSmallest(p, s);
      [p] + s
    else
      assert SortedByName(s[1..]);
      var rest := InsertByName(p, s[1..]);
      KeepHead(p, s, rest);
      [s[0]] + rest
  }

  /** `[...].sort((a, b) => (a.display_name ?? '').localeCompare(b.display_name ?? ''))`:
      a stable sort, here an insertion sort. */
  function SortByName(s: seq<Participant>): (r: seq<Participant>)
    ensures SortedByName(r)
    ensures multiset(r) == multiset(s)
    ensures |r| == |s|
  {
    if s == [] then []
    else
      assert s == [s[0]] + s[1..];
      InsertByName(s[0], SortByName(s[1..]))
  }

  /** The entries whose sort key is `k`, in list order. */
  function WithName(s: seq<Participant>, k: string): (r: seq<Participant>)
    ensures forall x :: x in r ==> x in s && NameKey(x) == k
  {
    if s == [] then []
    else (if NameKey(s[0]) == k then [s[0]] else []) + WithName(s[1..], k)
  }

  lemma WithNameCons(x: Participant, s: seq<Participant>, k: string)
    ensures WithName([x] + s, k) == (if NameKey(x) == k then [x] else []) + WithName(s, k)
  {
    assert ([x] + s)[1..] == s;
  }

  /** Inserting `p` in front of every entry whose name is not smaller keeps
      the entries of each name in their order, with `p` first among its own. */
  lemma {:induction false} InsertByNameIsStable(p: Participant, s: seq<Participant>, k: string)
    requires SortedByName(s)
    ensures WithName(InsertByName(p, s), k) == (if NameKey(p) == k then [p] else []) + WithName(s, k)
  {
    if s == [] {
      WithNameCons(p, [], k);
    } else if StrLe(NameKey(p), NameKey(s[0])) {
      assert InsertByName(p, s) == [p] + s;
      WithNameCons(p, s, k);
    } else {
      assert SortedByName(s[1..]);
      InsertByNameIsStable(p, s[1..], k);
      InsertAfterHeadIsStable(p, s, k);
    }
  }

  /** The step of `InsertByNameIsStable` where `p` goes after the head. */
  lemma InsertAfterHeadIsStable(p: Participant, s: seq<Participant>, k: string)
    requires SortedByName(s) && s != [] && !StrLe(NameKey(p), NameKey(s[0]))
    requires SortedByName(s[1..])
    requires WithName(InsertByName(p, s[1..]), k) == (if NameKey(p) == k then [p] else []) + WithName(s[1..], k)
    ensures WithName(InsertByName(p, s), k) == (if NameKey(p) == k then [p] else []) + WithName(s, k)
  {
    var rest := InsertByName(p, s[1..]);
    assert InsertByName(p, s) == [s[0]] + rest;
    WithNameCons(s[0], rest, k);
    WithNameCons(s[0], s[1..], k);
    assert [s[0]] + s[1..] == s;
    NotBothNamed(p, s[0], k);
    OneSideEmpty(if NameKey(p) == k then [p] else [], if NameKey(s[0]) == k then [s[0]] else [], WithName(s[1..], k));
  }

  /** An entry that sorts strictly after another cannot share its name. */
  lemma NotBothNamed(p: Participant, q: Participant, k: string)
    requires !StrLe(NameKey(p), NameKey(q))
    ensures NameKey(p) != k || NameKey(q) != k
  {
    StrLeTotal(NameKey(p), NameKey(p));
  }

  lemma OneSideEmpty(mine: seq<Participant>, head: seq<Participant>, later: seq<Participant>)
    requires mine == [] || head == []
    ensures head + (mine + later) == mine + (head + later)
  {
    if mine == [] {
      assert mine + later == later;
    } else {
      assert head + later == later;
    }
  }

  /** The sort is stable: entries with the same display name keep their
      relative order. */
  lemma {:induction false} SortByNameIsStable(s: seq<Participant>, k: string)
    ensures WithName(SortByName(s), k) == WithName(s, k)
  {
    if s != [] {
      SortByNameIsStable(s[1..], k);
      InsertByNameIsStable(s[0], SortByName(s[1..]), k);
    }
  }

  /** Sorting a list that is already sorted leaves it as it is. */
  lemma {:induction false} SortSortedIsIdentity(s: seq<Participant>)
    requires SortedByName(s)
    ensures SortByName(s) == s
  {
    if s != [] {
      assert SortedByName(s[1..]);
      SortSortedIsIdentity(s[1..]);
      if |s| > 1 {
        assert StrLe(NameKey(s[0]), NameKey(s[1..][0]));
      }
      assert s == [s[0]] + s[1..];
    }
  }

  /** Consing an entry whose uuid is not listed keeps uuids distinct. */
  lemma ConsUnique(x: Participant, s: seq<Participant>)
    requires UniqueUuids(s) && !HasUuid(s, x.uuid)
    ensures UniqueUuids([x] + s)
  {
    forall i, j | 0 <= i < j < |[x] + s| ensures ([x] + s)[i].uuid != ([x] + s)[j].uuid {
      assert ([x] + s)[j] == s[j - 1];
      if i > 0 { assert ([x] + s)[i] == s[i - 1]; }
    }
  }

  /** The uuids listed after appending `p`. */
  lemma HasUuidSnoc(s: seq<Participant>, p: Participant, u: JsStr)
    ensures HasUuid(s + [p], u) <==> HasUuid(s, u) || p.uuid == u
  {
    if HasUuid(s + [p], u) && p.uuid != u {
      var i :| 0 <= i < |s + [p]| && (s + [p])[i].uuid == u;
      assert s[i].uuid == u;
    }
    if HasUuid(s, u) {
      var i :| 0 <= i < |s| && s[i].uuid == u;
      assert (s + [p])[i].uuid == u;
    }
    assert (s + [p])[|s|] == p;
  }

  lemma {:induction false} InsertKeepsUnique(p: Participant, s: seq<Participant>)
    requires SortedByName(s) && UniqueUuids(s) && !HasUuid(s, p.uuid)
    ensures UniqueUuids(InsertByName(p, s))
  {
    if s == [] || StrLe(NameKey(p), NameKey(s[0])) {
      ConsUnique(p, s);
    } else {
      var tail := s[1..];
      var rest := InsertByName(p, tail);
      HasUuidTail(s, p.uuid);
      InsertKeepsUnique(p, tail);
      assert multiset(rest) == multiset(tail + [p]);
      SameUuids(rest, tail + [p]);
      HasUuidSnoc(tail, p, s[0].uuid);
      ConsUnique(s[0], rest);
    }
  }

  lemma {:induction false} SortKeepsUnique(s: seq<Participant>)
    requires UniqueUuids(s)
    ensures UniqueUuids(SortByName(s))
  {
    if s != [] {
      var rest := SortByName(s[1..]);
      SortKeepsUnique(s[1..]);
      SameUuids(rest, s[1..]);
      HasUuidTail(s, s[0].uuid);
      InsertKeepsUnique(s[0], rest);
    }
  }

  /** The dashboard's add: `prev.some(p => p.uuid === x.uuid) ? prev : [...prev, x].sort(...)`. */
  function AddIfAbsent(prev: seq<Participant>, p: Participant): (r: seq<Participant>)
    ensures HasUuid(prev, p.uuid) ==> r == prev
    ensures !HasUuid(prev, p.uuid) ==>
      SortedByName(r) && multiset(r) == multiset(prev) + multiset{p}
  {
    if HasUuid(prev, p.uuid) then prev else SortByName(prev + [p])
  }

  /** The hooks' add: `(prev.some(...) ? prev : [...prev, p]).sort(...)`, which
      sorts in both cases. */
  function AddThenSort(prev: seq<Participant>, p: Participant): (r: seq<Participant>)
    ensures SortedByName(r)
    ensures HasUuid(prev, p.uuid) ==> multiset(r) == multiset(prev)
    ensures !HasUuid(prev, p.uuid) ==> multiset(r) == multiset(prev) + multiset{p}
  {
    SortByName(if HasUuid(prev, p.uuid) then prev else prev + [p])
  }

  /** After either add the uuid is present, and a list without repeated uuids stays so. */
  lemma {:induction false} AddIfAbsentContract(prev: seq<Participant>, p: Participant)
    ensures HasUuid(AddIfAbsent(prev, p), p.uuid)
    ensures UniqueUuids(prev) ==> UniqueUuids(AddIfAbsent(prev, p))
    ensures forall u :: HasUuid(AddIfAbsent(prev, p), u) <==> HasUuid(prev, u) || u == p.uuid
  {
    if !HasUuid(prev, p.uuid) {
      var r := AddIfAbsent(prev, p);
      var s := prev + [p];
      SameUuids(r, s);
      forall u ensures HasUuid(s, u) <==> HasUuid(prev, u) || u == p.uuid {
        HasUuidSnoc(prev, p, u);
      }
      if UniqueUuids(prev) {
        SortKeepsUnique(s);
      }
    }
  }

  /** A duplicate create event is a no-op. */
  lemma AddIfAbsentIdempotent(prev: seq<Participant>, p: Participant)
    ensures AddIfAbsent(AddIfAbsent(prev, p), p) == AddIfAbsent(prev, p)
  {
    AddIfAbsentContract(prev, p);
  }

  lemma {:induction false} AddThenSortContract(prev: seq<Participant>, p: Participant)
    ensures HasUuid(AddThenSort(prev, p), p.uuid)
    ensures UniqueUuids(prev) ==> UniqueUuids(AddThenSort(prev, p))
    ensures AddThenSort(AddThenSort(prev, p), p) == AddThenSort(prev, p)
  {
    var s := if HasUuid(prev, p.uuid) then prev else prev + [p];
    var r := AddThenSort(prev, p);
    assert HasUuid(s, p.uuid) by {
      if !HasUuid(prev, p.uuid) { assert s[|prev|] == p; }
    }
    SameUuids(r, s);
    if UniqueUuids(prev) {
      assert UniqueUuids(s) by {
        if !HasUuid(prev, p.uuid) {
          forall i, j | 0 <= i < j < |s| ensures s[i].uuid != s[j].uuid {
            if j == |prev| {
              assert s[i] == prev[i];
            }
          }
        }
      }
      SortKeepsUnique(s);
    }
    SortSortedIsIdentity(r);
  }

  /** `prev.map(x => x.uuid === p.uuid ? p : x)` */
  function ReplaceByUuid(s: seq<Participant>, p: Participant): (r: seq<Participant>)
    ensures |r| == |s|
    ensures forall i :: 0 <= i < |s| ==> r[i].uuid == s[i].uuid
    ensures forall i :: 0 <= i < |s| && s[i].uuid != p.uuid ==> r[i] == s[i]
    ensures forall i :: 0 <= i < |s| && s[i].uuid == p.uuid ==> r[i] == p
  {
    if s == [] then []
    else [if s[0].uuid == p.uuid then p else s[0]] + ReplaceByUuid(s[1..], p)
  }

  /** Replacing never inserts: an unknown uuid leaves the list as it was, and the
      uuids (hence their uniqueness) are kept position by position. */
  lemma ReplaceByUuidNeverInserts(s: seq<Participant>, p: Participant)
    ensures !HasUuid(s, p.uuid) ==> ReplaceByUuid(s, p) == s
    ensures forall u :: HasUuid(ReplaceByUuid(s, p), u) <==> HasUuid(s, u)
    ensures UniqueUuids(s) ==> UniqueUuids(ReplaceByUuid(s, p))
    ensures ReplaceByUuid(ReplaceByUuid(s, p), p) == ReplaceByUuid(s, p)
  {
    var r := ReplaceByUuid(s, p);
    forall u ensures HasUuid(r, u) <==> HasUuid(s, u) {
      if HasUuid(r, u) { var i :| 0 <= i < |r| && r[i].uuid == u; assert s[i].uuid == u; }
      if HasUuid(s, u) { var i :| 0 <= i < |s| && s[i].uuid == u; assert r[i].uuid == u; }
    }
    if !HasUuid(s, p.uuid) {
      assert forall i :: 0 <= i < |s| ==> r[i] == s[i];
    }
    ReplaceByUuidKeeps(s, p);
  }

  /** A repeated replacement changes nothing, and distinct uuids stay
      distinct. */
  lemma ReplaceByUuidKeeps(s: seq<Participant>, p: Participant)
    ensures ReplaceByUuid(ReplaceByUuid(s, p), p) == ReplaceByUuid(s, p)
    ensures UniqueUuids(s) ==> UniqueUuids(ReplaceByUuid(s, p))
  {
    var r := ReplaceByUuid(s, p);
    assert ReplaceByUuid(r, p) == r by {
      forall i | 0 <= i < |r| ensures ReplaceByUuid(r, p)[i] == r[i] {
        if r[i].uuid == p.uuid { assert r[i] == p; }
      }
    }
    if UniqueUuids(s) {
      forall i, j | 0 <= i < j < |r| ensures r[i].uuid != r[j].uuid {
        assert r[i].uuid == s[i].uuid && r[j].uuid == s[j].uuid;
      }
    }
  }

  /** `prev.filter(x => x.uuid !== u)` */
  function RemoveByUuid(s: seq<Participant>, u: JsStr): (r: seq<Participant>)
    ensures !HasUuid(r, u)
    ensures forall x :: x in r <==> x in s && x.uuid != u
    ensures |r| <= |s|
  {
    if s == [] then []
    else if s[0].uuid == u then RemoveByUuid(s[1..], u)
    else
      var rest := RemoveByUuid(s[1..], u);
      assert forall x :: x in s <==> x == s[0] || x in s[1..] by { assert s == [s[0]] + s[1..]; }
      assert !HasUuid([s[0]] + rest, u) by {
        forall i | 0 <= i < |[s[0]] + rest| ensures ([s[0]] + rest)[i].uuid != u {
          if i > 0 { assert ([s[0]] + rest)[i] in rest; }
        }
      }
      [s[0]] + rest
  }

  /** Removing an absent uuid changes nothing. */
  lemma {:induction false} RemoveAbsentIsIdentity(s: seq<Participant>, u: JsStr)
    requires !HasUuid(s, u)
    ensures RemoveByUuid(s, u) == s
  {
    if s != [] {
      HasUuidTail(s, u);
      RemoveAbsentIsIdentity(s[1..], u);
      assert s == [s[0]] + s[1..];
    }
  }

  /** A duplicate delete event is a no-op. */
  lemma RemoveByUuidIdempotent(s: seq<Participant>, u: JsStr)
    ensures RemoveByUuid(RemoveByUuid(s, u), u) == RemoveByUuid(s, u)
  {
    RemoveAbsentIsIdentity(RemoveByUuid(s, u), u);
  }

  /** The removal is a filter: it acts on each entry alone, so it distributes
      over concatenation and the entries it keeps stay in their order. */
  lemma {:induction false} RemoveByUuidIsFilter(a: seq<Participant>, b: seq<Participant>, x: Participant, u: JsStr)
    ensures RemoveByUuid(a + b, u) == RemoveByUuid(a, u) + RemoveByUuid(b, u)
    ensures RemoveByUuid([x], u) == if x.uuid == u then [] else [x]
  {
    assert [x][1..] == [];
    if a == [] {
      assert a + b == b;
    } else {
      assert (a + b)[0] == a[0] && (a + b)[1..] == a[1..] + b;
      RemoveByUuidIsFilter(a[1..], b, x, u);
    }
  }

  /** Removing an entry from a list sorted by name leaves it sorted. */
  lemma {:induction false} RemoveByUuidKeepsSorted(s: seq<Participant>, u: JsStr)
    requires SortedByName(s)
    ensures SortedByName(RemoveByUuid(s, u))
  {
    if s != [] {
      assert SortedByName(s[1..]);
      RemoveByUuidKeepsSorted(s[1..], u);
      var rest := RemoveByUuid(s[1..], u);
      if s[0].uuid != u {
        forall j | 0 <= j < |rest| ensures StrLe(NameKey(s[0]), NameKey(rest[j])) {
          assert rest[j] in s[1..];
          var k :| 0 <= k < |s[1..]| && s[1..][k] == rest[j];
          assert s[k + 1] == rest[j];
        }
        ConsSorted(s[0], rest);
      }
    }
  }

  /** Removing a uuid that occurs once shortens the list by exactly one and keeps
      the remaining uuids distinct. */
  lemma {:induction false} RemoveByUuidContract(s: seq<Participant>, u: JsStr)
    requires UniqueUuids(s)
    ensures UniqueUuids(RemoveByUuid(s, u))
    ensures HasUuid(s, u) ==> |RemoveByUuid(s, u)| == |s| - 1
  {
    if s != [] {
      var tail := s[1..];
      HasUuidTail(s, u);
      RemoveByUuidContract(tail, u);
      if s[0].uuid == u {
        RemoveAbsentIsIdentity(tail, u);
      } else {
        var rest := RemoveByUuid(tail, u);
        forall j | 0 <= j < |rest| ensures rest[j].uuid != s[0].uuid {
          assert rest[j] in tail;
          HasUuidByMember(tail, rest[j]);
        }
      }
    }
  }

  /** `all.filter(p => p.role !== 'guest')` */
  function NonGuests(all: seq<Participant>): (r: seq<Participant>)
    ensures forall x :: x in r <==> x in all && x.role != Str("guest")
  {
    if all == [] then []
    else
      assert all == [all[0]] + all[1..];
      (if all[0].role != Str("guest") then [all[0]] else []) + NonGuests(all[1..])
  }

  /** `all.filter(p => p.role === 'guest')` */
  function Guests(all: seq<Participant>): (r: seq<Participant>)
    ensures forall x :: x in r <==> x in all && x.role == Str("guest")
  {
    if all == [] then []
    else
      assert all == [all[0]] + all[1..];
      (if all[0].role == Str("guest") then [all[0]] else []) + Guests(all[1..])
  }

  /** Splitting by role loses and duplicates nobody: the two lists together hold
      exactly the input participants. */
  lemma {:induction false} SplitByRoleIsPartition(all: seq<Participant>)
    ensures multiset(NonGuests(all)) + multiset(Guests(all)) == multiset(all)
  {
    if all != [] {
      SplitByRoleIsPartition(all[1..]);
      assert all == [all[0]] + all[1..];
    }
  }
}
