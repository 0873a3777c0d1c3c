/**
 The lifecycle of an unverified member's record, as pure functions over the
 timestamp store (member id to the millisecond instant the member became
 unverified), and the properties the bot's handlers and its periodic sweep
 promise about that store.
 */
module Lifecycle {

  /** The grace period: 72 hours in milliseconds. */
  const MaxTime: int := 72 * 60 * 60 * 1000

  type Store = map<string, int>

  /** A member of a guild as the sweep sees it. */
  datatype Member = Member(id: string, hasRole: bool, isAdmin: bool)

  /** A guild: whether it defines the "UNVERIFIED" role, and its members. */
  datatype Guild = Guild(roleExists: bool, members: seq<Member>)

  /** The state a sweep carries along: the store and the ids kicked so far, in order. */
  datatype Outcome = Outcome(store: Store, kicked: seq<string>)

  datatype Option<T> = None | Some(value: T)

  // ---------------------------------------------------------------------------
  // The two event handlers
  // ---------------------------------------------------------------------------

  /** A member joins: the record is set to `now` when the guild has the role,
      whether or not adding the role to the member succeeded. */
  function Join(store: Store, id: string, roleExists: bool, now: int): (r: Store)
    ensures roleExists ==> id in r && r[id] == now
    ensures !roleExists ==> r == store
    ensures forall k :: k != id ==> (k in r <==> k in store)
    ensures forall k :: k != id && k in r ==> r[k] == store[k]
  {
    if roleExists then store[id := now] else store
  }

  /** A member's roles change from `hadRole` to `hasRole`: a newly added role
      sets the record to `now`, a newly removed one deletes it, anything else
      (or a guild without the role) leaves the store alone. */
  function Update(store: Store, id: string, roleExists: bool, hadRole: bool, hasRole: bool, now: int): (r: Store)
    ensures roleExists && !hadRole && hasRole ==> id in r && r[id] == now
    ensures roleExists && hadRole && !hasRole ==> id !in r
    ensures !roleExists || hadRole == hasRole ==> r == store
    ensures forall k :: k != id ==> (k in r <==> k in store)
    ensures forall k :: k != id && k in r ==> r[k] == store[k]
  {
    if !roleExists then store
    else if !hadRole && hasRole then store[id := now]
    else if hadRole && !hasRole then store - {id}
    else store
  }

  /** Removing the role twice is the same as removing it once: deleting an
      absent record is a no-op. */
  lemma RemoveAbsentIsNoOp(store: Store, id: string, now: int)
    requires id !in store
    ensures Update(store, id, true, true, false, now) == store
  {
  }

  /** Recording the same instant twice leaves that instant recorded. */
  lemma JoinTwice(store: Store, id: string, now: int)
    ensures Join(Join(store, id, true, now), id, true, now) == Join(store, id, true, now)
  {
  }

  /** Adding and then removing the role leaves exactly the other members' records. */
  lemma AddThenRemove(store: Store, id: string, t1: int, t2: int)
    ensures Update(Update(store, id, true, false, true, t1), id, true, true, false, t2) == store - {id}
  {
  }

  /** The store tracks exactly the members the bot believes to hold the role:
      a role change that the handler sees keeps that agreement. */
  lemma UpdateKeepsTracking(store: Store, holders: set<string>, id: string, hadRole: bool, hasRole: bool, now: int)
    requires store.Keys == holders
    requires hadRole == (id in holders)
    ensures Update(store, id, true, hadRole, hasRole, now).Keys
         == if hasRole then holders + {id} else holders - {id}
  {
  }

  /** A join in a guild with the role starts tracking the new member, when the
      role add succeeded as well as when it failed. */
  lemma JoinTracksNewMember(store: Store, holders: set<string>, id: string, now: int)
    requires store.Keys == holders
    ensures Join(store, id, true, now).Keys == holders + {id}
  {
  }

  // ---------------------------------------------------------------------------
  // The sweep
  // ---------------------------------------------------------------------------

  /** A member the sweep may act on: a holder of the role without administrator rights. */
  predicate IsCandidate(m: Member)
  {
    m.hasRole && !m.isAdmin
  }

  /** A record that is present, truthy (not 0) and at least `MaxTime` old at `now`. */
  predicate Expired(store: Store, id: string, now: int)
  {
    id in store && store[id] != 0 && now - store[id] >= MaxTime
  }

  /** Some candidate entry in `ms` carries `id`. */
  predicate Listed(ms: seq<Member>, id: string)
  {
    exists j :: 0 <= j < |ms| && IsCandidate(ms[j]) && ms[j].id == id
  }

  /** Some guild of `gs` that has the role holds a candidate carrying `id`. */
  predicate HeldIn(gs: seq<Guild>, id: string)
  {
    exists i, j :: 0 <= i < |gs| && gs[i].roleExists && 0 <= j < |gs[i].members|
                   && IsCandidate(gs[i].members[j]) && gs[i].members[j].id == id
  }

  /** One step of the inner loop: a candidate with an expired record is
      kicked and its record deleted; any other member is skipped. */
  function Visit(o: Outcome, m: Member, now: int): Outcome
  {
    if IsCandidate(m) && Expired(o.store, m.id, now)
    then Outcome(o.store - {m.id}, o.kicked + [m.id])
    else o
  }

  /** The inner loop over a sequence of members, in order. */
  function SweepMembers(o: Outcome, ms: seq<Member>, now: int): Outcome
    decreases |ms|
  {
    if ms == [] then o
    else Visit(SweepMembers(o, ms[..|ms| - 1], now), ms[|ms| - 1], now)
  }

  /** The members the sweep looks at, in order: those of every guild that has
      the role; guilds without it are skipped entirely. */
  function Scanned(gs: seq<Guild>): seq<Member>
    decreases |gs|
  {
    if gs == [] then []
    else Scanned(gs[..|gs| - 1]) + (if gs[|gs| - 1].roleExists then gs[|gs| - 1].members else [])
  }

  /** A whole sweep at one instant `now`, from an empty kick list. */
  function Sweep(store: Store, gs: seq<Guild>, now: int): Outcome
  {
    SweepMembers(Outcome(store, []), Scanned(gs), now)
  }

  predicate Distinct(s: seq<string>)
  {
    forall i, j :: 0 <= i < j < |s| ==> s[i] != s[j]
  }

  /** What the inner loop does to any starting outcome: it only deletes; it
      deletes exactly the expired records of listed candidates; and the ids
      it appends to the kick list are distinct and exactly the deleted ones. */
  lemma {:induction false} SweepMembersEffect(o: Outcome, ms: seq<Member>, now: int)
    ensures SweepMembers(o, ms, now).store.Keys <= o.store.Keys
    ensures forall k :: k in SweepMembers(o, ms, now).store ==> SweepMembers(o, ms, now).store[k] == o.store[k]
    ensures forall k :: k in o.store ==>
              (k !in SweepMembers(o, ms, now).store <==> Expired(o.store, k, now) && Listed(ms, k))
    ensures |o.kicked| <= |SweepMembers(o, ms, now).kicked|
    ensures SweepMembers(o, ms, now).kicked[..|o.kicked|] == o.kicked
    ensures forall k :: k in SweepMembers(o, ms, now).kicked[|o.kicked|..] <==>
              k in o.store && k !in SweepMembers(o, ms, now).store
    ensures Distinct(SweepMembers(o, ms, now).kicked[|o.kicked|..])
    ensures SweepMembers(o, ms, now).store == o.store ==> SweepMembers(o, ms, now).kicked == o.kicked
    decreases |ms|
  {
    if ms != [] {
      var init := ms[..|ms| - 1];
      var m := ms[|ms| - 1];
      SweepMembersEffect(o, init, now);
      var p := SweepMembers(o, init, now);
      var r := SweepMembers(o, ms, now);
      assert r == Visit(p, m, now);
      forall k | k in o.store
        ensures k !in r.store <==> Expired(o.store, k, now) && Listed(ms, k)
      {
        ListedLast(ms, k);
      }
      var newP := p.kicked[|o.kicked|..];
      if IsCandidate(m) && Expired(p.store, m.id, now) {
        assert r.kicked[|o.kicked|..] == newP + [m.id];
        assert m.id !in newP;
        assert m.id !in r.store && m.id in o.store;
      } else {
        assert r == p;
      }
    }
  }

  /** An id is listed in `ms` when it is listed in all but the last entry or
      the last entry is a candidate carrying it. */
  lemma ListedLast(ms: seq<Member>, k: string)
    requires ms != []
    ensures Listed(ms, k) <==> Listed(ms[..|ms| - 1], k) || (IsCandidate(ms[|ms| - 1]) && ms[|ms| - 1].id == k)
  {
  }

  /** A member of `Scanned(gs)` comes from a guild of `gs` that has the role. */
  lemma {:induction false} ScannedFrom(gs: seq<Guild>, j: int)
    requires 0 <= j < |Scanned(gs)|
    ensures exists i :: 0 <= i < |gs| && gs[i].roleExists && Scanned(gs)[j] in gs[i].members
    decreases |gs|
  {
    var init := gs[..|gs| - 1];
    var g := gs[|gs| - 1];
    if j < |Scanned(init)| {
      ScannedFrom(init, j);
      var i :| 0 <= i < |init| && init[i].roleExists && Scanned(init)[j] in init[i].members;
      assert gs[i] == init[i];
    } else {
      assert Scanned(gs)[j] == g.members[j - |Scanned(init)|];
    }
  }

  /** Every member of a guild of `gs` that has the role is visited by the sweep. */
  lemma {:induction false} ScannedCovers(gs: seq<Guild>, i: int, j: int)
    requires 0 <= i < |gs| && gs[i].roleExists && 0 <= j < |gs[i].members|
    ensures gs[i].members[j] in Scanned(gs)
    decreases |gs|
  {
    var init := gs[..|gs| - 1];
    if i < |gs| - 1 {
      assert init[i] == gs[i];
      ScannedCovers(init, i, j);
    } else {
      assert Scanned(gs) == Scanned(init) + gs[i].members;
    }
  }

  /** An id is listed among the visited members exactly when some guild with
      the role holds a candidate carrying it. */
  lemma ListedIffHeld(gs: seq<Guild>, id: string)
    ensures Listed(Scanned(gs), id) <==> HeldIn(gs, id)
  {
    if Listed(Scanned(gs), id) {
      var k :| 0 <= k < |Scanned(gs)| && IsCandidate(Scanned(gs)[k]) && Scanned(gs)[k].id == id;
      ScannedFrom(gs, k);
      var i :| 0 <= i < |gs| && gs[i].roleExists && Scanned(gs)[k] in gs[i].members;
      var j :| 0 <= j < |gs[i].members| && gs[i].members[j] == Scanned(gs)[k];
      assert IsCandidate(gs[i].members[j]) && gs[i].members[j].id == id;
    }
    if HeldIn(gs, id) {
      var i, j :| 0 <= i < |gs| && gs[i].roleExists && 0 <= j < |gs[i].members|
                  && IsCandidate(gs[i].members[j]) && gs[i].members[j].id == id;
      ScannedCovers(gs, i, j);
      var k :| 0 <= k < |Scanned(gs)| && Scanned(gs)[k] == gs[i].members[j];
    }
  }

  /** The sweep never adds a record nor changes one: the store after it is a
      submap of the store before it. */
  lemma SweepOnlyDeletes(store: Store, gs: seq<Guild>, now: int)
    ensures Sweep(store, gs, now).store.Keys <= store.Keys
    ensures forall k :: k in Sweep(store, gs, now).store ==> Sweep(store, gs, now).store[k] == store[k]
  {
    SweepMembersEffect(Outcome(store, []), Scanned(gs), now);
  }

  /** A record is deleted by the sweep exactly when it is expired and some
      non-administrator holder with that id sits in a guild with the role;
      the kick list is exactly the deleted ids, each once. */
  lemma SweepRemovesExactlyExpired(store: Store, gs: seq<Guild>, now: int)
    ensures forall k :: k in store ==>
              (k !in Sweep(store, gs, now).store <==> Expired(store, k, now) && HeldIn(gs, k))
    ensures forall k :: k in Sweep(store, gs, now).kicked <==> k in store && k !in Sweep(store, gs, now).store
    ensures Distinct(Sweep(store, gs, now).kicked)
  {
    var o := Outcome(store, []);
    SweepMembersEffect(o, Scanned(gs), now);
    forall k {
      ListedIffHeld(gs, k);
    }
    assert Sweep(store, gs, now).kicked[|o.kicked|..] == Sweep(store, gs, now).kicked;
  }

  /** A member id that is nowhere a non-administrator holder in a guild with
      the role (an administrator, a member without the role, or a member of
      guilds lacking the role) is never kicked and keeps its record, however
      old that record is. */
  lemma SweepSparesNonCandidates(store: Store, gs: seq<Guild>, now: int, id: string)
    requires forall i, m :: 0 <= i < |gs| && gs[i].roleExists && m in gs[i].members && m.id == id
               ==> m.isAdmin || !m.hasRole
    ensures id in Sweep(store, gs, now).store <==> id in store
    ensures id in store ==> Sweep(store, gs, now).store[id] == store[id]
    ensures id !in Sweep(store, gs, now).kicked
  {
    SweepOnlyDeletes(store, gs, now);
    SweepRemovesExactlyExpired(store, gs, now);
    if Listed(Scanned(gs), id) {
      var j :| 0 <= j < |Scanned(gs)| && IsCandidate(Scanned(gs)[j]) && Scanned(gs)[j].id == id;
      ScannedFrom(gs, j);
    }
  }

  /** A holder with no record, or with the falsy record 0, is skipped. */
  lemma SweepSkipsUnrecorded(store: Store, gs: seq<Guild>, now: int, id: string)
    requires id !in store || store[id] == 0
    ensures id in Sweep(store, gs, now).store <==> id in store
    ensures id in store ==> Sweep(store, gs, now).store[id] == store[id]
    ensures id !in Sweep(store, gs, now).kicked
  {
    SweepOnlyDeletes(store, gs, now);
    SweepRemovesExactlyExpired(store, gs, now);
  }

  /** The boundary of the grace period: one millisecond short of `MaxTime`
      the candidate is kept, at exactly `MaxTime` it is kicked and removed. */
  lemma SweepBoundary(store: Store, gs: seq<Guild>, now: int, id: string)
    requires id in store && store[id] != 0
    requires HeldIn(gs, id)
    ensures now - store[id] == MaxTime - 1 ==>
              id in Sweep(store, gs, now).store && id !in Sweep(store, gs, now).kicked
    ensures now - store[id] == MaxTime ==>
              id !in Sweep(store, gs, now).store && id in Sweep(store, gs, now).kicked
  {
    SweepRemovesExactlyExpired(store, gs, now);
  }

  /** After a sweep no candidate of a guild with the role keeps an expired record. */
  lemma SweepLeavesNoExpired(store: Store, gs: seq<Guild>, now: int, id: string)
    requires HeldIn(gs, id)
    ensures !Expired(Sweep(store, gs, now).store, id, now)
  {
    SweepOnlyDeletes(store, gs, now);
    SweepRemovesExactlyExpired(store, gs, now);
  }

  /** Sweeping twice at the same instant gives the same store as sweeping
      once, and the second sweep kicks nobody. */
  lemma SweepIdempotent(store: Store, gs: seq<Guild>, now: int)
    ensures Sweep(Sweep(store, gs, now).store, gs, now).store == Sweep(store, gs, now).store
    ensures Sweep(Sweep(store, gs, now).store, gs, now).kicked == []
  {
    var s1 := Sweep(store, gs, now).store;
    var r := Sweep(s1, gs, now);
    SweepOnlyDeletes(store, gs, now);
    SweepRemovesExactlyExpired(store, gs, now);
    SweepOnlyDeletes(s1, gs, now);
    SweepRemovesExactlyExpired(s1, gs, now);
    assert r.store.Keys == s1.Keys;
    assert r.store == s1;
    SweepMembersEffect(Outcome(s1, []), Scanned(gs), now);
  }

  /** A member who joins at `t0` and keeps the role is still tracked by a
      sweep 71 hours later and is kicked and forgotten by one 73 hours later. */
  lemma GracePeriodScenario(store: Store, id: string, t0: int)
    requires t0 > 0
    ensures var s1 := Join(store, id, true, t0);
            var g := [Guild(true, [Member(id, true, false)])];
            Sweep(s1, g, t0 + 71 * 60 * 60 * 1000) == Outcome(s1, [])
            && Sweep(s1, g, t0 + 73 * 60 * 60 * 1000) == Outcome(s1 - {id}, [id])
  {
    var s1 := Join(store, id, true, t0);
    var g := [Guild(true, [Member(id, true, false)])];
    assert Scanned(g) == [Member(id, true, false)] by {
      assert g[..0] == [];
    }
    var ms := Scanned(g);
    assert ms[..0] == [];
    var o := Outcome(s1, []);
    assert s1[id] == t0;
    assert SweepMembers(o, ms[..0], t0 + 71 * 60 * 60 * 1000) == o;
    assert SweepMembers(o, ms[..0], t0 + 73 * 60 * 60 * 1000) == o;
    assert Sweep(s1, g, t0 + 71 * 60 * 60 * 1000) == Visit(o, ms[0], t0 + 71 * 60 * 60 * 1000);
    assert Sweep(s1, g, t0 + 73 * 60 * 60 * 1000) == Visit(o, ms[0], t0 + 73 * 60 * 60 * 1000);
  }

  /** A user who holds the role in two guilds, with an expired record, is
      kicked once, from the first guild: the record is gone when the second
      guild is visited, so there the user stays a holder without a record. */
  lemma SharedIdKickedOnce(store: Store, id: string, now: int)
    requires Expired(store, id, now)
    ensures var m := Member(id, true, false);
            Sweep(store, [Guild(true, [m]), Guild(true, [m])], now) == Outcome(store - {id}, [id])
  {
    var m := Member(id, true, false);
    var gs := [Guild(true, [m]), Guild(true, [m])];
    assert gs[..1][..0] == [];
    assert Scanned(gs[..1]) == [m];
    assert gs[..|gs| - 1] == gs[..1];
    assert Scanned(gs) == [m, m];
    var ms := Scanned(gs);
    var o := Outcome(store, []);
    assert ms[..1][..0] == [];
    assert SweepMembers(o, ms[..1], now) == Visit(o, m, now);
    assert Sweep(store, gs, now) == Visit(Visit(o, m, now), m, now);
  }

  /** A member whose role is removed before the grace period ends loses the
      record at that moment, and no later sweep kicks them or records them
      again, whatever the guilds look like. */
  lemma RoleRemovedScenario(store: Store, id: string, t0: int, t1: int, gs: seq<Guild>, now: int)
    ensures var s2 := Update(Join(store, id, true, t0), id, true, true, false, t1);
            id !in s2
            && id !in Sweep(s2, gs, now).store
            && id !in Sweep(s2, gs, now).kicked
  {
    var s2 := Update(Join(store, id, true, t0), id, true, true, false, t1);
    SweepSkipsUnrecorded(s2, gs, now, id);
  }
}
