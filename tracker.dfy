/**
 The bot's in-memory timestamp store and the three operations that change
 it in place: the join handler, the role-change handler and the periodic
 sweep. Each method is proved to move the store exactly as the matching
 function of `Lifecycle` does, so every property proved there holds of it.
 */
module Tracker {
  import opened Lifecycle

  class UnverifiedTracker {
    /** Member id to the instant the member became unverified. */
    var timestamps: Store

    /** Start-up: the snapshot read from the data file, or `None` when the
        file is absent or does not parse, in which case the store is empty. */
    constructor Load(snapshot: Option<Store>)
      ensures timestamps == if snapshot.Some? then snapshot.value else map[]
    {
      timestamps := map[];
      if snapshot.Some? {
        timestamps := snapshot.value;
      }
    }

    /** A member joins. The role add is best effort and cannot affect the
        store: the record is written whatever its result. */
    method OnMemberAdd(id: string, roleExists: bool, now: int)
      modifies this
      ensures timestamps == Join(old(timestamps), id, roleExists, now)
      ensures roleExists ==> id in timestamps && timestamps[id] == now
      ensures !roleExists ==> timestamps == old(timestamps)
    {
      if roleExists {
        timestamps := timestamps[id := now];
      }
    }

    /** A member's roles change; `hadRole` and `hasRole` say whether the old
        and the new role sets contain the "UNVERIFIED" role. */
    method OnMemberUpdate(id: string, roleExists: bool, hadRole: bool, hasRole: bool, now: int)
      modifies this
      ensures timestamps == Update(old(timestamps), id, roleExists, hadRole, hasRole, now)
      ensures roleExists && !hadRole && hasRole ==> id in timestamps && timestamps[id] == now
      ensures roleExists && hadRole && !hasRole ==> id !in timestamps
    {
      if !roleExists {
        return;
      }
      if !hadRole && hasRole {
        timestamps := timestamps[id := now];
      }
      if hadRole && !hasRole {
        timestamps := timestamps - {id};
      }
    }

    /** The periodic sweep at instant `now`: for each guild with the role and
        each holder of the role, skip administrators and holders without a
        truthy record, and kick and forget those whose record is at least
        `MaxTime` old. Kicks are best effort and cannot affect the store;
        `kicked` lists the kicked ids in the order the kicks were issued. */
    method CheckUnverifiedMembers(guilds: seq<Guild>, now: int) returns (kicked: seq<string>)
      modifies this
      ensures Outcome(timestamps, kicked) == Sweep(old(timestamps), guilds, now)
      ensures timestamps.Keys <= old(timestamps).Keys
      ensures Distinct(kicked)
    {
      ghost var start := Outcome(timestamps, []);
      kicked := [];
      var i := 0;
      while i < |guilds|
        invariant 0 <= i <= |guilds|
        invariant Outcome(timestamps, kicked) == SweepMembers(start, Scanned(guilds[..i]), now)
      {
        var g := guilds[i];
        assert guilds[..i + 1][..i] == guilds[..i];
        assert Scanned(guilds[..i + 1]) == Scanned(guilds[..i]) + (if g.roleExists then g.members else []);
        if g.roleExists {
          ghost var done := Scanned(guilds[..i]);
          var j := 0;
          assert done + g.members[..j] == done;
          while j < |g.members|
            invariant 0 <= j <= |g.members|
            invariant Outcome(timestamps, kicked) == SweepMembers(start, done + g.members[..j], now)
          {
            var m := g.members[j];
            assert (done + g.members[..j + 1])[..|done + g.members[..j]|] == done + g.members[..j];
            if m.hasRole && !m.isAdmin && m.id in timestamps {
              var assignedAt := timestamps[m.id];
              if assignedAt != 0 && now - assignedAt >= MaxTime {
                kicked := kicked + [m.id];
                timestamps := timestamps - {m.id};
              }
            }
            j := j + 1;
          }
          assert g.members[..j] == g.members;
        } else {
          assert Scanned(guilds[..i + 1]) == Scanned(guilds[..i]);
        }
        i := i + 1;
      }
      assert guilds[..i] == guilds;
      SweepOnlyDeletes(start.store, guilds, now);
      SweepRemovesExactlyExpired(start.store, guilds, now);
    }
  }
}
