# Unverified-member lifecycle of the verification bot

When a member joins a guild that has a role named `"UNVERIFIED"`, the bot
gives the member that role. It keeps an in-memory map `unverifiedTimestamps` from member id to the
millisecond instant that member became unverified. Three operations change
that map: the join handler (`guildMemberAdd`), the role-change handler
(`guildMemberUpdate`) and the periodic sweep `checkUnverifiedMembers`, which
kicks every non-administrator holder of the role whose record is at least
72 hours (`MAX_TIME` = 259200000 ms) old and forgets that record.

The model has two modules:

- `Lifecycle` (lifecycle.dfy): the data model (`Member`, `Guild`, the store as
  `map<string, int>`, the sweep's `Outcome` of store plus kick list), the
  handlers as pure functions `Join` and `Update`, the sweep as a fold
  `Sweep` of one visiting step over the role holders of the guilds that have
  the role, and the lemmas about them.
- `Tracker` (tracker.dfy): the class `UnverifiedTracker` whose field
  `timestamps` the three methods update in place. The sweep is the source's
  nested loop over guilds and members, with invariants over the processed
  prefix; each method is proved to end in exactly the state the matching
  `Lifecycle` function gives, so the lemmas carry over to it.

Modelling choices:

- The discord.js calls become plain inputs: whether the guild has the role
  (`roleExists`), whether the old and the new role sets contain it
  (`hadRole`, `hasRole`), and per member whether it holds the role and has
  the Administrator permission. `role.members` is modelled as the members of
  the guild's list with `hasRole` set, in list order.
- `Date.now()` becomes a parameter `now`. The sweep uses one `now` for the
  whole pass.
- The kicks the sweep issues are its output sequence `kicked`, in issue order.
  Kick and role-add failures are swallowed by the source, so they cannot
  change the store, and the model writes the store as if every call succeeded.
- JavaScript's falsiness test `!assignedAt` is modelled as "no record, or a
  record equal to 0" (`Expired`). Timestamps are unbounded integers.
- Member ids are shared between guilds, like the source's map. A user who is
  an administrator in one guild but a plain holder in another can therefore
  be kicked from the other one. The administrator property is stated per id
  for that reason (`SweepSparesNonCandidates`).
- A user who holds the role in two guilds with an expired record is kicked
  only from the first guild the sweep visits. The record is deleted there, so
  in the second guild the user stays a role holder without a record, and
  every later sweep skips them (`SharedIdKickedOnce`). The kick list gives ids
  only, not the guild each kick targets.
- Start-up loading is the constructor `Load`, which takes the parsed snapshot
  as `Some(map)`, or `None` when the file is missing or does not parse (the
  empty map of line 22 is then kept).

## Model

| member | source | states |
|---|---|---|
| Lifecycle.Join | index.js:52-59 | with the role present the joining id maps to `now`; without it the store is unchanged; no other key is added, removed or changed |
| Lifecycle.Update | index.js:62-77 | role newly added: id maps to `now`; role newly removed: id is absent; no role in the guild or no change of the role: store unchanged; other keys untouched |
| Lifecycle.RemoveAbsentIsNoOp | index.js:73-76 | deleting the record of an id that has none leaves the store as it was |
| Lifecycle.AddThenRemove | index.js:67-76 | adding the role and then removing it leaves exactly the store without that id |
| Lifecycle.JoinTwice | index.js:56 | recording the same instant twice is the same as recording it once |
| Lifecycle.UpdateKeepsTracking | index.js:62-77 | if the store's keys are exactly the believed holders of the role, they still are after any role change the handler sees |
| Lifecycle.JoinTracksNewMember | index.js:52-59 | a corollary of `Join`: a join in a guild with the role adds the joining id to the tracked ids; the model has no role-add result, which matches the source ignoring it |
| Lifecycle.SweepMembersEffect | index.js:86-97 | the member loop only deletes; a record is deleted iff it is truthy, at least `MAX_TIME` old and some non-admin holder carries its id; new kicks are distinct and exactly the deleted ids; no deletion means no kick |
| Lifecycle.ScannedFrom | index.js:81-86 | every member the sweep visits is a member of one of the guilds that has the role |
| Lifecycle.ScannedCovers | index.js:81-86 | every member of a guild that has the role is visited by the sweep |
| Lifecycle.ListedIffHeld | index.js:81-87 | an id is among the visited non-admin holders exactly when some guild with the role has a non-admin holder with that id |
| Lifecycle.SweepOnlyDeletes | index.js:80-100 | the store after the sweep is a submap of the store before it |
| Lifecycle.SweepRemovesExactlyExpired | index.js:86-97 | a record is deleted iff it is expired and a non-admin holder with that id is in a guild with the role; the kick list is exactly the deleted ids, without repetition |
| Lifecycle.SweepSparesNonCandidates | index.js:83-87 | an id that is nowhere a non-administrator holder in a guild with the role keeps its record, however old, and is never kicked |
| Lifecycle.SweepSkipsUnrecorded | index.js:89-90 | a holder with no record or with the falsy record 0 keeps its (absent or zero) record and is not kicked |
| Lifecycle.SweepBoundary | index.js:92-96 | a non-admin holder of a guild with the role whose record is `MAX_TIME - 1` ms old is kept and not kicked; at exactly `MAX_TIME` it is kicked and removed |
| Lifecycle.SweepLeavesNoExpired | index.js:86-97 | after the sweep no non-admin holder in a guild with the role has an expired record |
| Lifecycle.SweepIdempotent | index.js:80-100 | sweeping again at the same instant leaves the store unchanged and kicks nobody |
| Lifecycle.SharedIdKickedOnce | index.js:86-96 | a user holding the role in two guilds with an expired record is kicked once and the record deleted once |
| Lifecycle.RoleRemovedScenario | index.js:73-76 | after a join and a removal of the role the record is gone, and a later sweep neither kicks the member nor records them |
| Lifecycle.GracePeriodScenario | index.js:52-97 | a member who joins at `t0 > 0` is kept by a sweep at `t0` + 71 h, and kicked and forgotten by one at `t0` + 73 h |
| Tracker.UnverifiedTracker.Load | index.js:22-31 | the store starts as the loaded snapshot, or empty when there is none or it does not parse |
| Tracker.UnverifiedTracker.OnMemberAdd | index.js:52-59 | the new store is `Join` of the old one |
| Tracker.UnverifiedTracker.OnMemberUpdate | index.js:62-77 | the new store is `Update` of the old one, through the source's two separate `if`s |
| Tracker.UnverifiedTracker.CheckUnverifiedMembers | index.js:80-100 | the new store and the kick list are exactly `Sweep` of the old store; the kept keys are a subset of the old ones and no id is kicked twice |

## Left out

- The discord.js client, intents, login, event wiring, `guild.members.fetch()`
  and the lookup of the role by name: these are calls into the platform
  library, replaced by the boolean inputs described above.
- `setInterval` scheduling every 10 minutes (`CHECK_INTERVAL`), `async`/`await`
  and the top-level catch of a failing sweep: each handler and each sweep is
  one atomic sequential step.
- Tracker.UnverifiedTracker.CheckUnverifiedMembers: uses one `now` for the
  whole sweep, while the source reads the clock again for every member; a
  clock that advances during a sweep could kick a member the model keeps.
- File persistence (`saveTimestamps`, `readFileSync`, `JSON.parse`,
  `JSON.stringify`): I/O and library serialisation. The constructor takes the
  parsed result as input; the save-then-load round trip is not modelled.
- Failures of `member.roles.add` and `member.kick`: swallowed by the source,
  so they have no effect on the store and are not represented.
- Timestamps are unbounded integers: JavaScript's double-precision numbers,
  `NaN` and non-numeric values in a hand-edited data file are not modelled.
- dotenv, the bot token and all console logging.
