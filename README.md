# Overwatch Randomizer — a Dafny model of its selection core

The program is a small desktop tool. It gives each slot of a team a role
(Tank, Damage or Support) and then a character of that role, for one of three
game modes: `5v5`, `Open` and `Stadium`. This project models the two selection
routines, the static tables they read and the portrait file-name rewrite. All
of them live in `main.py`. The model proves what the routines promise:

- Role assignment yields one role per slot. When there are at least as many
  slots as the quota table asks for, every quota is met and the result is a
  permutation of the quota roles plus the backfill picks.
- Every shipped mode's quota total equals its slot count. So a mode switch
  yields exactly a permutation of that mode's quotas.
- Character assignment yields one entry per slot, in slot order. Each
  non-sentinel entry is in its role's roster, and in Stadium mode also in the
  Stadium list. No character appears twice, even across roles.
- A slot shows `"???"` exactly when its de-duplicated pool is empty. The
  sentinel is never recorded as picked. That happens exactly when the
  earlier slots of the same role are at least as many as the role's pool
  holds. With the shipped tables, no mode can exhaust a pool, so `"???"`
  never appears after a mode switch.
- The icon file name is `Icon-<name>.webp`, where `<name>` contains no colon
  and no space. The rewrite is idempotent.

Files and modules:

- `tables.dfy` (`Tables`): roles, modes, rosters, the Stadium list, slot counts and quota tables (main.py:8-42).
- `roles.dfy` (`RoleAssignment`): `generate_roles` (main.py:103-113), with an in-place shuffle on an array.
- `characters.dfy` (`CharacterAssignment`): the loop of `generate_characters` (main.py:118-135).
- `icons.dfy` (`IconKey`): the file-name expression at main.py:139.
- `randomizer.dfy` (`Randomizer`): the mode-change sequence (main.py:56-58, 73-79).

How randomness is modelled. The model takes what the random source returns as an input:

- `random.choices(roles, k=…)` becomes `picks`: the roles drawn for the backfill.
  The Role type has exactly the three values of the `roles` list, so every
  pick is one of them.
- `random.shuffle` becomes the method `Shuffle`. It runs on an array and swaps
  each position, from the last down to 1, with a position at or before it.
  `draws` gives the answer of `randbelow(i + 1)` for each step.
  `ValidDraws` states the range each answer must lie in.
- `random.choice(pool)` becomes a nondeterministic choice (`:|`) of some
  element of the pool. Set iteration order plays no part.
  The method is specified by the relation `Follows`. It says that every slot's
  entry is a possible outcome of its turn of the loop.

Roles are read back from label text in the source (main.py:123). Here they
are passed from role assignment straight into character assignment.
`ParseRoleName` shows that reading back the text written at main.py:116 yields
the same role.

An unknown mode name raises a `KeyError` in the code (main.py:79, main.py:106).
It is not treated as an empty quota table. The model follows the code: `Mode`
has three values, and `LookupMode` returns `None` for any other name.

## Model

| member | source | states |
|---|---|---|
| `Tables.RolesComplete` | main.py:8 | every role is in the role list, and the list has no repeats |
| `Tables.Roles` | main.py:8 | the `roles` list that backfill picks are drawn from: Tank, Damage, Support in that order |
| `Tables.RoleName` | main.py:116 | the label text and dictionary key of each role |
| `Tables.ParseRole` | main.py:123-127 | indexing the roster dictionary by label text succeeds only for the three role names, and returns the role with that name |
| `Tables.ParseRoleName` | main.py:116-123 | reading back a role's label text yields that role |
| `Tables.ModeName` | main.py:62 | the option-menu text and dictionary key of each mode |
| `Tables.LookupMode` | main.py:79 | indexing `mode_to_count` succeeds exactly for "5v5", "Open" and "Stadium" and returns the mode with that name; any other name is the KeyError case |
| `Tables.LookupModeName` | main.py:62 | every mode offered by the menu maps back to itself |
| `Tables.Roster` | main.py:11-21 | `characters_by_role_full`: the full roster of each role, literal for literal and in order |
| `Tables.StadiumCharacters` | main.py:24-28 | `stadium_characters`: the Stadium list, literal for literal and in order |
| `Tables.SlotCount` | main.py:31-35 | `mode_to_count`: 5 slots for 5v5, 6 for Open, 5 for Stadium |
| `Tables.RoleConstraints` | main.py:38-42 | `role_constraints[mode].items()`: the quota table of each mode, in dictionary order |
| `Tables.Quota` | main.py:108 | the number of slots a quota table grants a role: the sum of its entries for that role |
| `Tables.QuotaValues` | main.py:38-42 | each shipped mode grants one tank (two in Open) and two damage and two support slots |
| `Tables.RostersDistinct` | main.py:11-21 | each roster lists every character once |
| `Tables.SentinelNotListed` | main.py:11-21 | "???" is not the name of any character |
| `Tables.RosterRole` | main.py:11-21 | a listed character is in the roster of exactly one role |
| `Tables.RostersDisjoint` | main.py:11-21 | no character is listed under two roles |
| `Tables.StadiumBlocks` | main.py:24-28 | the Stadium list is the first 5 tanks, first 7 damage and first 6 supports of the full rosters |
| `RoleAssignment.Repeat` | main.py:108 | `[role] * n` has length n and holds n copies of role and nothing else |
| `RoleAssignment.Expand` | main.py:108 | the expanded quota list holds each role exactly as often as the table grants it |
| `RoleAssignment.QuotaRoles` | main.py:106-108 | `available_roles` before backfill: the mode's quota table expanded in dictionary order |
| `RoleAssignment.Shortfall` | main.py:109-110 | `k` of the `random.choices` call: how many roles are missing below the slot count, 0 when none are |
| `RoleAssignment.QuotasFillSlots` | main.py:31-42 | the quota total of every shipped mode equals its slot count, so no backfill is drawn |
| `RoleAssignment.ValidDraws` | main.py:111 | the answers `random.shuffle` may get from `randbelow(i + 1)`, one per position from the last down to 1 |
| `RoleAssignment.ShuffleFrom` | main.py:111 | the list `random.shuffle` holds with positions i down to 1 still to handle; same length as its input |
| `RoleAssignment.Shuffled` | main.py:111 | the list `random.shuffle` leaves for the given answers |
| `RoleAssignment.Swap` | main.py:111 | a swap exchanges the two positions and leaves every other position alone |
| `RoleAssignment.SwapPermutes` | main.py:111 | a swap keeps the multiset of elements |
| `RoleAssignment.ShuffleFromPermutes` | main.py:111 | every run of shuffle steps keeps the multiset of elements |
| `RoleAssignment.ShuffledPermutes` | main.py:111 | the shuffled list is a permutation of the input |
| `RoleAssignment.Shuffle` | main.py:111 | the in-place shuffle leaves in the array the list the shuffle steps define for the given draws |
| `RoleAssignment.PrefixMultiset` | main.py:113 | a truncated list holds part of the elements, and all of them when nothing is cut |
| `RoleAssignment.GeneratedCounts` | main.py:108-113 | the cut shuffled list is a sub-multiset of quota roles plus picks, all of it when nothing is cut, and then meets every quota |
| `RoleAssignment.GenerateRoles` | main.py:103-113 | exactly `count` roles; always a sub-multiset of quota roles plus picks; when count reaches the quota total, exactly that multiset and every quota met; determined by the draws |
| `CharacterAssignment.Filter` | main.py:125 | the comprehension keeps exactly the elements that are in the allowed list, and keeps distinctness |
| `CharacterAssignment.CandidatePool` | main.py:124-127 | a slot's starting pool is the role's roster, intersected in Stadium mode with the Stadium list |
| `CharacterAssignment.StadiumPools` | main.py:124-125 | the Stadium pools are the Stadium list's tank, damage and support blocks, in list order |
| `CharacterAssignment.PoolDistinct` | main.py:11-28 | every pool lists each character once |
| `CharacterAssignment.PoolSizes` | main.py:11-28 | every pool holds 11/17/11 characters, or 5/7/6 in Stadium mode |
| `CharacterAssignment.PoolSet` | main.py:124-129 | `set(pool)`: the characters of a slot's starting pool |
| `CharacterAssignment.SentinelNotInPool` | main.py:131-132 | "???" is not the name of any character in any pool |
| `CharacterAssignment.Picked` | main.py:119-135 | `selected_characters` after the given slots: every character they show, "???" excluded |
| `CharacterAssignment.StepChoice` | main.py:129-135 | one turn of the loop: the pool less the picked set, then a character of it, or "???" exactly when it is empty |
| `CharacterAssignment.Follows` | main.py:118-135 | a whole pass: one entry per slot, each a possible outcome of its turn given the slots before it |
| `CharacterAssignment.GenerateCharacters` | main.py:118-135 | one entry per slot, in slot order; each entry is a possible outcome of its turn: some character of the pool less the characters already picked, or "???" exactly when that is empty |
| `CharacterAssignment.FollowsInRoster` | main.py:124-134 | every non-sentinel entry is in its slot role's roster, and in Stadium mode also in the Stadium list |
| `CharacterAssignment.FollowsUnique` | main.py:129-135 | no non-sentinel character is given to two slots, whatever their roles |
| `CharacterAssignment.FollowsSentinelExactly` | main.py:129-135 | a slot shows "???" exactly when its pool, less the characters already picked, is empty |
| `CharacterAssignment.RolePicks` | main.py:122-135 | the characters shown by the slots of one role, "???" excluded |
| `CharacterAssignment.UsedBySameRole` | main.py:124-135 | a character of a slot's pool that an earlier slot took was taken by a slot of the same role |
| `CharacterAssignment.FewerEarlier` | main.py:118-135 | the earlier slots of a role took fewer characters than the role occurs in all |
| `CharacterAssignment.NoExhaustionAt` | main.py:129-135 | a slot whose role occurs no more often than its pool is long does not show "???" |
| `CharacterAssignment.TakenStep` | main.py:129-135 | in one turn, a character is added to the taken part of a role's pool exactly when a slot of that role takes it |
| `CharacterAssignment.CountStep` | main.py:129-135 | in one turn of a role's slot, the taken part of its pool grows by one until the pool is used up |
| `CharacterAssignment.StepRolePicks` | main.py:122-135 | one more slot keeps: the taken part of a role's pool is what that role's slots took, and its size is the role's slot count capped at the pool size |
| `CharacterAssignment.RolePicksCount` | main.py:118-135 | after any number of slots, the taken part of a role's pool is exactly what its own slots took, as many as those slots up to the pool size |
| `CharacterAssignment.SentinelIffSurplus` | main.py:129-135 | a slot shows "???" if and only if the earlier slots of its role are at least as many as its pool holds |
| `CharacterAssignment.NoExhaustion` | main.py:129-135 | when no role occurs more often than its pool is long, no slot shows "???" |
| `IconKey.Replace` | main.py:139 | Python's `str.replace`: occurrences found left to right, without overlap, each replaced |
| `IconKey.ReplaceRemoves` | main.py:139 | replacing a one-character pattern by text without it leaves no occurrence of it |
| `IconKey.ReplaceKeepsOut` | main.py:139 | replacing never adds a character that is neither in the text nor in the replacement |
| `IconKey.ReplaceNothing` | main.py:139 | text without the pattern's first character is left unchanged |
| `IconKey.ReplaceSkips` | main.py:139 | a prefix without the pattern's first character passes through replacing unchanged |
| `IconKey.ReplaceFront` | main.py:139 | an occurrence at the front is replaced and scanning resumes after it |
| `IconKey.Normalise` | main.py:139 | the three chained replaces: ": " removed, then ":" removed, then " " made "_" |
| `IconKey.NormaliseClean` | main.py:139 | the normalised name holds neither a colon nor a space |
| `IconKey.NormaliseFixes` | main.py:139 | a name without colon and space is left unchanged |
| `IconKey.NormaliseIdempotent` | main.py:139 | normalising twice equals normalising once |
| `IconKey.NormaliseColonSpace` | main.py:139 | a ": " between clean parts vanishes, so "Soldier: 76" gives "Soldier76" |
| `IconKey.NormaliseSpace` | main.py:139 | a lone space between clean parts becomes "_", so "Junker Queen" gives "Junker_Queen" |
| `IconKey.IconFile` | main.py:139 | the file name is "Icon-" + normalised name + ".webp" and holds no colon and no space |
| `IconKey.IconSoldier76` | main.py:139 | the portrait of "Soldier: 76" is "Icon-Soldier76.webp" |
| `IconKey.IconJunkerQueen` | main.py:139 | the portrait of "Junker Queen" is "Icon-Junker_Queen.webp" |
| `Randomizer.QuotasWithinPools` | main.py:24-42 | no shipped mode grants a role more slots than that role's pool holds |
| `Randomizer.Regenerate` | main.py:73-79 | after a mode change: one role and one character per slot; the roles are exactly the quota multiset; characters are pairwise distinct, follow the loop, and none is "???" |

## Left out

- Widget creation, layout, label updates and the main loop (main.py:44-101, 115-116, 137, 159-162): GUI plumbing.
- Portrait loading (main.py:140-157): path lookup, image decode and resize, and the exception fallback are file I/O through a foreign library. Only the file name (main.py:139) is modelled.
- The random generator itself: seeds, distributions and uniformity are not modelled. Its answers are inputs (`picks`, `draws`) or a nondeterministic choice.
- `RoleAssignment.Shuffle` follows the standard library's swap loop. The model does not prove that every permutation can be reached for some draws.
- `CharacterAssignment.GenerateCharacters`: the pick is "some element of the pool", not an index into `list(set(...))`. The hash order of that list is not modelled.
- The custom slot count with clamping, and a 2/6/6 quota for Open, are not in `main.py`. They are not modelled.
