/** The sequence the application runs whenever a mode is chosen (and once
    at start-up, for "5v5"): the mode fixes the number of slots, roles are
    generated for them, then characters for those roles. */
module Randomizer {
  import opened Tables
  import opened RoleAssignment
  import opened CharacterAssignment

  /** No shipped mode asks for more slots of a role than its pool holds. */
  lemma QuotasWithinPools(mode: Mode, role: Role)
    ensures Quota(RoleConstraints(mode), role) <= |CandidatePool(mode, role)|
  {
    QuotaValues(mode, role);
    PoolSizes(mode, role);
  }

  /** Choosing `mode`: one role per slot, exactly the mode's quotas in some
      order, and one distinct character per slot from that slot's pool;
      no slot is left showing the sentinel. */
  method Regenerate(mode: Mode, draws: seq<nat>) returns (roles: seq<Role>, chars: seq<Character>)
    requires ValidDraws(SlotCount(mode), draws)
    ensures |roles| == SlotCount(mode) && |chars| == SlotCount(mode)
    ensures forall role: Role :: multiset(roles)[role] == Quota(RoleConstraints(mode), role)
    ensures Follows(mode, roles, chars)
    ensures Sentinel !in chars
    ensures forall i, j | 0 <= i < j < |chars| :: chars[i] != chars[j]
  {
    var count := SlotCount(mode);
    QuotasFillSlots(mode);
    roles := GenerateRoles(mode, count, [], draws);
    chars := GenerateCharacters(mode, roles);
    forall role: Role
      ensures multiset(roles)[role] <= |CandidatePool(mode, role)|
    {
      QuotasWithinPools(mode, role);
    }
    NoExhaustion(mode, roles, chars);
    FollowsUnique(mode, roles, chars);
  }
}
