/** Role assignment: the mode's quota table is expanded into a list of
    roles, any shortfall below the slot count is backfilled with random
    picks, the list is shuffled in place and cut to the slot count.

    The random source is replaced by what it returns: `picks` are the
    roles `random.choices` draws for the backfill, and `draws` are the
    results of `randbelow(i + 1)` that `random.shuffle` asks for, one per
    position i from the last down to 1. */
module RoleAssignment {
  import opened Tables

  /** `[role] * n` */
  function Repeat(role: Role, n: nat): (r: seq<Role>)
    ensures |r| == n
    ensures forall i | 0 <= i < n :: r[i] == role
    ensures forall other: Role :: multiset(r)[other] == if other == role then n else 0
  {
    if n == 0 then [] else [role] + Repeat(role, n - 1)
  }

  /** The concatenation of `[role] * qty` over the items of a quota table:
      each role occurs exactly as often as the table grants it. */
  function Expand(items: seq<(Role, nat)>): (r: seq<Role>)
    ensures forall role: Role :: multiset(r)[role] == Quota(items, role)
  {
    if items == [] then []
    else Repeat(items[0].0, items[0].1) + Expand(items[1..])
  }

  /** The roles a mode's quota table asks for, before backfill. */
  function QuotaRoles(mode: Mode): seq<Role>
  {
    Expand(RoleConstraints(mode))
  }

  /** How many backfill roles are drawn for `count` slots. */
  function Shortfall(mode: Mode, count: nat): nat
  {
    if count > |QuotaRoles(mode)| then count - |QuotaRoles(mode)| else 0
  }

  /** Every shipped mode asks, through its quota table, for exactly as
      many roles as it has slots, so it is never backfilled or cut. */
  lemma QuotasFillSlots(mode: Mode)
    ensures |QuotaRoles(mode)| == SlotCount(mode)
    ensures Shortfall(mode, SlotCount(mode)) == 0
  {
    var items := RoleConstraints(mode);
    assert |items| == 3;
  }

  /** What the random source may answer when shuffling a list of length n:
      the k-th answer, asked for position n - 1 - k, is at most that
      position. */
  predicate ValidDraws(n: nat, draws: seq<nat>)
  {
    && |draws| == (if n == 0 then 0 else n - 1)
    && forall k | 0 <= k < |draws| :: draws[k] < n - k
  }

  /** Exchanging two positions of a list. */
  function Swap<T>(s: seq<T>, i: nat, j: nat): (r: seq<T>)
    requires i < |s| && j < |s|
    ensures |r| == |s| && r[i] == s[j] && r[j] == s[i]
    ensures forall k | 0 <= k < |s| && k != i && k != j :: r[k] == s[k]
  {
    s[i := s[j]][j := s[i]]
  }

  lemma SwapPermutes<T>(s: seq<T>, i: nat, j: nat)
    requires i < |s| && j < |s|
    ensures multiset(Swap(s, i, j)) == multiset(s)
  {
  }

  /** The list `random.shuffle` leaves once it has still to treat
      positions i, i - 1, ..., 1 of `s`. */
  function ShuffleFrom<T>(s: seq<T>, draws: seq<nat>, i: nat): (r: seq<T>)
    requires ValidDraws(|s|, draws)
    requires i == 0 || i < |s|
    ensures |r| == |s|
    decreases i
  {
    if i == 0 then s
    else ShuffleFrom(Swap(s, i, draws[|s| - 1 - i]), draws, i - 1)
  }

  /** The list `random.shuffle` produces from `s` for the given answers. */
  function Shuffled<T>(s: seq<T>, draws: seq<nat>): (r: seq<T>)
    requires ValidDraws(|s|, draws)
  {
    ShuffleFrom(s, draws, if |s| == 0 then 0 else |s| - 1)
  }

  /** Each step of a shuffle only reorders. */
  lemma {:induction false} ShuffleFromPermutes<T>(s: seq<T>, draws: seq<nat>, i: nat)
    requires ValidDraws(|s|, draws)
    requires i == 0 || i < |s|
    ensures multiset(ShuffleFrom(s, draws, i)) == multiset(s)
    decreases i
  {
    if i > 0 {
      var t := Swap(s, i, draws[|s| - 1 - i]);
      SwapPermutes(s, i, draws[|s| - 1 - i]);
      ShuffleFromPermutes(t, draws, i - 1);
    }
  }

  /** A shuffle only reorders: the result is a permutation of its input. */
  lemma ShuffledPermutes<T>(s: seq<T>, draws: seq<nat>)
    requires ValidDraws(|s|, draws)
    ensures |Shuffled(s, draws)| == |s|
    ensures multiset(Shuffled(s, draws)) == multiset(s)
  {
    ShuffleFromPermutes(s, draws, if |s| == 0 then 0 else |s| - 1);
  }

  /** `random.shuffle(a)`: from the last position down to position 1, swap
      each position with one at or before it. */
  method Shuffle<T>(a: array<T>, draws: seq<nat>)
    requires ValidDraws(a.Length, draws)
    modifies a
    ensures a[..] == Shuffled(old(a[..]), draws)
  {
    var i: nat := if a.Length == 0 then 0 else a.Length - 1;
    while i > 0
      invariant i == 0 || i < a.Length
      invariant ShuffleFrom(a[..], draws, i) == Shuffled(old(a[..]), draws)
      decreases i
    {
      ghost var before := a[..];
      var j := draws[a.Length - 1 - i];
      assert ShuffleFrom(before, draws, i) == ShuffleFrom(Swap(before, i, j), draws, i - 1);
      a[i], a[j] := a[j], a[i];
      assert a[..] == Swap(before, i, j);
      i := i - 1;
    }
  }

  /** `generate_roles`: the result has one role per slot; when there are
      at least as many slots as the quota table asks for, every quota is
      met and the result is a permutation of the quota roles plus the
      backfill picks; otherwise it is a part of the quota roles. */
  method GenerateRoles(mode: Mode, count: nat, picks: seq<Role>, draws: seq<nat>)
    returns (generated: seq<Role>)
    requires |picks| == Shortfall(mode, count)
    requires ValidDraws(|QuotaRoles(mode)| + |picks|, draws)
    ensures |generated| == count
    ensures generated == Shuffled(QuotaRoles(mode) + picks, draws)[..count]
    ensures multiset(generated) <= multiset(QuotaRoles(mode)) + multiset(picks)
    ensures count >= |QuotaRoles(mode)| ==>
              multiset(generated) == multiset(QuotaRoles(mode)) + multiset(picks)
    ensures count >= |QuotaRoles(mode)| ==>
              forall role: Role :: multiset(generated)[role] >= Quota(RoleConstraints(mode), role)
  {
    var available := QuotaRoles(mode);
    if count > |available| {
      available := available + picks;
    } else {
      assert picks == [];
      assert available == available + picks;
    }
    var a := new Role[|available|](k requires 0 <= k < |available| => available[k]);
    assert a[..] == available;
    Shuffle(a, draws);
    ghost var shuffled := Shuffled(QuotaRoles(mode) + picks, draws);
    assert a[..] == shuffled;
    generated := a[..count];
    assert generated == shuffled[..count];
    GeneratedCounts(mode, count, picks, draws, generated);
  }

  /** What the cut shuffled list holds, counted role by role. */
  lemma GeneratedCounts(mode: Mode, count: nat, picks: seq<Role>, draws: seq<nat>, generated: seq<Role>)
    requires |picks| == Shortfall(mode, count)
    requires ValidDraws(|QuotaRoles(mode)| + |picks|, draws)
    requires count <= |QuotaRoles(mode) + picks|
    requires generated == Shuffled(QuotaRoles(mode) + picks, draws)[..count]
    ensures multiset(generated) <= multiset(QuotaRoles(mode)) + multiset(picks)
    ensures count >= |QuotaRoles(mode)| ==>
              multiset(generated) == multiset(QuotaRoles(mode)) + multiset(picks)
    ensures count >= |QuotaRoles(mode)| ==>
              forall role: Role :: multiset(generated)[role] >= Quota(RoleConstraints(mode), role)
  {
    var available := QuotaRoles(mode) + picks;
    var shuffled := Shuffled(available, draws);
    ShuffledPermutes(available, draws);
    PrefixMultiset(shuffled, count);
    if count >= |QuotaRoles(mode)| {
      forall role: Role
        ensures multiset(generated)[role] >= Quota(RoleConstraints(mode), role)
      {
        assert multiset(QuotaRoles(mode))[role] == Quota(RoleConstraints(mode), role);
      }
    }
  }

  /** A prefix holds part of the elements of the whole list. */
  lemma PrefixMultiset<T>(s: seq<T>, n: nat)
    requires n <= |s|
    ensures multiset(s[..n]) <= multiset(s)
    ensures n == |s| ==> multiset(s[..n]) == multiset(s)
  {
    assert s == s[..n] + s[n..];
  }
}
