/** Character assignment: the slots are visited in order; each slot's pool
    is its role's roster (in Stadium mode, the Stadium list restricted to
    that roster) less every character picked earlier in the same pass, and
    one character of the pool is picked, or the sentinel "???" when the
    pool is empty.

    `random.choice` is replaced by a nondeterministic choice of some
    element of the pool; the order in which a Python set lists its
    elements therefore plays no part. */
module CharacterAssignment {
  import opened Tables

  /** What a slot shows when its pool is empty. */
  const Sentinel: Character := "???"

  /** `[c for c in xs if c in allowed]` */
  function Filter(xs: seq<Character>, allowed: seq<Character>): (r: seq<Character>)
    ensures forall c :: c in r <==> c in xs && c in allowed
    ensures Distinct(xs) ==> Distinct(r)
  {
    if xs == [] then []
    else if xs[0] in allowed then
      assert Distinct(xs) ==> xs[0] !in xs[1..];
      [xs[0]] + Filter(xs[1..], allowed)
    else Filter(xs[1..], allowed)
  }

  lemma {:induction false} FilterAppend(a: seq<Character>, b: seq<Character>, allowed: seq<Character>)
    ensures Filter(a + b, allowed) == Filter(a, allowed) + Filter(b, allowed)
  {
    if a == [] {
      assert a + b == b;
    } else {
      assert (a + b)[0] == a[0];
      assert (a + b)[1..] == a[1..] + b;
      FilterAppend(a[1..], b, allowed);
    }
  }

  lemma {:induction false} FilterAll(xs: seq<Character>, allowed: seq<Character>)
    requires forall c | c in xs :: c in allowed
    ensures Filter(xs, allowed) == xs
  {
    if xs != [] {
      FilterAll(xs[1..], allowed);
    }
  }

  lemma {:induction false} FilterNone(xs: seq<Character>, allowed: seq<Character>)
    requires forall c | c in xs :: c !in allowed
    ensures Filter(xs, allowed) == []
  {
    if xs != [] {
      FilterNone(xs[1..], allowed);
    }
  }

  /** The pool a slot of role `role` starts from, before removing the
      characters already picked: its roster, restricted in Stadium mode to
      the Stadium list. */
  function CandidatePool(mode: Mode, role: Role): (pool: seq<Character>)
    ensures forall c ::
      c in pool <==> c in Roster(role) && (mode == Stadium ==> c in StadiumCharacters())
  {
    if mode == Stadium then Filter(StadiumCharacters(), Roster(role)) else Roster(role)
  }

  /** The Stadium list filtered by a roster, block by block. */
  lemma StadiumFilter(role: Role)
    ensures Filter(StadiumCharacters(), Roster(role))
         == Filter(Roster(Tank)[..5], Roster(role))
          + Filter(Roster(Damage)[..7], Roster(role))
          + Filter(Roster(Support)[..6], Roster(role))
  {
    var t, d, s := Roster(Tank)[..5], Roster(Damage)[..7], Roster(Support)[..6];
    StadiumBlocks();
    FilterAppend(t + d, s, Roster(role));
    FilterAppend(t, d, Roster(role));
  }

  /** The Stadium pools are the Stadium list's blocks, in its order. */
  lemma StadiumPools()
    ensures CandidatePool(Stadium, Tank) == Roster(Tank)[..5]
    ensures CandidatePool(Stadium, Damage) == Roster(Damage)[..7]
    ensures CandidatePool(Stadium, Support) == Roster(Support)[..6]
  {
    var t, d, s := Roster(Tank)[..5], Roster(Damage)[..7], Roster(Support)[..6];
    TanksNotDamage();
    TanksNotSupport();
    SupportsNotDamage();
    StadiumFilter(Tank);
    FilterAll(t, Roster(Tank));
    FilterNone(d, Roster(Tank));
    FilterNone(s, Roster(Tank));
    StadiumFilter(Damage);
    FilterNone(t, Roster(Damage));
    FilterAll(d, Roster(Damage));
    FilterNone(s, Roster(Damage));
    StadiumFilter(Support);
    FilterNone(t, Roster(Support));
    FilterNone(d, Roster(Support));
    FilterAll(s, Roster(Support));
  }

  /** A prefix of a list without repeats has none either. */
  lemma DistinctPrefix(s: seq<Character>, n: nat)
    requires Distinct(s) && n <= |s|
    ensures Distinct(s[..n])
  {
    forall i, j | 0 <= i < j < n
      ensures s[..n][i] != s[..n][j]
    {
      assert s[..n][i] == s[i] && s[..n][j] == s[j];
    }
  }

  /** Every pool lists each character once. */
  lemma PoolDistinct(mode: Mode, role: Role)
    ensures Distinct(CandidatePool(mode, role))
  {
    RostersDistinct(role);
    if mode == Stadium {
      StadiumPools();
      var n := match role case Tank => 5 case Damage => 7 case Support => 6;
      assert CandidatePool(mode, role) == Roster(role)[..n];
      DistinctPrefix(Roster(role), n);
    }
  }

  /** Every pool holds 11 tanks, 17 damage characters and 11 supports, or
      in Stadium mode 5, 7 and 6. */
  lemma PoolSizes(mode: Mode, role: Role)
    ensures |CandidatePool(mode, role)| ==
      match role
      case Tank => if mode == Stadium then 5 else 11
      case Damage => if mode == Stadium then 7 else 17
      case Support => if mode == Stadium then 6 else 11
  {
    if mode == Stadium {
      StadiumPools();
    }
  }

  /** `set(pool)` for the slot's starting pool. */
  function PoolSet(mode: Mode, role: Role): set<Character>
  {
    set c | c in CandidatePool(mode, role)
  }

  /** The sentinel is not the name of any character. */
  lemma SentinelNotInPool(mode: Mode, role: Role)
    ensures Sentinel !in PoolSet(mode, role)
  {
    SentinelNotListed(role);
    assert Sentinel !in CandidatePool(mode, role);
  }

  /** `selected_characters` after the given slots: every character they
      show, the sentinel excluded. */
  function Picked(chars: seq<Character>): set<Character>
  {
    set c | c in chars && c != Sentinel
  }

  /** One turn of the loop: `c` is a possible outcome for a slot of role
      `role` once `used` has been picked. */
  predicate StepChoice(mode: Mode, role: Role, used: set<Character>, c: Character)
  {
    var available := PoolSet(mode, role) - used;
    if available == {} then c == Sentinel else c in available
  }

  /** `chars` is a possible outcome of the whole pass over `roles`. */
  predicate Follows(mode: Mode, roles: seq<Role>, chars: seq<Character>)
  {
    && |chars| == |roles|
    && forall i | 0 <= i < |chars| :: StepChoice(mode, roles[i], Picked(chars[..i]), chars[i])
  }

  /** `generate_characters`: one character per slot, in slot order, each
      a possible outcome of its turn of the loop. */
  method GenerateCharacters(mode: Mode, roles: seq<Role>) returns (chars: seq<Character>)
    ensures Follows(mode, roles, chars)
  {
    var selected: set<Character> := {};
    chars := [];
    for i := 0 to |roles|
      invariant |chars| == i
      invariant selected == Picked(chars)
      invariant forall k | 0 <= k < i :: StepChoice(mode, roles[k], Picked(chars[..k]), chars[k])
    {
      var pool := PoolSet(mode, roles[i]) - selected;
      var character: Character;
      if pool == {} {
        character := Sentinel;
      } else {
        character :| character in pool;
        SentinelNotInPool(mode, roles[i]);
      }
      assert StepChoice(mode, roles[i], Picked(chars), character);
      ExtendPicked(chars, character);
      if character != Sentinel {
        selected := selected + {character};
      }
      ExtendPrefixes(chars, character);
      chars := chars + [character];
    }
  }

  lemma ExtendPicked(chars: seq<Character>, c: Character)
    ensures Picked(chars + [c]) == Picked(chars) + (if c == Sentinel then {} else {c})
  {
  }

  lemma ExtendPrefixes(chars: seq<Character>, c: Character)
    ensures (chars + [c])[..|chars|] == chars
    ensures forall k | 0 <= k < |chars| :: (chars + [c])[..k] == chars[..k]
  {
  }

  /** Every character shown belongs to its slot's role, and in Stadium
      mode to the Stadium list. */
  lemma FollowsInRoster(mode: Mode, roles: seq<Role>, chars: seq<Character>)
    requires Follows(mode, roles, chars)
    ensures forall i | 0 <= i < |chars| && chars[i] != Sentinel ::
      chars[i] in Roster(roles[i]) && (mode == Stadium ==> chars[i] in StadiumCharacters())
  {
    forall i | 0 <= i < |chars| && chars[i] != Sentinel
      ensures chars[i] in CandidatePool(mode, roles[i])
    {
      assert StepChoice(mode, roles[i], Picked(chars[..i]), chars[i]);
    }
  }

  /** No character is shown in two slots, whatever their roles. */
  lemma FollowsUnique(mode: Mode, roles: seq<Role>, chars: seq<Character>)
    requires Follows(mode, roles, chars)
    ensures forall i, j | 0 <= i < j < |chars| && chars[i] != Sentinel :: chars[i] != chars[j]
  {
    forall i, j | 0 <= i < j < |chars| && chars[i] != Sentinel
      ensures chars[i] != chars[j]
    {
      assert chars[..j][i] == chars[i];
      assert chars[i] in Picked(chars[..j]);
      assert StepChoice(mode, roles[j], Picked(chars[..j]), chars[j]);
    }
  }

  /** A slot shows the sentinel exactly when every character of its pool
      was already picked. */
  lemma FollowsSentinelExactly(mode: Mode, roles: seq<Role>, chars: seq<Character>)
    requires Follows(mode, roles, chars)
    ensures forall i | 0 <= i < |chars| ::
      chars[i] == Sentinel <==> PoolSet(mode, roles[i]) - Picked(chars[..i]) == {}
  {
    forall i | 0 <= i < |chars|
      ensures chars[i] == Sentinel <==> PoolSet(mode, roles[i]) - Picked(chars[..i]) == {}
    {
      assert StepChoice(mode, roles[i], Picked(chars[..i]), chars[i]);
      SentinelNotInPool(mode, roles[i]);
    }
  }

  /** The characters shown in slots of role `role`, the sentinel excluded. */
  function RolePicks(roles: seq<Role>, chars: seq<Character>, role: Role): set<Character>
    requires |roles| == |chars|
  {
    if roles == [] then {}
    else
      var n := |roles| - 1;
      RolePicks(roles[..n], chars[..n], role)
        + (if roles[n] == role && chars[n] != Sentinel then {chars[n]} else {})
  }

  lemma {:induction false} RolePicksBound(roles: seq<Role>, chars: seq<Character>, role: Role)
    requires |roles| == |chars|
    ensures |RolePicks(roles, chars, role)| <= multiset(roles)[role]
  {
    if roles != [] {
      var n := |roles| - 1;
      RolePicksBound(roles[..n], chars[..n], role);
      assert roles == roles[..n] + [roles[n]];
    }
  }

  lemma {:induction false} RolePicksHas(roles: seq<Role>, chars: seq<Character>, role: Role, j: nat)
    requires |roles| == |chars| && j < |roles|
    requires roles[j] == role && chars[j] != Sentinel
    ensures chars[j] in RolePicks(roles, chars, role)
    decreases |roles|
  {
    var n := |roles| - 1;
    if j < n {
      RolePicksHas(roles[..n], chars[..n], role, j);
    }
  }

  /** A list of distinct names longer than a set has a name outside it. */
  lemma {:induction false} OutsideExists(pool: seq<Character>, s: set<Character>)
    requires Distinct(pool)
    requires |s| < |pool|
    ensures exists c :: c in pool && c !in s
  {
    if pool[0] !in s {
      assert pool[0] in pool;
    } else {
      var rest := pool[1..];
      assert Distinct(rest);
      OutsideExists(rest, s - {pool[0]});
      var c :| c in rest && c !in s - {pool[0]};
      assert c != pool[0];
      assert c in pool;
    }
  }

  /** A character of a slot's pool that an earlier slot took was taken by
      a slot of the same role, since no character is listed under two
      roles. */
  lemma {:induction false} UsedBySameRole(mode: Mode, roles: seq<Role>, chars: seq<Character>, i: nat, c: Character)
    requires Follows(mode, roles, chars)
    requires i < |chars|
    requires c in CandidatePool(mode, roles[i]) && c in Picked(chars[..i])
    ensures c in RolePicks(roles[..i], chars[..i], roles[i])
  {
    var j :| 0 <= j < i && chars[..i][j] == c;
    assert chars[j] == c && c != Sentinel;
    assert StepChoice(mode, roles[j], Picked(chars[..j]), chars[j]);
    assert c in CandidatePool(mode, roles[j]);
    RostersDisjoint(roles[i], roles[j], c);
    RolePicksHas(roles[..i], chars[..i], roles[i], j);
  }

  /** Fewer characters were taken by the slots before slot i that share
      its role than that role occurs in all. */
  lemma FewerEarlier(roles: seq<Role>, chars: seq<Character>, i: nat)
    requires |roles| == |chars| && i < |roles|
    ensures |RolePicks(roles[..i], chars[..i], roles[i])| < multiset(roles)[roles[i]]
  {
    RolePicksBound(roles[..i], chars[..i], roles[i]);
    assert roles == roles[..i] + roles[i..];
    assert roles[i..][0] == roles[i];
  }

  /** A slot is not left without a character when its role occurs no more
      often than its pool is long: only earlier slots of the same role can
      have taken characters of its pool, and there are fewer of those than
      the pool is long. */
  lemma NoExhaustionAt(mode: Mode, roles: seq<Role>, chars: seq<Character>, i: nat)
    requires Follows(mode, roles, chars)
    requires i < |chars|
    requires multiset(roles)[roles[i]] <= |CandidatePool(mode, roles[i])|
    ensures chars[i] != Sentinel
  {
    var role := roles[i];
    var used := Picked(chars[..i]);
    var mine := RolePicks(roles[..i], chars[..i], role);
    FewerEarlier(roles, chars, i);
    PoolDistinct(mode, role);
    OutsideExists(CandidatePool(mode, role), mine);
    var c :| c in CandidatePool(mode, role) && c !in mine;
    if c in used {
      UsedBySameRole(mode, roles, chars, i, c);
    }
    assert c in PoolSet(mode, role) - used;
    assert StepChoice(mode, role, used, chars[i]);
    SentinelNotInPool(mode, role);
  }

  function Min(a: nat, b: nat): nat
  {
    if a <= b then a else b
  }

  /** A list without repeats has as many distinct elements as entries. */
  lemma {:induction false} DistinctCard(s: seq<Character>)
    requires Distinct(s)
    ensures |set c | c in s| == |s|
  {
    if s != [] {
      var rest := s[1..];
      assert Distinct(rest);
      DistinctCard(rest);
      assert (set c | c in s) == {s[0]} + (set c | c in rest);
      assert s[0] !in rest;
    }
  }

  /** A set missing an element of a superset is smaller than it. */
  lemma ProperSubsetSmaller(a: set<Character>, b: set<Character>, x: Character)
    requires a <= b && x in b && x !in a
    ensures |a| < |b|
  {
    assert a + (b - a) == b;
    assert a * (b - a) == {};
    assert x in b - a;
  }

  /** One turn, on sets: a character of role r's pool is added to the
      taken part of that pool exactly when a slot of role r takes it. */
  lemma TakenStep(mode: Mode, r: Role, role: Role, used: set<Character>, c: Character)
    requires StepChoice(mode, role, used, c)
    ensures (used + (if c == Sentinel then {} else {c})) * PoolSet(mode, r)
         == used * PoolSet(mode, r) + (if role == r && c != Sentinel then {c} else {})
  {
    SentinelNotInPool(mode, role);
    if role != r && c != Sentinel {
      assert c in CandidatePool(mode, role);
      RosterRole(c, role);
      assert c !in PoolSet(mode, r);
    }
  }

  /** One turn, counted: a slot of role r takes a new character of its
      pool until the pool is used up. */
  lemma CountStep(mode: Mode, r: Role, used: set<Character>, c: Character, n: nat)
    requires StepChoice(mode, r, used, c)
    requires |used * PoolSet(mode, r)| == Min(n, |CandidatePool(mode, r)|)
    ensures |used * PoolSet(mode, r) + (if c != Sentinel then {c} else {})|
         == Min(n + 1, |CandidatePool(mode, r)|)
  {
    var taken := used * PoolSet(mode, r);
    var pool := PoolSet(mode, r);
    SentinelNotInPool(mode, r);
    PoolDistinct(mode, r);
    DistinctCard(CandidatePool(mode, r));
    assert |pool| == |CandidatePool(mode, r)|;
    if c == Sentinel {
      assert pool - used == {};
      assert taken == pool;
    } else {
      assert c in pool && c !in taken;
      ProperSubsetSmaller(taken, pool, c);
    }
  }

  lemma PrefixSnoc<T>(s: seq<T>, j: nat)
    requires j < |s|
    ensures s[..j + 1] == s[..j] + [s[j]]
  {
  }

  /** One more slot of the pass, on the prefixes of the lists. */
  lemma StepRolePicks(mode: Mode, roles: seq<Role>, chars: seq<Character>, r: Role, j: nat)
    requires |roles| == |chars| && j < |chars|
    requires StepChoice(mode, roles[j], Picked(chars[..j]), chars[j])
    requires RolePicks(roles[..j], chars[..j], r) == Picked(chars[..j]) * PoolSet(mode, r)
    requires |RolePicks(roles[..j], chars[..j], r)|
          == Min(multiset(roles[..j])[r], |CandidatePool(mode, r)|)
    ensures RolePicks(roles[..j + 1], chars[..j + 1], r) == Picked(chars[..j + 1]) * PoolSet(mode, r)
    ensures |RolePicks(roles[..j + 1], chars[..j + 1], r)|
         == Min(multiset(roles[..j + 1])[r], |CandidatePool(mode, r)|)
  {
    var c := chars[j];
    var used := Picked(chars[..j]);
    SnocFacts(roles, chars, r, j);
    TakenStep(mode, r, roles[j], used, c);
    if roles[j] == r {
      CountStep(mode, r, used, c, multiset(roles[..j])[r]);
    }
  }

  /** How the role picks, the picked set and the role count grow by one slot. */
  lemma SnocFacts(roles: seq<Role>, chars: seq<Character>, r: Role, j: nat)
    requires |roles| == |chars| && j < |chars|
    ensures RolePicks(roles[..j + 1], chars[..j + 1], r)
         == RolePicks(roles[..j], chars[..j], r)
          + (if roles[j] == r && chars[j] != Sentinel then {chars[j]} else {})
    ensures Picked(chars[..j + 1])
         == Picked(chars[..j]) + (if chars[j] == Sentinel then {} else {chars[j]})
    ensures multiset(roles[..j + 1])[r] == multiset(roles[..j])[r] + (if roles[j] == r then 1 else 0)
  {
    assert roles[..j + 1][..j] == roles[..j] && chars[..j + 1][..j] == chars[..j];
    PrefixSnoc(roles, j);
    PrefixSnoc(chars, j);
    ExtendPicked(chars[..j], chars[j]);
  }

  /** After the first k slots, the characters taken from role r's pool are
      exactly those taken by slots of role r, and there are as many as
      such slots, up to the size of the pool. */
  lemma {:induction false} RolePicksCount(mode: Mode, roles: seq<Role>, chars: seq<Character>, r: Role, k: nat)
    requires Follows(mode, roles, chars)
    requires k <= |chars|
    ensures RolePicks(roles[..k], chars[..k], r) == Picked(chars[..k]) * PoolSet(mode, r)
    ensures |RolePicks(roles[..k], chars[..k], r)|
         == Min(multiset(roles[..k])[r], |CandidatePool(mode, r)|)
    decreases k
  {
    if k == 0 {
      assert roles[..0] == [] && chars[..0] == [];
      assert Picked(chars[..0]) == {};
    } else {
      RolePicksCount(mode, roles, chars, r, k - 1);
      assert StepChoice(mode, roles[k - 1], Picked(chars[..k - 1]), chars[k - 1]);
      StepRolePicks(mode, roles, chars, r, k - 1);
    }
  }

  /** A slot shows the sentinel exactly when the earlier slots of its role
      are at least as many as its pool holds characters. */
  lemma SentinelIffSurplus(mode: Mode, roles: seq<Role>, chars: seq<Character>, i: nat)
    requires Follows(mode, roles, chars)
    requires i < |chars|
    ensures chars[i] == Sentinel <==> multiset(roles[..i])[roles[i]] >= |CandidatePool(mode, roles[i])|
  {
    var r := roles[i];
    var taken := RolePicks(roles[..i], chars[..i], r);
    var pool := PoolSet(mode, r);
    RolePicksCount(mode, roles, chars, r, i);
    PoolDistinct(mode, r);
    DistinctCard(CandidatePool(mode, r));
    assert |pool| == |CandidatePool(mode, r)|;
    assert StepChoice(mode, r, Picked(chars[..i]), chars[i]);
    SentinelNotInPool(mode, r);
    if chars[i] == Sentinel {
      assert pool - Picked(chars[..i]) == {};
      assert taken == pool;
    } else {
      assert chars[i] in pool && chars[i] !in taken;
      ProperSubsetSmaller(taken, pool, chars[i]);
    }
  }

  /** When no role occurs more often than its pool is long, no slot shows
      the sentinel. */
  lemma NoExhaustion(mode: Mode, roles: seq<Role>, chars: seq<Character>)
    requires Follows(mode, roles, chars)
    requires forall role: Role :: multiset(roles)[role] <= |CandidatePool(mode, role)|
    ensures Sentinel !in chars
  {
    forall i | 0 <= i < |chars|
      ensures chars[i] != Sentinel
    {
      NoExhaustionAt(mode, roles, chars, i);
    }
  }
}
