/** The static configuration of the randomizer: the roles, the per-role
    rosters, the Stadium subset, the slot count and the role quota of each
    game mode. Nothing here changes while the program runs. */
module Tables {

  /** The three roles of the game, in the order of the `roles` list. */
  datatype Role = Tank | Damage | Support

  /** The three selectable game modes, the keys of `mode_to_count`. */
  datatype Mode = FiveVsFive | Open | Stadium

  datatype Option<T> = None | Some(value: T)

  /** A character is known by its display name. */
  type Character = string

  /** The list of roles that backfill picks are drawn from. */
  function Roles(): seq<Role>
  {
    [Tank, Damage, Support]
  }

  /** The role list names every role once, so a value of type Role is
      exactly an entry of that list. */
  lemma RolesComplete(role: Role)
    ensures role in Roles()
    ensures Distinct(Roles())
  {
  }

  /** The label text (and dictionary key) of a role. */
  function RoleName(role: Role): string
  {
    match role
    case Tank => "Tank"
    case Damage => "Damage"
    case Support => "Support"
  }

  /** Reading a role back from its label text: a dictionary index that
      fails (a KeyError) for any text that is not a role name. */
  function ParseRole(name: string): (r: Option<Role>)
    ensures r.Some? ==> RoleName(r.value) == name
    ensures r.None? ==> name !in {"Tank", "Damage", "Support"}
  {
    if name == "Tank" then Some(Tank)
    else if name == "Damage" then Some(Damage)
    else if name == "Support" then Some(Support)
    else None
  }

  lemma ParseRoleName(role: Role)
    ensures ParseRole(RoleName(role)) == Some(role)
  {
  }

  /** The option-menu text (and dictionary key) of a mode. */
  function ModeName(mode: Mode): string
  {
    match mode
    case FiveVsFive => "5v5"
    case Open => "Open"
    case Stadium => "Stadium"
  }

  /** Looking a mode name up in `mode_to_count` or `role_constraints`:
      None stands for the KeyError that an unknown name raises. */
  function LookupMode(name: string): (r: Option<Mode>)
    ensures r.Some? ==> ModeName(r.value) == name
    ensures r.None? ==> name !in {"5v5", "Open", "Stadium"}
  {
    if name == "5v5" then Some(FiveVsFive)
    else if name == "Open" then Some(Open)
    else if name == "Stadium" then Some(Stadium)
    else None
  }

  lemma LookupModeName(mode: Mode)
    ensures LookupMode(ModeName(mode)) == Some(mode)
  {
  }

  /** The full roster of a role, `characters_by_role_full[role]`. */
  function Roster(role: Role): seq<Character>
  {
    match role
    case Tank =>
      ["D.Va", "Junker Queen", "Orisa", "Reinhardt", "Zarya", "Winston", "Sigma",
       "Ramattra", "Roadhog", "Mauga", "Wrecking Ball"]
    case Damage =>
      ["Ashe", "Cassidy", "Freja", "Genji", "Mei", "Reaper", "Soldier: 76", "Echo",
       "Pharah", "Sojourn", "Sombra", "Symmetra", "Torbjörn", "Tracer", "Hanzo",
       "Bastion", "Junkrat"]
    case Support =>
      ["Ana", "Juno", "Kiriko", "Lúcio", "Mercy", "Moira", "Zenyatta", "Baptiste",
       "Brigitte", "Illari", "Lifeweaver"]
  }

  /** The characters that may be played in Stadium mode. */
  function StadiumCharacters(): seq<Character>
  {
    ["D.Va", "Junker Queen", "Orisa", "Reinhardt", "Zarya",
     "Ashe", "Cassidy", "Freja", "Genji", "Mei", "Reaper", "Soldier: 76",
     "Ana", "Juno", "Kiriko", "Lúcio", "Mercy", "Moira"]
  }

  /** The number of slots of a mode, `mode_to_count[mode]`. */
  function SlotCount(mode: Mode): nat
  {
    match mode
    case FiveVsFive => 5
    case Open => 6
    case Stadium => 5
  }

  /** The quota table of a mode, `role_constraints[mode]`, as its items in
      dictionary order. */
  function RoleConstraints(mode: Mode): seq<(Role, nat)>
  {
    match mode
    case FiveVsFive => [(Tank, 1), (Damage, 2), (Support, 2)]
    case Stadium => [(Tank, 1), (Damage, 2), (Support, 2)]
    case Open => [(Tank, 2), (Damage, 2), (Support, 2)]
  }

  /** The quota a table grants a role: the sum of its entries for that role. */
  function Quota(items: seq<(Role, nat)>, role: Role): nat
  {
    if items == [] then 0
    else (if items[0].0 == role then items[0].1 else 0) + Quota(items[1..], role)
  }

  /** The quotas of the shipped modes: one tank (two in Open) and two of
      each other role. */
  lemma QuotaValues(mode: Mode, role: Role)
    ensures Quota(RoleConstraints(mode), role) == if role == Tank && mode != Open then 1 else 2
  {
    var items := RoleConstraints(mode);
    var r1 := items[1..];
    var r2 := r1[1..];
    assert r2[1..] == [];
    assert Quota(r2, role) == if role == Support then items[2].1 else 0;
    assert Quota(r1, role) == (if role == Damage then items[1].1 else 0) + Quota(r2, role);
  }

  /** No name occurs twice in a sequence. */
  predicate Distinct<T(==)>(s: seq<T>)
  {
    forall i, j | 0 <= i < j < |s| :: s[i] != s[j]
  }

  /** Each roster lists every character once. */
  lemma RostersDistinct(role: Role)
    ensures Distinct(Roster(role))
  {
    match role {
      case Tank => TanksDistinct();
      case Damage => DamageDistinct();
      case Support => SupportsDistinct();
    }
  }

  lemma TanksDistinct()
    ensures Distinct(Roster(Tank))
  {
  }

  lemma DamageDistinct()
    ensures Distinct(Roster(Damage))
  {
  }

  lemma SupportsDistinct()
    ensures Distinct(Roster(Support))
  {
  }

  /** "???" is not the name of a character of any role. */
  lemma SentinelNotListed(role: Role)
    ensures "???" !in Roster(role)
  {
  }

  /** No character is listed under two roles. */
  lemma RostersDisjoint(a: Role, b: Role, c: Character)
    requires c in Roster(a) && c in Roster(b)
    ensures a == b
  {
    TanksNotDamage();
    TanksNotSupport();
    SupportsNotDamage();
  }

  /** A listed character belongs to exactly one role's roster. */
  lemma RosterRole(c: Character, a: Role)
    requires c in Roster(a)
    ensures forall b: Role :: c in Roster(b) <==> b == a
  {
    forall b: Role | c in Roster(b)
      ensures b == a
    {
      RostersDisjoint(a, b, c);
    }
  }

  lemma TanksNotDamage()
    ensures forall x | x in Roster(Tank) :: x !in Roster(Damage)
  {
  }

  lemma TanksNotSupport()
    ensures forall x | x in Roster(Tank) :: x !in Roster(Support)
  {
  }

  lemma SupportsNotDamage()
    ensures forall x | x in Roster(Support) :: x !in Roster(Damage)
  {
  }

  /** The Stadium list is the first five tanks, the first seven damage
      characters and the first six supports of the full rosters, in that
      order. */
  lemma StadiumBlocks()
    ensures StadiumCharacters()
         == Roster(Tank)[..5] + Roster(Damage)[..7] + Roster(Support)[..6]
  {
  }
}
