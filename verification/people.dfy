/**
 * People and their roles: the deduplicating person registry (`_make_justice`,
 * `_make_advocate`), `Person.add_role`, `Person.add_case` and the two role
 * kinds with their appearance ledgers.
 */
module People {
  import opened Wrappers
  import opened Records

  const AdvocateRole: string := "advocate"
  const JusticeRole: string := "justice"

  /** One entry of a role's appearance ledger. */
  datatype Appearance = Appearance(description: string, caseName: string)

  /** A role a person holds; a justice also records the appointing president. */
  datatype Role =
    | Advocate(appearances: map<string, Appearance>)
    | Justice(appointedBy: string, appearances: map<string, Appearance>)
  {
    /** `Role.add_appearance`: the entry for `docket` is set, everything else is kept. */
    function AddAppearance(docket: string, data: Appearance): (r: Role)
      ensures r.appearances.Keys == appearances.Keys + {docket}
      ensures r.appearances[docket] == data
      ensures forall d :: d in appearances && d != docket ==> r.appearances[d] == appearances[d]
      ensures r.Advocate? == Advocate? && (Justice? ==> r.appointedBy == appointedBy)
    {
      this.(appearances := appearances[docket := data])
    }
  }

  /** A participant, keyed in the registry by `identifier`. */
  datatype Person = Person(
    identifier: string,
    name: string,
    oyezId: int,
    roles: map<string, Role>,
    appearedIn: seq<string>)

  /** The raw block a role or an appearance is read from. */
  datatype Block =
    | AdvocateBlock(entry: AdvocateEntry)
    | MemberBlock(member: Member)
    | VoteBlock(vote: VoteEntry)

  /** `ValueError` raised by `add_role` on an unknown role name. */
  datatype RoleError = UnknownRole(role: string)

  /**
   * What `_make_advocate` raises: `NameError` for an already registered
   * identifier, `TypeError` when the entry's `advocate` block is `null`.
   */
  datatype RegistryError = UndefinedName(name: string) | NullAdvocate

  /** The process-wide registry of people, keyed by stable identifier. */
  type Registry = map<string, Person>

  /** `Person.add_role`. */
  function AddRole(p: Person, role: string, block: Block): (r: Result<Person, RoleError>)
    requires role == JusticeRole && role !in p.roles ==> block.MemberBlock? && |block.member.roles| > 0
    ensures role in p.roles ==> r == Success(p)
    ensures role !in p.roles ==> (r.Success? <==> role == AdvocateRole || role == JusticeRole)
    ensures r.Failure? ==> r.error == UnknownRole(role)
    ensures r.Success? ==> r.value.(roles := p.roles) == p && r.value.roles.Keys == p.roles.Keys + {role}
    ensures r.Success? ==> forall q :: q in p.roles ==> r.value.roles[q] == p.roles[q]
    ensures r.Success? && role !in p.roles ==>
      && r.value.roles[role].appearances == map[]
      && (r.value.roles[role].Justice? <==> role == JusticeRole)
    ensures r.Success? && role !in p.roles && role == JusticeRole ==>
      r.value.roles[role].appointedBy == block.member.roles[0].appointingPresident
  {
    if role in p.roles then Success(p)
    else if role == AdvocateRole then Success(p.(roles := p.roles[role := Advocate(map[])]))
    else if role == JusticeRole then
      Success(p.(roles := p.roles[role := Justice(block.member.roles[0].appointingPresident, map[])]))
    else Failure(UnknownRole(role))
  }

  /** Attaching a role a person already holds changes nothing, whatever block is passed. */
  lemma AddRoleIdempotent(p: Person, role: string, first: Block, second: Block)
    requires role == JusticeRole && role !in p.roles ==> first.MemberBlock? && |first.member.roles| > 0
    requires AddRole(p, role, first).Success?
    ensures AddRole(AddRole(p, role, first).value, role, second) == AddRole(p, role, first)
  {
  }

  /** The block kind each role's `add_appearance` reads. */
  predicate CanRecord(role: Role, block: Block)
  {
    && (role.Advocate? ==> block.AdvocateBlock?)
    && (role.Justice? ==> block.VoteBlock? && |block.vote.member.roles| > 0)
  }

  /** The ledger entry `Advocate.add_appearance` or `Justice.add_appearance` builds. */
  function AppearanceData(role: Role, file: VoteFile, block: Block): (a: Appearance)
    requires CanRecord(role, block)
    ensures a.caseName == file.name
    ensures role.Advocate? ==> a.description == block.entry.advocateDescription
    ensures role.Justice? ==> a.description == block.vote.member.roles[0].roleTitle
  {
    match role
    case Advocate(_) => Appearance(block.entry.advocateDescription, file.name)
    case Justice(_, _) => Appearance(block.vote.member.roles[0].roleTitle, file.name)
  }

  /** `Person.add_case`: one more docket in `appearedIn`, one ledger entry in the named role. */
  function AddCase(p: Person, file: VoteFile, block: Block, role: string): (r: Person)
    requires role in p.roles && CanRecord(p.roles[role], block)
    ensures r.identifier == p.identifier && r.name == p.name && r.oyezId == p.oyezId
    ensures r.appearedIn == p.appearedIn + [file.docketNumber]
    ensures r.roles.Keys == p.roles.Keys
    ensures forall q :: q in p.roles && q != role ==> r.roles[q] == p.roles[q]
    ensures r.roles[role] == p.roles[role].AddAppearance(file.docketNumber, AppearanceData(p.roles[role], file, block))
  {
    var updated := p.roles[role].AddAppearance(file.docketNumber, AppearanceData(p.roles[role], file, block));
    p.(roles := p.roles[role := updated], appearedIn := p.appearedIn + [file.docketNumber])
  }

  // ----- The registry -----

  /** The role under each name is of the kind that name denotes. */
  ghost predicate RolesTagged(p: Person)
  {
    forall q :: q in p.roles ==>
      (q == AdvocateRole && p.roles[q].Advocate?) || (q == JusticeRole && p.roles[q].Justice?)
  }

  /** Every registered person is filed under their own identifier and holds tagged roles. */
  ghost predicate WellFormed(reg: Registry)
  {
    forall k :: k in reg ==> reg[k].identifier == k && RolesTagged(reg[k])
  }

  /** `b` can follow `a`: same kind, same appointing president, no ledger entry lost. */
  ghost predicate RoleGrows(a: Role, b: Role)
  {
    && a.Advocate? == b.Advocate?
    && (a.Justice? ==> b.appointedBy == a.appointedBy)
    && a.appearances.Keys <= b.appearances.Keys
  }

  /** `b` can follow `a`: identity fixed, roles only added, appearances only appended. */
  ghost predicate PersonGrows(a: Person, b: Person)
  {
    && a.identifier == b.identifier && a.name == b.name && a.oyezId == b.oyezId
    && a.roles.Keys <= b.roles.Keys
    && (forall q :: q in a.roles ==> RoleGrows(a.roles[q], b.roles[q]))
    && a.appearedIn <= b.appearedIn
  }

  /** Nobody is unregistered and nobody's identity or role metadata changes. */
  ghost predicate RegistryGrows(a: Registry, b: Registry)
  {
    a.Keys <= b.Keys && forall k :: k in a ==> PersonGrows(a[k], b[k])
  }

  lemma RegistryGrowsTransitive(a: Registry, b: Registry, c: Registry)
    requires RegistryGrows(a, b) && RegistryGrows(b, c)
    ensures RegistryGrows(a, c)
  {
    forall k | k in a
      ensures PersonGrows(a[k], c[k])
    {
      assert PersonGrows(a[k], b[k]) && PersonGrows(b[k], c[k]);
      forall q | q in a[k].roles
        ensures RoleGrows(a[k].roles[q], c[k].roles[q])
      {
        assert RoleGrows(a[k].roles[q], b[k].roles[q]);
        assert RoleGrows(b[k].roles[q], c[k].roles[q]);
      }
    }
  }

  /** `id` is a registered justice whose ledger has an entry for `docket`. */
  ghost predicate JusticeLinked(reg: Registry, id: string, docket: string)
  {
    && id in reg && JusticeRole in reg[id].roles
    && reg[id].roles[JusticeRole].Justice?
    && docket in reg[id].roles[JusticeRole].appearances
  }

  /** `id` is a registered advocate whose ledger has an entry for `docket`. */
  ghost predicate AdvocateLinked(reg: Registry, id: string, docket: string)
  {
    && id in reg && AdvocateRole in reg[id].roles
    && reg[id].roles[AdvocateRole].Advocate?
    && docket in reg[id].roles[AdvocateRole].appearances
  }

  lemma LinksSurviveGrowth(a: Registry, b: Registry, id: string, docket: string)
    requires RegistryGrows(a, b)
    ensures JusticeLinked(a, id, docket) ==> JusticeLinked(b, id, docket)
    ensures AdvocateLinked(a, id, docket) ==> AdvocateLinked(b, id, docket)
  {
    if id in a {
      assert PersonGrows(a[id], b[id]);
    }
  }

  /** `_make_justice`: resolve the member's identifier, registering a new person if needed. */
  function MakeJustice(reg: Registry, member: Member): (r: Registry)
    requires |member.roles| > 0
    ensures r.Keys == reg.Keys + {member.identifier}
    ensures forall k :: k in reg && k != member.identifier ==> r[k] == reg[k]
    ensures member.identifier in reg ==>
      && r[member.identifier].(roles := reg[member.identifier].roles) == reg[member.identifier]
      && reg[member.identifier].roles.Keys <= r[member.identifier].roles.Keys
      && (forall q :: q in reg[member.identifier].roles ==> r[member.identifier].roles[q] == reg[member.identifier].roles[q])
    ensures member.identifier in reg && JusticeRole !in reg[member.identifier].roles ==>
      r[member.identifier].roles
        == reg[member.identifier].roles[JusticeRole := Justice(member.roles[0].appointingPresident, map[])]
    ensures member.identifier in reg && JusticeRole in reg[member.identifier].roles ==>
      r[member.identifier] == reg[member.identifier]
    ensures member.identifier !in reg ==>
      r[member.identifier] == Person(member.identifier, member.name, member.id,
        map[JusticeRole := Justice(member.roles[0].appointingPresident, map[])], [])
    ensures JusticeRole in r[member.identifier].roles
    ensures WellFormed(reg) ==> r[member.identifier].roles[JusticeRole].Justice?
    ensures RegistryGrows(reg, r)
    ensures WellFormed(reg) ==> WellFormed(r)
  {
    var id := member.identifier;
    if id in reg then
      var p := reg[id];
      reg[id := AddRole(p, JusticeRole, MemberBlock(member)).value]
    else
      var p := Person(id, member.name, member.id, map[], []);
      reg[id := AddRole(p, JusticeRole, MemberBlock(member)).value]
  }

  /** `_make_advocate` as written: a null block or a registered identifier fails, a new one is registered. */
  function MakeAdvocate(reg: Registry, entry: AdvocateEntry): (r: Result<Registry, RegistryError>)
    ensures r.Failure? <==> entry.advocate.None? || entry.advocate.value.identifier in reg
    ensures r.Failure? ==> (r.error == NullAdvocate <==> entry.advocate.None?)
    ensures r.Success? ==>
      r.value == reg[entry.advocate.value.identifier :=
        Person(entry.advocate.value.identifier, entry.advocate.value.name, entry.advocate.value.id,
               map[AdvocateRole := Advocate(map[])], [])]
    ensures r.Success? ==> RegistryGrows(reg, r.value)
    ensures r.Success? && WellFormed(reg) ==> WellFormed(r.value)
  {
    match entry.advocate
    case None => Failure(NullAdvocate)
    case Some(info) =>
      if info.identifier in reg then Failure(UndefinedName("justice_o"))
      else
        var p := Person(info.identifier, info.name, info.id, map[], []);
        Success(reg[info.identifier := AddRole(p, AdvocateRole, AdvocateBlock(entry)).value])
  }

  /** Resolving the same identifier twice gives the registry the first resolution gave. */
  lemma MakeJusticeIdempotent(reg: Registry, first: Member, again: Member)
    requires |first.roles| > 0 && |again.roles| > 0
    requires again.identifier == first.identifier
    ensures MakeJustice(MakeJustice(reg, first), again) == MakeJustice(reg, first)
  {
  }
}
