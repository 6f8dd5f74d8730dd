/**
 * The skill-tree view model of src/components/SkillTree.tsx: the static
 * table of skills and edges, the per-node status and per-edge activity the
 * component renders, and the component's local state (the unlocked ids and
 * the point balance) with the two handlers that change it.
 */
module SkillTree {
  import opened Wrappers
  import JsBuiltins

  datatype Position = Position(x: int, y: int)

  datatype Skill = Skill(
    id: string,
    name: string,
    description: string,
    position: Position,
    icon: string,
    cost: nat,
    requirements: seq<string>,
    branch: string)

  datatype Connection = Connection(from: string, to: string)

  /** The four statuses a node is drawn with. */
  datatype Status = Locked | Available | Unlocked | Encrypted

  /** What the ledger answers to `isSkillUnlocked(address, i)`, or that the query threw. */
  datatype LedgerAnswer = Answer(unlocked: bool) | Threw

  /** The arguments `handleUnlock` passes to the ledger's `unlockSkill`. */
  datatype UnlockCall = UnlockCall(skillIndex: nat, currentPoints: nat)

  /** The balance a fresh component starts with. */
  const InitialSkillPoints: nat := 5

  // ---------------------------------------------------------------------
  // The static tables
  // ---------------------------------------------------------------------

  const SkillData: seq<Skill> := [
    Skill("combat_basic", "Basic Combat", "Fundamental fighting techniques and weapon handling",
          Position(20, 80), "shield", 1, [], "combat"),
    Skill("combat_advanced", "Advanced Combat", "Master-level fighting techniques and combo attacks",
          Position(20, 60), "shield", 2, ["combat_basic"], "combat"),
    Skill("combat_master", "Combat Mastery", "Legendary combat prowess - ENCRYPTED BUILD",
          Position(20, 40), "shield", 3, ["combat_advanced"], "combat"),
    Skill("magic_basic", "Basic Spellcasting", "Learn to channel magical energies",
          Position(50, 80), "zap", 1, [], "magic"),
    Skill("magic_advanced", "Arcane Mastery", "Harness powerful magical forces",
          Position(50, 60), "zap", 2, ["magic_basic"], "magic"),
    Skill("magic_forbidden", "Forbidden Arts", "Ancient forbidden magic - ENCRYPTED BUILD",
          Position(50, 40), "zap", 4, ["magic_advanced"], "magic"),
    Skill("support_basic", "Basic Support", "Learn healing and buffing abilities",
          Position(80, 80), "star", 1, [], "support"),
    Skill("support_advanced", "Divine Grace", "Master healing and protection spells",
          Position(80, 60), "star", 2, ["support_basic"], "support"),
    Skill("support_legendary", "Resurrection", "The power over life and death - ENCRYPTED BUILD",
          Position(80, 40), "star", 5, ["support_advanced"], "support"),
    Skill("hybrid_spellsword", "Spellsword", "Combine magic and combat - ENCRYPTED BUILD",
          Position(35, 25), "zap", 3, ["combat_advanced", "magic_advanced"], "hybrid"),
    Skill("hybrid_paladin", "Sacred Warrior", "Holy combat mastery - ENCRYPTED BUILD",
          Position(65, 25), "shield", 3, ["combat_advanced", "support_advanced"], "hybrid")
  ]

  const Connections: seq<Connection> := [
    Connection("combat_basic", "combat_advanced"),
    Connection("combat_advanced", "combat_master"),
    Connection("magic_basic", "magic_advanced"),
    Connection("magic_advanced", "magic_forbidden"),
    Connection("support_basic", "support_advanced"),
    Connection("support_advanced", "support_legendary"),
    Connection("combat_advanced", "hybrid_spellsword"),
    Connection("magic_advanced", "hybrid_spellsword"),
    Connection("combat_advanced", "hybrid_paladin"),
    Connection("support_advanced", "hybrid_paladin")
  ]

  // ---------------------------------------------------------------------
  // Lookup: skillData.findIndex and skillData.find
  // ---------------------------------------------------------------------

  /** `skills.findIndex(s => s.id === id)`: the first position holding `id`, or -1. */
  function FindIndexIn(skills: seq<Skill>, id: string): (k: int)
    ensures -1 <= k < |skills|
    ensures k >= 0 ==> skills[k].id == id && forall j :: 0 <= j < k ==> skills[j].id != id
    ensures k == -1 <==> forall j :: 0 <= j < |skills| ==> skills[j].id != id
  {
    if skills == [] then -1
    else if skills[0].id == id then 0
    else
      var k := FindIndexIn(skills[1..], id);
      if k == -1 then -1 else k + 1
  }

  function FindIndex(id: string): int
  {
    FindIndexIn(SkillData, id)
  }

  /** `skillData.find(s => s.id === id)`: the element at `findIndex`, if any. */
  function FindSkill(id: string): (r: Option<Skill>)
    ensures r.Some? <==> FindIndex(id) >= 0
    ensures r.Some? ==> r.value == SkillData[FindIndex(id)] && r.value.id == id
  {
    var k := FindIndex(id);
    if k < 0 then None else Some(SkillData[k])
  }

  // ---------------------------------------------------------------------
  // getSkillStatus and getConnectionStatus
  // ---------------------------------------------------------------------

  /** `s.includes(sub)`: some position of `s` starts a copy of `sub`. */
  predicate Includes(s: string, sub: string) {
    exists i: nat | i <= |s| :: JsBuiltins.OccursAt(s, sub, i)
  }

  /** The high tier: cost 3 or more, or a description that mentions ENCRYPTED. */
  predicate IsHighTier(skill: Skill) {
    skill.cost >= 3 || Includes(skill.description, "ENCRYPTED")
  }

  /** `requirements.every(req => unlocked.has(req))`; true of an empty list. */
  predicate RequirementsMet(requirements: seq<string>, unlocked: set<string>) {
    forall req :: req in requirements ==> req in unlocked
  }

  /** `getSkillStatus(skill)` for the given unlocked set and balance. */
  function SkillStatus(skill: Skill, unlocked: set<string>, points: int): (st: Status)
    ensures st == Unlocked <==> skill.id in unlocked
    ensures st == Encrypted <==>
      skill.id !in unlocked && IsHighTier(skill) && RequirementsMet(skill.requirements, unlocked)
    ensures st == Available <==>
      skill.id !in unlocked && !IsHighTier(skill) && RequirementsMet(skill.requirements, unlocked)
      && points >= skill.cost
    ensures IsHighTier(skill) ==> st != Available
  {
    if skill.id in unlocked then Unlocked
    else if IsHighTier(skill) then
      if RequirementsMet(skill.requirements, unlocked) then Encrypted else Locked
    else if RequirementsMet(skill.requirements, unlocked) then
      if points >= skill.cost then Available else Locked
    else Locked
  }

  /** The balance matters only to a low-tier skill that is not yet unlocked. */
  lemma StatusIgnoresPoints(skill: Skill, unlocked: set<string>, p: int, q: int)
    requires skill.id in unlocked || IsHighTier(skill)
    ensures SkillStatus(skill, unlocked, p) == SkillStatus(skill, unlocked, q)
  {
  }

  /** `getConnectionStatus(connection)`: an edge is drawn active when both ends are unlocked. */
  predicate ConnectionActive(connection: Connection, unlocked: set<string>)
    ensures ConnectionActive(connection, unlocked) <==> {connection.from, connection.to} <= unlocked
  {
    connection.from in unlocked && connection.to in unlocked
  }

  // ---------------------------------------------------------------------
  // Facts about the static tables
  // ---------------------------------------------------------------------

  ghost predicate IdsUnique(skills: seq<Skill>) {
    forall i, j :: 0 <= i < j < |skills| ==> skills[i].id != skills[j].id
  }

  /** No two skills share an id. */
  lemma SkillIdsUnique()
    ensures IdsUnique(SkillData)
  {
    forall i, j | 0 <= i < j < |SkillData|
      ensures SkillData[i].id != SkillData[j].id
    {
      IdShape(i);
      IdShape(j);
    }
  }

  /** The length and the first letter of each id; no two ids agree on both. */
  const IdLengths: seq<nat> := [12, 15, 13, 11, 14, 15, 13, 16, 17, 17, 14]
  const IdInitials: string := "cccmmmssshh"

  lemma IdShape(i: nat)
    requires i < |SkillData|
    ensures |SkillData[i].id| == IdLengths[i] && SkillData[i].id[0] == IdInitials[i]
  {
  }

  /** With unique ids, `findIndex` of a skill's own id is its position. */
  lemma FindIndexOfOwnId(skills: seq<Skill>, i: nat)
    requires IdsUnique(skills) && i < |skills|
    ensures FindIndexIn(skills, skills[i].id) == i
  {
  }

  /** The (requirement, skill) edges of the skills from position `n` on, in table order. */
  function RequirementEdges(skills: seq<Skill>, n: nat): seq<Connection>
    decreases |skills| - n
  {
    if n >= |skills| then []
    else EdgesInto(skills[n].requirements, skills[n].id) + RequirementEdges(skills, n + 1)
  }

  function EdgesInto(requirements: seq<string>, to: string): seq<Connection>
  {
    if requirements == [] then []
    else [Connection(requirements[0], to)] + EdgesInto(requirements[1..], to)
  }

  lemma {:induction false} EdgesIntoSpec(requirements: seq<string>, to: string, c: Connection)
    ensures c in EdgesInto(requirements, to) <==> c.to == to && c.from in requirements
  {
    if requirements != [] {
      EdgesIntoSpec(requirements[1..], to, c);
    }
  }

  /** An edge is listed exactly when a skill from position `n` on requires its source and has its target as id. */
  lemma {:induction false} RequirementEdgesSpec(skills: seq<Skill>, n: nat, c: Connection)
    ensures c in RequirementEdges(skills, n) <==>
      exists i :: n <= i < |skills| && skills[i].id == c.to && c.from in skills[i].requirements
    decreases |skills| - n
  {
    if n < |skills| {
      EdgesIntoSpec(skills[n].requirements, skills[n].id, c);
      RequirementEdgesSpec(skills, n + 1, c);
    }
  }

  /** For each position of the skill table, where the edges into the skills from there on begin in the edge table. */
  const EdgeStarts: seq<nat> := [0, 0, 1, 2, 2, 3, 4, 4, 5, 6, 8, 10]

  /** The edges into the skill at position `n` are the slice of the edge table that `EdgeStarts` marks. */
  lemma EdgesIntoSkill(n: nat)
    requires n < |SkillData|
    ensures EdgesInto(SkillData[n].requirements, SkillData[n].id)
      == Connections[EdgeStarts[n]..EdgeStarts[n + 1]]
  {
  }

  /**
   * When the edges into each skill are the consecutive slice of `edges` that
   * `starts` marks, the requirement graph from position `n` on is the rest of
   * `edges` from that skill's slice on.
   */
  lemma {:induction false} EdgesFrom(skills: seq<Skill>, edges: seq<Connection>, starts: seq<nat>, n: nat)
    requires n <= |skills| && |starts| == |skills| + 1 && starts[|skills|] == |edges|
    requires forall i, j :: 0 <= i <= j < |starts| ==> starts[i] <= starts[j]
    requires forall k :: 0 <= k < |skills| ==>
      EdgesInto(skills[k].requirements, skills[k].id) == edges[starts[k]..starts[k + 1]]
    ensures RequirementEdges(skills, n) == edges[starts[n]..]
    decreases |skills| - n
  {
    if n < |skills| {
      EdgesFrom(skills, edges, starts, n + 1);
      assert edges[starts[n]..] == edges[starts[n]..starts[n + 1]] + edges[starts[n + 1]..];
    }
  }

  /** The edge list is the requirement graph of the skill table, in table order. */
  lemma ConnectionsAreRequirementEdges()
    ensures Connections == RequirementEdges(SkillData, 0)
  {
    forall k | 0 <= k < |SkillData|
      ensures EdgesInto(SkillData[k].requirements, SkillData[k].id)
        == Connections[EdgeStarts[k]..EdgeStarts[k + 1]]
    {
      EdgesIntoSkill(k);
    }
    EdgesFrom(SkillData, Connections, EdgeStarts, 0);
  }

  /** An edge is drawn exactly when some skill requires its source and has its target as id. */
  lemma ConnectionsMatchRequirements(c: Connection)
    ensures c in Connections <==>
      exists i :: 0 <= i < |SkillData| && SkillData[i].id == c.to && c.from in SkillData[i].requirements
  {
    ConnectionsAreRequirementEdges();
    RequirementEdgesSpec(SkillData, 0, c);
  }

  /** The position in the skill table of each edge's source. */
  const ConnectionSources: seq<nat> := [0, 1, 3, 4, 6, 7, 1, 4, 1, 7]

  /** Both ends of every edge name a skill of the table. */
  lemma ConnectionEndpointsExist(c: Connection)
    requires c in Connections
    ensures FindSkill(c.from).Some? && FindSkill(c.to).Some?
  {
    ConnectionsMatchRequirements(c);
    var j :| 0 <= j < |Connections| && Connections[j] == c;
    ConnectionSourceAt(j);
  }

  lemma ConnectionSourceAt(j: nat)
    requires j < |Connections|
    ensures ConnectionSources[j] < |SkillData| && SkillData[ConnectionSources[j]].id == Connections[j].from
  {
  }

  /**
   * An edge whose source is still locked keeps its target locked, unless the
   * target is itself unlocked: an inactive prerequisite blocks the node.
   */
  lemma LockedPrerequisiteLocksTarget(c: Connection, unlocked: set<string>, points: int)
    requires c in Connections
    requires c.from !in unlocked && c.to !in unlocked
    ensures FindSkill(c.to).Some?
    ensures SkillStatus(FindSkill(c.to).value, unlocked, points) == Locked
  {
    ConnectionsMatchRequirements(c);
    var i :| 0 <= i < |SkillData| && SkillData[i].id == c.to && c.from in SkillData[i].requirements;
    SkillIdsUnique();
    FindIndexOfOwnId(SkillData, i);
  }

  /** An edge of the table is drawn active exactly when both nodes it joins are drawn unlocked. */
  lemma ActiveEdgeJoinsUnlockedNodes(c: Connection, unlocked: set<string>, points: int)
    requires c in Connections
    ensures FindSkill(c.from).Some? && FindSkill(c.to).Some?
    ensures ConnectionActive(c, unlocked) <==>
      SkillStatus(FindSkill(c.from).value, unlocked, points) == Unlocked
      && SkillStatus(FindSkill(c.to).value, unlocked, points) == Unlocked
  {
    ConnectionEndpointsExist(c);
  }

  // ---------------------------------------------------------------------
  // loadPlayerData: the ids the ledger reports as unlocked
  // ---------------------------------------------------------------------

  /** The ids of the skills among the first `n` whose query answered "unlocked". */
  function ReportedIdsBelow(answer: nat -> LedgerAnswer, n: nat): set<string>
    requires n <= |SkillData|
  {
    if n == 0 then {}
    else
      ReportedIdsBelow(answer, n - 1)
      + (if answer(n - 1) == Answer(true) then {SkillData[n - 1].id} else {})
  }

  function ReportedIds(answer: nat -> LedgerAnswer): set<string>
  {
    ReportedIdsBelow(answer, |SkillData|)
  }

  lemma {:induction false} ReportedIdsBelowSpec(answer: nat -> LedgerAnswer, n: nat, id: string)
    requires n <= |SkillData|
    ensures id in ReportedIdsBelow(answer, n) <==>
      exists i :: 0 <= i < n && answer(i) == Answer(true) && SkillData[i].id == id
  {
    if n > 0 {
      ReportedIdsBelowSpec(answer, n - 1, id);
    }
  }

  /**
   * The ledger's index `k` and the table's id at `k` stay aligned: that id is
   * loaded exactly when the ledger reports index `k` unlocked (a query that
   * throws counts as not unlocked).
   */
  lemma ReportedIdsAligned(answer: nat -> LedgerAnswer, k: nat)
    requires k < |SkillData|
    ensures SkillData[k].id in ReportedIds(answer) <==> answer(k) == Answer(true)
  {
    ReportedIdsBelowSpec(answer, |SkillData|, SkillData[k].id);
    SkillIdsUnique();
  }

  /**
   * The index `handleUnlock` sends for the id of skill `k` is `k` itself, so
   * that index's ledger answer decides whether `loadPlayerData` reloads the id.
   */
  lemma SentIndexReloadsSameId(answer: nat -> LedgerAnswer, k: nat)
    requires k < |SkillData|
    ensures FindIndex(SkillData[k].id) == k
    ensures SkillData[k].id in ReportedIds(answer) <==> answer(FindIndex(SkillData[k].id)) == Answer(true)
  {
    SkillIdsUnique();
    FindIndexOfOwnId(SkillData, k);
    ReportedIdsAligned(answer, k);
  }

  /** The loop of `loadPlayerData`: query every index and collect the ids reported unlocked. */
  method CollectUnlocked(answer: nat -> LedgerAnswer) returns (unlocked: set<string>)
    ensures unlocked == ReportedIds(answer)
  {
    unlocked := {};
    var i := 0;
    while i < |SkillData|
      invariant 0 <= i <= |SkillData|
      invariant unlocked == ReportedIdsBelow(answer, i)
    {
      match answer(i) {
        case Answer(isUnlocked) =>
          if isUnlocked {
            unlocked := unlocked + {SkillData[i].id};
          }
        case Threw =>
      }
      i := i + 1;
    }
  }

  // ---------------------------------------------------------------------
  // The unlock gate of the node view
  // ---------------------------------------------------------------------

  /**
   * The states reachable from the empty set when every unlock goes through a
   * node whose status is Available: each unlocked id is a low-tier skill of
   * the table whose requirements are all unlocked.
   */
  ghost predicate GateReachable(unlocked: set<string>) {
    forall id :: id in unlocked ==>
      FindSkill(id).Some? && !IsHighTier(FindSkill(id).value)
      && RequirementsMet(FindSkill(id).value.requirements, unlocked)
  }

  /**
   * Unlocking an Available node passes `handleUnlock`'s balance check, never
   * charges twice for the same id, and keeps the gate invariant.
   */
  lemma GatedUnlockKeepsInvariant(unlocked: set<string>, points: int, skillId: string)
    requires GateReachable(unlocked)
    requires FindSkill(skillId).Some?
    requires SkillStatus(FindSkill(skillId).value, unlocked, points) == Available
    ensures skillId !in unlocked && points >= FindSkill(skillId).value.cost
    ensures GateReachable(unlocked + {skillId})
  {
  }

  /** Through the gate a high-tier skill is never unlocked locally. */
  lemma GateNeverUnlocksHighTier(unlocked: set<string>, skill: Skill)
    requires GateReachable(unlocked)
    requires skill in SkillData && IsHighTier(skill)
    ensures skill.id !in unlocked
  {
    var k :| 0 <= k < |SkillData| && SkillData[k] == skill;
    SkillIdsUnique();
    FindIndexOfOwnId(SkillData, k);
  }

  // ---------------------------------------------------------------------
  // The component's local state
  // ---------------------------------------------------------------------

  class SkillTreeState {
    var unlockedSkills: set<string>
    var skillPoints: nat

    /** `useState(new Set())` and `useState(5)`. */
    constructor ()
      ensures unlockedSkills == {} && skillPoints == InitialSkillPoints
      ensures GateReachable(unlockedSkills)
    {
      unlockedSkills := {};
      skillPoints := InitialSkillPoints;
    }

    /**
     * `handleUnlock(skillId)`. Without a wallet, for an unknown id or when
     * the balance is below the cost nothing is sent and nothing changes.
     * Otherwise the ledger is asked to unlock the skill's index; only when it
     * confirms (`confirmed`) is the id added and the cost deducted.
     */
    method HandleUnlock(skillId: string, connected: bool, confirmed: bool) returns (call: Option<UnlockCall>)
      modifies this
      ensures call.Some? <==>
        connected && FindSkill(skillId).Some? && old(skillPoints) >= FindSkill(skillId).value.cost
      ensures call.Some? ==>
        call.value.skillIndex < |SkillData| && SkillData[call.value.skillIndex].id == skillId
        && call.value.skillIndex == FindIndex(skillId) && call.value.currentPoints == old(skillPoints)
      ensures call.Some? && confirmed ==>
        unlockedSkills == old(unlockedSkills) + {skillId}
        && skillPoints == old(skillPoints) - FindSkill(skillId).value.cost
      ensures call.None? || !confirmed ==>
        unlockedSkills == old(unlockedSkills) && skillPoints == old(skillPoints)
    {
      call := None;
      if !connected {
        return;
      }
      var skill := FindSkill(skillId);
      if skill.None? {
        return;
      }
      if skillPoints < skill.value.cost {
        return;
      }
      var skillIndex := FindIndex(skillId);
      call := Some(UnlockCall(skillIndex, skillPoints));
      if confirmed {
        unlockedSkills := unlockedSkills + {skillId};
        skillPoints := skillPoints - skill.value.cost;
      }
    }

    /**
     * `loadPlayerData()`. Without a wallet, or when the balance query throws
     * (the player is not registered), nothing changes. Otherwise the balance
     * is the ledger's and the unlocked set is rebuilt from the per-index
     * queries.
     */
    method LoadPlayerData(connected: bool, points: Option<nat>, answer: nat -> LedgerAnswer)
      modifies this
      ensures connected && points.Some? ==>
        skillPoints == points.value && unlockedSkills == ReportedIds(answer)
      ensures !connected || points.None? ==>
        unlockedSkills == old(unlockedSkills) && skillPoints == old(skillPoints)
    {
      if !connected {
        return;
      }
      match points {
        case None =>
        case Some(p) =>
          skillPoints := p;
          var unlocked := CollectUnlocked(answer);
          unlockedSkills := unlocked;
      }
    }
  }
}
