/**
 * The staff list: its loader (agents by name, ascending) and its `delete` action,
 * which unassigns the agent's properties and deletes the agent in one transaction.
 */
module Staff {
  import opened Wrappers
  import opened Validation
  import opened Records

  datatype StaffPage = StaffPage(agents: seq<Agent>, error: Option<string>)

  datatype DeleteOutcome =
    | Deleted(deletedName: string)
    | DeleteFailed(status: int, deleteError: string)

  const LoadFailed := "Failed to load staff list."
  const InvalidId := "Invalid Agent ID."
  const NotFound := "Agent not found."
  const DeleteError := "Failed to delete agent."

  /** `a` sorts no later than `b` in code-unit lexicographic order. */
  predicate LexLe(a: string, b: string)
    decreases |a|
  {
    a == [] || (b != [] && (a[0] < b[0] || (a[0] == b[0] && LexLe(a[1..], b[1..]))))
  }

  lemma {:induction false} LexLeTotal(a: string, b: string)
    ensures LexLe(a, b) || LexLe(b, a)
    decreases |a|
  {
    if a != [] && b != [] && a[0] == b[0] {
      LexLeTotal(a[1..], b[1..]);
    }
  }

  lemma {:induction false} LexLeTransitive(a: string, b: string, c: string)
    requires LexLe(a, b) && LexLe(b, c)
    ensures LexLe(a, c)
    decreases |a|
  {
    if a != [] && a[0] == b[0] && b[0] == c[0] {
      LexLeTransitive(a[1..], b[1..], c[1..]);
    }
  }

  lemma {:induction false} LexLeAntisymmetric(a: string, b: string)
    requires LexLe(a, b) && LexLe(b, a)
    ensures a == b
    decreases |a|
  {
    if a != [] {
      LexLeAntisymmetric(a[1..], b[1..]);
      assert a == [a[0]] + a[1..] && b == [b[0]] + b[1..];
    }
  }

  /** Every agent's name sorts no later than the names of the agents after it. */
  predicate ByNameOrdered(s: seq<Agent>) {
    forall i, j :: 0 <= i < j < |s| ==> LexLe(s[i].name, s[j].name)
  }

  function InsertByName(a: Agent, s: seq<Agent>): (r: seq<Agent>)
    requires ByNameOrdered(s)
    ensures ByNameOrdered(r)
    ensures multiset(r) == multiset(s) + multiset{a}
  {
    if s == [] then [a]
    else if LexLe(a.name, s[0].name) then
      NoneBefore(s, s, s[0], a.name);
      PrependByName(a, s);
      [a] + s
    else
      var rest := InsertByName(a, s[1..]);
      assert s == [s[0]] + s[1..];
      LexLeTotal(a.name, s[0].name);
      NoneBefore(rest, s[1..], a, s[0].name);
      PrependByName(s[0], rest);
      [s[0]] + rest
  }

  /** An agent whose name sorts no later than every name of an ordered list can go in
      front of it. */
  lemma PrependByName(x: Agent, s: seq<Agent>)
    requires ByNameOrdered(s)
    requires forall j :: 0 <= j < |s| ==> LexLe(x.name, s[j].name)
    ensures ByNameOrdered([x] + s)
  {
    var r := [x] + s;
    forall i, j | 0 <= i < j < |r| ensures LexLe(r[i].name, r[j].name) {
      if i > 0 {
        assert r[i] == s[i - 1] && r[j] == s[j - 1];
      }
    }
  }

  /** When `r` holds the agents of an ordered `t` plus `a`, and `c` sorts no later than
      the name of `a` and the head of `t`, it sorts no later than every name in `r`. */
  lemma NoneBefore(r: seq<Agent>, t: seq<Agent>, a: Agent, c: string)
    requires ByNameOrdered(t)
    requires multiset(r) == multiset(t) + multiset{a} || multiset(r) == multiset(t)
    requires LexLe(c, a.name) && (t != [] ==> LexLe(c, t[0].name))
    ensures forall j :: 0 <= j < |r| ==> LexLe(c, r[j].name)
  {
    forall j | 0 <= j < |r| ensures LexLe(c, r[j].name) {
      assert r[j] in multiset(r);
      if r[j] != a {
        assert r[j] in multiset(t);
        var k :| 0 <= k < |t| && t[k] == r[j];
        if k > 0 {
          LexLeTransitive(c, t[0].name, t[k].name);
        }
      }
    }
  }

  /** `orderBy: { name: 'asc' }`: the same agents, by name. */
  function ByName(s: seq<Agent>): (r: seq<Agent>)
    ensures ByNameOrdered(r)
    ensures multiset(r) == multiset(s)
  {
    if s == [] then []
    else
      assert s == [s[0]] + s[1..];
      InsertByName(s[0], ByName(s[1..]))
  }

  /** The loader, given the table's rows in any order, or `None` when the query fails. */
  function Load(rows: Option<seq<Agent>>): (page: StaffPage)
    ensures rows.None? ==> page == StaffPage([], Some(LoadFailed))
    ensures rows.Some? ==>
      page.error.None? && ByNameOrdered(page.agents) && multiset(page.agents) == multiset(rows.value)
  {
    if rows.None? then StaffPage([], Some(LoadFailed)) else StaffPage(ByName(rows.value), None)
  }

  lemma ByNameOrderedTail(s: seq<Agent>)
    requires s != [] && ByNameOrdered(s)
    ensures ByNameOrdered(s[1..])
  {
    forall i, j | 0 <= i < j < |s[1..]| ensures LexLe(s[1..][i].name, s[1..][j].name) {
      assert s[1..][i] == s[i + 1] && s[1..][j] == s[j + 1];
    }
  }

  /** Names of distinct positions differ. */
  predicate DistinctNames(s: seq<Agent>) {
    forall i, j :: 0 <= i < j < |s| ==> s[i].name != s[j].name
  }

  lemma SameHead(s: seq<Agent>, t: seq<Agent>)
    requires s != [] && ByNameOrdered(s) && ByNameOrdered(t) && multiset(s) == multiset(t)
    requires DistinctNames(s)
    ensures t != [] && s[0] == t[0]
  {
    assert s[0] in multiset(t);
    assert t[0] in multiset(s);
    if s[0] != t[0] {
      var i :| 0 <= i < |s| && s[i] == t[0];
      var j :| 0 <= j < |t| && t[j] == s[0];
      LexLeTransitive(s[0].name, s[i].name, t[j].name);
      LexLeAntisymmetric(s[0].name, s[i].name);
      assert false;
    }
  }

  lemma SameTail(s: seq<Agent>, t: seq<Agent>)
    requires s != [] && t != [] && s[0] == t[0] && multiset(s) == multiset(t)
    requires DistinctNames(s)
    ensures multiset(s[1..]) == multiset(t[1..]) && DistinctNames(s[1..])
  {
    assert s == [s[0]] + s[1..] && t == [t[0]] + t[1..];
    assert multiset(s) == multiset{s[0]} + multiset(s[1..]);
    assert multiset(t) == multiset{t[0]} + multiset(t[1..]);
    assert multiset(s[1..]) == multiset(s) - multiset{s[0]};
    assert multiset(t[1..]) == multiset(t) - multiset{t[0]};
    forall i, j | 0 <= i < j < |s[1..]| ensures s[1..][i].name != s[1..][j].name {
      assert s[1..][i] == s[i + 1] && s[1..][j] == s[j + 1];
    }
  }

  /** With distinct names the ascending order is unique: any two orderings of the
      same agents by name are the same list. */
  lemma {:induction false} ByNameUnique(s: seq<Agent>, t: seq<Agent>)
    requires ByNameOrdered(s) && ByNameOrdered(t) && multiset(s) == multiset(t)
    requires DistinctNames(s)
    ensures s == t
    decreases |s|
  {
    if s == [] {
      assert |t| == |multiset(t)| == 0;
    } else {
      SameHead(s, t);
      SameTail(s, t);
      ByNameOrderedTail(s);
      ByNameOrderedTail(t);
      ByNameUnique(s[1..], t[1..]);
      assert s == [s[0]] + s[1..] && t == [t[0]] + t[1..];
    }
  }

  /** The `delete` action; `reachable` is false when the transaction fails for a reason
      other than a missing agent, and then nothing changes. */
  method Delete(store: Store, agentId: Option<string>, reachable: bool) returns (r: DeleteOutcome)
    requires store.Valid()
    modifies store
    ensures store.Valid()
    ensures !Truthy(agentId) ==>
      r == DeleteFailed(400, InvalidId) && store.properties == old(store.properties) && store.agents == old(store.agents)
    ensures Truthy(agentId) && !reachable ==>
      r == DeleteFailed(500, DeleteError) && store.properties == old(store.properties) && store.agents == old(store.agents)
    ensures Truthy(agentId) && reachable && agentId.value !in old(store.agents) ==>
      r == DeleteFailed(404, NotFound) && store.properties == old(store.properties) && store.agents == old(store.agents)
    ensures Truthy(agentId) && reachable && agentId.value in old(store.agents) ==>
      && r == Deleted(old(store.agents)[agentId.value].name)
      && store.agents == old(store.agents) - {agentId.value}
      && store.properties == (map pid | pid in old(store.properties) :: Unassigned(old(store.properties)[pid], agentId.value))
  {
    if !Truthy(agentId) {
      return DeleteFailed(400, InvalidId);
    }
    if !reachable {
      return DeleteFailed(500, DeleteError);
    }
    var deleted := store.DeleteAgentUnassigning(agentId.value);
    if deleted.Some? {
      r := Deleted(deleted.value.name);
    } else {
      r := DeleteFailed(404, NotFound);
    }
  }

  /** After the transaction no property refers to the deleted agent, and every other
      property keeps its agent. */
  lemma UnassignEffect(before: map<string, Property>, agentId: string)
    ensures var after := map pid | pid in before :: Unassigned(before[pid], agentId);
      && after.Keys == before.Keys
      && (forall pid :: pid in after ==> after[pid].agentId != Some(agentId))
      && (forall pid :: pid in after && before[pid].agentId != Some(agentId) ==> after[pid] == before[pid])
  {
  }
}
