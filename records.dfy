/**
 * The Record Store: the two tables of the database (properties and agents) held in
 * memory, keyed by id, with the uniqueness and foreign-key constraints the database
 * enforces. Each method is one database statement or one transaction and is atomic.
 */
module Records {
  import opened Wrappers

  /** A row of the Property table. `latitude`/`longitude` are floating-point values kept
      opaque; `createdAt` is the creation timestamp used for ordering. */
  datatype Property = Property(
    id: string,
    slug: string,
    title: string,
    address: string,
    price: int,
    beds: Option<int>,
    baths: Option<int>,
    area: Option<int>,
    yearBuilt: Option<int>,
    propertyType: Option<string>,
    description: Option<string>,
    videoUrl: Option<string>,
    latitude: Option<real>,
    longitude: Option<real>,
    imageUrl: Option<string>,
    galleryImages: seq<string>,
    features: seq<string>,
    isFeatured: bool,
    createdAt: int,
    agentId: Option<string>)

  /** A row of the Agent table. */
  datatype Agent = Agent(
    id: string,
    name: string,
    email: string,
    phone: Option<string>,
    imageUrl: Option<string>)

  /** The property as `updateMany({ where: { agentId }, data: { agentId: null } })` leaves it. */
  function Unassigned(p: Property, agentId: string): (q: Property)
    ensures q.agentId != Some(agentId)
    ensures p.agentId != Some(agentId) ==> q == p
    ensures q.(agentId := p.agentId) == p
  {
    if p.agentId == Some(agentId) then p.(agentId := None) else p
  }

  class Store {
    var properties: map<string, Property>
    var agents: map<string, Agent>

    /** Rows are stored under their own id; slugs and e-mails are unique; every agent
        reference points at an existing agent. */
    ghost predicate Valid()
      reads this
    {
      && (forall id :: id in properties ==> properties[id].id == id)
      && (forall id :: id in agents ==> agents[id].id == id)
      && (forall i, j :: i in properties && j in properties && properties[i].slug == properties[j].slug ==> i == j)
      && (forall i, j :: i in agents && j in agents && agents[i].email == agents[j].email ==> i == j)
      && (forall id :: id in properties && properties[id].agentId.Some? ==> properties[id].agentId.value in agents)
    }

    constructor ()
      ensures Valid()
      ensures properties == map[] && agents == map[]
    {
      properties := map[];
      agents := map[];
    }

    /** The slugs in use (`findUnique({ where: { slug } })` finds a row exactly for these). */
    function Slugs(): set<string>
      reads this
    {
      set id | id in properties :: properties[id].slug
    }

    /** The e-mail addresses in use by agents. */
    function Emails(): set<string>
      reads this
    {
      set id | id in agents :: agents[id].email
    }

    /** The database accepts a new property row: fresh id, free slug, and an agent
        reference (if any) to an existing agent. */
    predicate CanInsertProperty(p: Property)
      reads this
    {
      && p.id !in properties
      && p.slug !in Slugs()
      && (p.agentId.Some? ==> p.agentId.value in agents)
    }

    /** `prisma.property.create`: adds the row, or changes nothing when a constraint fails. */
    method InsertProperty(p: Property) returns (ok: bool)
      requires Valid()
      modifies this
      ensures Valid()
      ensures ok <==> old(CanInsertProperty(p))
      ensures properties == if ok then old(properties)[p.id := p] else old(properties)
      ensures agents == old(agents)
    {
      ok := CanInsertProperty(p);
      if ok {
        properties := properties[p.id := p];
      }
    }

    /** `prisma.property.delete({ where: { id } })`: the removed row, or `None` (P2025)
        when there is none. */
    method DeleteProperty(id: string) returns (deleted: Option<Property>)
      requires Valid()
      modifies this
      ensures Valid()
      ensures deleted == if id in old(properties) then Some(old(properties)[id]) else None
      ensures properties == old(properties) - {id}
      ensures agents == old(agents)
    {
      if id in properties {
        deleted := Some(properties[id]);
        properties := properties - {id};
      } else {
        deleted := None;
      }
    }

    /** `prisma.property.update({ where: { id }, data: { isFeatured } })`: the updated row,
        or `None` (P2025) when there is none. */
    method SetFeatured(id: string, featured: bool) returns (updated: Option<Property>)
      requires Valid()
      modifies this
      ensures Valid()
      ensures id in old(properties) ==>
        && updated == Some(old(properties)[id].(isFeatured := featured))
        && properties == old(properties)[id := updated.value]
      ensures id !in old(properties) ==> updated == None && properties == old(properties)
      ensures agents == old(agents)
    {
      if id in properties {
        var p := properties[id].(isFeatured := featured);
        properties := properties[id := p];
        updated := Some(p);
      } else {
        updated := None;
      }
    }

    /** The database accepts a new agent row: fresh id and unused e-mail. */
    predicate CanInsertAgent(a: Agent)
      reads this
    {
      a.id !in agents && a.email !in Emails()
    }

    /** `prisma.agent.create`: adds the row, or changes nothing when a constraint fails. */
    method InsertAgent(a: Agent) returns (ok: bool)
      requires Valid()
      modifies this
      ensures Valid()
      ensures ok <==> old(CanInsertAgent(a))
      ensures agents == if ok then old(agents)[a.id := a] else old(agents)
      ensures properties == old(properties)
    {
      ok := CanInsertAgent(a);
      if ok {
        agents := agents[a.id := a];
      }
    }

    /** The two-statement transaction of the staff page: (1) every property of the agent
        gets a null agent, (2) the agent row is deleted. When step (2) finds no row
        (P2025) the transaction rolls back and step (1) is undone. */
    method DeleteAgentUnassigning(id: string) returns (deleted: Option<Agent>)
      requires Valid()
      modifies this
      ensures Valid()
      ensures deleted == if id in old(agents) then Some(old(agents)[id]) else None
      ensures deleted.Some? ==>
        && properties == (map pid | pid in old(properties) :: Unassigned(old(properties)[pid], id))
        && agents == old(agents) - {id}
      ensures deleted.None? ==> properties == old(properties) && agents == old(agents)
    {
      // step (1), staged inside the transaction
      var staged := map pid | pid in properties :: Unassigned(properties[pid], id);
      // step (2)
      if id in agents {
        deleted := Some(agents[id]);
        properties := staged;
        agents := agents - {id};
      } else {
        // rollback: the staged update is discarded
        deleted := None;
      }
    }
  }
}
