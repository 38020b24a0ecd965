/**
 * The label-partitioned full-text index procedures: `index` keeps one legacy
 * index per node label up to date, `search` queries the index of one label,
 * and `getNodeProps` / `getRelProps` project one property out of a list of
 * entities.
 */
module FullText {
  import opened Graph
  import opened LegacyIndexes

  /** The configuration a per-label index is created with. */
  const FULL_TEXT: map<string, string> := map["provider" := "lucene", "type" := "fulltext"]

  /** The name of the index that holds the nodes carrying `label`. */
  function IndexName(lbl: string): (name: string)
    ensures 6 <= |name| && name[..6] == "label-" && name[6..] == lbl
  {
    "label-" + lbl
  }

  /** The index names of a set of labels. */
  function IndexNames(labels: set<string>): set<string>
  {
    set l | l in labels :: IndexName(l)
  }

  /** Distinct labels never share an index. */
  lemma IndexNameInjective(a: string, b: string)
    ensures IndexName(a) == IndexName(b) <==> a == b
  {
  }

  lemma InIndexNames(lbl: string, labels: set<string>)
    ensures IndexName(lbl) in IndexNames(labels) <==> lbl in labels
  {
  }

  /** The postings `index` writes for node `id`: one per fetched property. */
  function DocumentPostings(id: NodeId, fields: map<string, Value>): set<Posting>
  {
    set k | k in fields :: Posting(id, Field(k, fields[k]))
  }

  /** One label's index after `remove(node)` and one `add` per fetched property. */
  function Resynced(idx: LegacyIndex, id: NodeId, fields: map<string, Value>): LegacyIndex
  {
    idx.(postings := WithoutNode(idx.postings, id) + DocumentPostings(id, fields))
  }

  /**
   * The index store after node `id`, carrying `labels`, has been written with
   * the fetched properties `fields`: the index of every label is got or created,
   * then resynchronised; every other index is as it was.
   */
  function Synced(store: IndexStore, id: NodeId, labels: set<string>, fields: map<string, Value>): IndexStore
  {
    var names := IndexNames(labels);
    map name | name in store.Keys + names ::
      if name in names then Resynced(GetOrCreate(store, name, FULL_TEXT), id, fields) else store[name]
  }

  /** Handling one more label updates that label's index and nothing else. */
  lemma SyncedStep(store: IndexStore, id: NodeId, done: set<string>, lbl: string, fields: map<string, Value>)
    requires lbl !in done
    ensures var before := Synced(store, id, done, fields);
            var name := IndexName(lbl);
            Synced(store, id, done + {lbl}, fields)
              == before[name := Resynced(GetOrCreate(before, name, FULL_TEXT), id, fields)]
  {
  }

  /** The fields `index` writes are exactly the requested keys the node has. */
  lemma DocumentOfWritten(postings: set<Posting>, id: NodeId, fields: map<string, Value>)
    ensures DocumentOf(WithoutNode(postings, id) + DocumentPostings(id, fields), id)
         == set k | k in fields :: Field(k, fields[k])
  {
  }

  /** Resynchronising twice with the same fields is resynchronising once. */
  lemma ResyncedIdempotent(idx: LegacyIndex, id: NodeId, fields: map<string, Value>)
    ensures Resynced(Resynced(idx, id, fields), id, fields) == Resynced(idx, id, fields)
  {
  }

  /**
   * After `index`, the index of every label on the node exists; one that was
   * absent has been created with the full-text configuration, one that existed
   * keeps its configuration.
   */
  lemma SyncCreatesLabelIndexes(store: IndexStore, id: NodeId, labels: set<string>, fields: map<string, Value>)
    ensures forall l | l in labels ::
      IndexName(l) in Synced(store, id, labels, fields) &&
      Synced(store, id, labels, fields)[IndexName(l)].config
        == (if IndexName(l) in store then store[IndexName(l)].config else FULL_TEXT)
  {
  }

  /**
   * Replacement, not merge: after `index`, node `id` has in the index of each
   * of its labels the posting (k, v) exactly when k was requested, the node has
   * k, and v is its value; earlier postings of the node are gone, and the
   * document is the same under every label.
   */
  lemma SyncReplacesEntries(store: IndexStore, id: NodeId, node: NodeRecord, keys: seq<string>)
    ensures var after := Synced(store, id, node.labels, GetProperties(node, keys));
      forall l, k, v | l in node.labels ::
        && IndexName(l) in after
        && (Posting(id, Field(k, v)) in after[IndexName(l)].postings <==>
              k in keys && k in node.props && v == node.props[k])
  {
    var fields := GetProperties(node, keys);
    var after := Synced(store, id, node.labels, fields);
    forall l, k, v | l in node.labels
      ensures IndexName(l) in after
      ensures Posting(id, Field(k, v)) in after[IndexName(l)].postings <==>
                k in keys && k in node.props && v == node.props[k]
    {
      InIndexNames(l, node.labels);
      var p := Posting(id, Field(k, v));
      if p in after[IndexName(l)].postings {
        assert p !in WithoutNode(GetOrCreate(store, IndexName(l), FULL_TEXT).postings, id);
        assert p in DocumentPostings(id, fields);
        assert k in fields && fields[k] == v;
      }
      if k in keys && k in node.props && v == node.props[k] {
        assert k in fields && fields[k] == v;
        assert p in DocumentPostings(id, fields);
      }
    }
  }

  /** Calling `index` twice with the same node state and keys is calling it once. */
  lemma SyncIdempotent(store: IndexStore, id: NodeId, labels: set<string>, fields: map<string, Value>)
    ensures Synced(Synced(store, id, labels, fields), id, labels, fields) == Synced(store, id, labels, fields)
  {
    var once := Synced(store, id, labels, fields);
    var twice := Synced(once, id, labels, fields);
    var names := IndexNames(labels);
    assert twice.Keys == once.Keys;
    forall name | name in once
      ensures twice[name] == once[name]
    {
      if name in names {
        ResyncedIdempotent(GetOrCreate(store, name, FULL_TEXT), id, fields);
      }
    }
  }

  /**
   * `index` touches nothing else: the store gains only the indexes of the
   * node's labels; an index of a label the node does not carry (now or any
   * more) is unchanged, stale postings of the node included; and in every index
   * the documents of all other nodes are unchanged.
   */
  lemma SyncFrame(store: IndexStore, id: NodeId, labels: set<string>, fields: map<string, Value>)
    ensures var after := Synced(store, id, labels, fields);
      && after.Keys == store.Keys + IndexNames(labels)
      && (forall name | name in store && name !in IndexNames(labels) :: after[name] == store[name])
      && (forall name, m | name in after && m != id ::
            DocumentOf(after[name].postings, m)
              == DocumentOf(GetOrCreate(store, name, FULL_TEXT).postings, m))
  {
  }

  /**
   * Searching right after `index`: the node is a hit in any of its labels'
   * indexes exactly when some requested property was written and the engine
   * matches the freshly written fields; what was indexed before plays no part.
   */
  lemma SearchAfterSync(store: IndexStore, id: NodeId, labels: set<string>, fields: map<string, Value>,
                        lbl: string, query: string, matches: Matcher)
    requires lbl in labels
    ensures var after := Synced(store, id, labels, fields);
      && IndexName(lbl) in after
      && (id in QueryHits(after[IndexName(lbl)].postings, query, matches) <==>
            |fields| > 0 && matches(query, set k | k in fields :: Field(k, fields[k])))
  {
    var after := Synced(store, id, labels, fields);
    var name := IndexName(lbl);
    InIndexNames(lbl, labels);
    var before := GetOrCreate(store, name, FULL_TEXT).postings;
    var now := after[name].postings;
    DocumentOfWritten(before, id, fields);
    if |fields| > 0 {
      var k :| k in fields;
      assert Posting(id, Field(k, fields[k])) in now;
    }
    if id in IndexedNodes(now) {
      var p :| p in now && p.node == id;
      assert p in DocumentPostings(id, fields);
    }
  }

  /** The node ids carried by a list of hits. */
  function HitIds(hits: seq<SearchHit>): set<NodeId>
  {
    set h | h in hits :: h.nodeId
  }

  /** The record `search` returns per found node. */
  datatype SearchHit = SearchHit(nodeId: NodeId)

  /** How a call of `index` ended: normally, or because the node id is unknown. */
  datatype IndexOutcome = Indexed | NodeNotFound

  /** The procedures, over the graph database handed to them by the host. */
  class FullTextIndex {
    var nodes: NodeStore
    var indexes: IndexStore

    constructor (nodes: NodeStore, indexes: IndexStore)
      ensures this.nodes == nodes && this.indexes == indexes
    {
      this.nodes := nodes;
      this.indexes := indexes;
    }

    /**
     * `search(label, query)`: with no index for the label, no hits (and, since
     * nothing is modified, no index is created); otherwise one hit per node
     * whose document the engine matches, in no promised order.
     */
    method Search(lbl: string, query: string, matches: Matcher) returns (hits: seq<SearchHit>)
      ensures IndexName(lbl) !in indexes ==> hits == []
      ensures IndexName(lbl) in indexes ==>
        HitIds(hits) == QueryHits(indexes[IndexName(lbl)].postings, query, matches)
      ensures forall i, j | 0 <= i < j < |hits| :: hits[i].nodeId != hits[j].nodeId
    {
      var name := IndexName(lbl);
      if name !in indexes {
        return [];
      }
      var found := QueryHits(indexes[name].postings, query, matches);
      var pending := found;
      hits := [];
      while pending != {}
        invariant HitIds(hits) + pending == found
        invariant HitIds(hits) !! pending
        invariant forall i, j | 0 <= i < j < |hits| :: hits[i].nodeId != hits[j].nodeId
        decreases pending
      {
        var n :| n in pending;
        hits := hits + [SearchHit(n)];
        pending := pending - {n};
      }
    }

    /**
     * `index(nodeId, propKeys)`: fails when the node does not exist; otherwise,
     * for every label of the node, gets or creates that label's index, removes
     * the node from it and adds one posting per requested property the node has.
     */
    method Index(nodeId: NodeId, propKeys: seq<string>) returns (outcome: IndexOutcome)
      modifies this`indexes
      ensures outcome == NodeNotFound <==> nodeId !in nodes
      ensures outcome == NodeNotFound ==> indexes == old(indexes)
      ensures outcome == Indexed ==>
        indexes == Synced(old(indexes), nodeId, nodes[nodeId].labels, GetProperties(nodes[nodeId], propKeys))
    {
      if nodeId !in nodes {
        return NodeNotFound;
      }
      var node := nodes[nodeId];
      var properties := GetProperties(node, propKeys);
      var pending := node.labels;
      while pending != {}
        invariant pending <= node.labels
        invariant indexes == Synced(old(indexes), nodeId, node.labels - pending, properties)
        decreases pending
      {
        var lbl :| lbl in pending;
        ReindexLabel(IndexName(lbl), nodeId, properties);
        SyncedStep(old(indexes), nodeId, node.labels - pending, lbl, properties);
        assert indexes == Synced(old(indexes), nodeId, node.labels - pending + {lbl}, properties);
        assert node.labels - pending + {lbl} == node.labels - (pending - {lbl});
        pending := pending - {lbl};
      }
      assert node.labels - {} == node.labels;
      return Indexed;
    }

    /**
     * The body of the label loop of `index`: gets or creates the index `name`,
     * removes the node from it, then adds one posting per fetched property.
     */
    method ReindexLabel(name: string, nodeId: NodeId, properties: map<string, Value>)
      modifies this`indexes
      ensures indexes == old(indexes)[name := Resynced(GetOrCreate(old(indexes), name, FULL_TEXT), nodeId, properties)]
    {
      indexes := ForNodes(indexes, name, FULL_TEXT);
      indexes := RemoveNode(indexes, name, nodeId);
      ghost var cleared := indexes[name];
      var toAdd := properties.Keys;
      ghost var written: set<Posting> := {};
      assert properties.Keys - toAdd == {};
      assert cleared.postings + written == cleared.postings;
      while toAdd != {}
        invariant toAdd <= properties.Keys
        invariant written == set k | k in properties.Keys - toAdd :: Posting(nodeId, Field(k, properties[k]))
        invariant indexes == old(indexes)[name := LegacyIndex(cleared.config, cleared.postings + written)]
        decreases toAdd
      {
        var key :| key in toAdd;
        ghost var posting := Posting(nodeId, Field(key, properties[key]));
        assert cleared.postings + written + {posting} == cleared.postings + (written + {posting});
        indexes := AddEntry(indexes, name, nodeId, key, properties[key]);
        written := written + {posting};
        toAdd := toAdd - {key};
        assert properties.Keys - toAdd == (properties.Keys - (toAdd + {key})) + {key};
      }
      assert properties.Keys - {} == properties.Keys;
    }

    /**
     * `getNodeProps(nodes, property)`: the value of `property` on each node, in
     * order, with `None` for a node that lacks it.
     */
    method GetNodeProps(entities: seq<NodeRecord>, property: string) returns (props: seq<Option<Value>>)
      ensures |props| == |entities|
      ensures forall i | 0 <= i < |entities| ::
        props[i] == (if property in entities[i].props then Some(entities[i].props[property]) else None)
    {
      props := [];
      if |entities| > 0 {
        props := props + [PropertyOrNull(entities[0].props, property)];
        var i := 1;
        while i < |entities|
          invariant 1 <= i <= |entities|
          invariant |props| == i
          invariant forall j | 0 <= j < i ::
            props[j] == (if property in entities[j].props then Some(entities[j].props[property]) else None)
        {
          props := props + [PropertyOrNull(entities[i].props, property)];
          i := i + 1;
        }
      }
    }

    /**
     * `getRelProps(rels, property)`: the value of `property` on each
     * relationship, in order, with `None` for one that lacks it.
     */
    method GetRelProps(rels: seq<RelationshipRecord>, property: string) returns (props: seq<Option<Value>>)
      ensures |props| == |rels|
      ensures forall i | 0 <= i < |rels| ::
        props[i] == (if property in rels[i].props then Some(rels[i].props[property]) else None)
    {
      props := [];
      if |rels| > 0 {
        props := props + [PropertyOrNull(rels[0].props, property)];
        var i := 1;
        while i < |rels|
          invariant 1 <= i <= |rels|
          invariant |props| == i
          invariant forall j | 0 <= j < i ::
            props[j] == (if property in rels[j].props then Some(rels[j].props[property]) else None)
        {
          props := props + [PropertyOrNull(rels[i].props, property)];
          i := i + 1;
        }
      }
    }
  }
}
