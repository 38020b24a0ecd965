/**
 * The host's legacy node index store, as far as the full-text procedures use it.
 * An index is a named set of postings; a posting says that node `node` was
 * added under `field.key` with `field.value`. The text engine that evaluates a
 * query against a node's document is external and is passed in as `matches`.
 */
module LegacyIndexes {
  import opened Graph

  datatype Field = Field(key: string, value: Value)

  datatype Posting = Posting(node: NodeId, field: Field)

  /** One legacy index: the configuration it was created with, and its postings. */
  datatype LegacyIndex = LegacyIndex(config: map<string, string>, postings: set<Posting>)

  /** Index name to index, as kept by the index manager. */
  type IndexStore = map<string, LegacyIndex>

  /** The external query evaluator: does this document satisfy this query text? */
  type Matcher = (string, set<Field>) -> bool

  /** The index `name`, or the empty index a `forNodes(name, config)` would create. */
  function GetOrCreate(store: IndexStore, name: string, config: map<string, string>): LegacyIndex
  {
    if name in store then store[name] else LegacyIndex(config, {})
  }

  /** `forNodes(name, config)`: gets the index, creating it with `config` when absent. */
  function ForNodes(store: IndexStore, name: string, config: map<string, string>): IndexStore
  {
    if name in store then store else store[name := LegacyIndex(config, {})]
  }

  /** Every posting except those of node `id`. */
  function WithoutNode(postings: set<Posting>, id: NodeId): set<Posting>
  {
    set p | p in postings && p.node != id
  }

  /** `index.remove(node)`: drops every posting of the node from index `name`. */
  function RemoveNode(store: IndexStore, name: string, id: NodeId): IndexStore
    requires name in store
  {
    store[name := store[name].(postings := WithoutNode(store[name].postings, id))]
  }

  /** `index.add(node, key, value)`: adds one posting to index `name`. */
  function AddEntry(store: IndexStore, name: string, id: NodeId, key: string, value: Value): IndexStore
    requires name in store
  {
    store[name := store[name].(postings := store[name].postings + {Posting(id, Field(key, value))})]
  }

  /** The document of node `id` in an index: the fields it was added under. */
  function DocumentOf(postings: set<Posting>, id: NodeId): set<Field>
  {
    set p | p in postings && p.node == id :: p.field
  }

  /** The nodes that have at least one posting, i.e. a document, in the index. */
  function IndexedNodes(postings: set<Posting>): set<NodeId>
  {
    set p | p in postings :: p.node
  }

  /** The nodes whose document the engine reports as matching `query`. */
  function QueryHits(postings: set<Posting>, query: string, matches: Matcher): set<NodeId>
  {
    set n | n in IndexedNodes(postings) && matches(query, DocumentOf(postings, n))
  }
}
