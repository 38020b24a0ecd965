# Label-partitioned full-text index procedures

This project models the full-text index procedures of a Neo4j stored-procedure plugin and proves what they do. The procedures are `com.aaman.neo4j.index`, `com.aaman.neo4j.search`, `getNodeProps` and `getRelProps`.

- `index(nodeId, propKeys)` keeps one legacy index per node label up to date.
- `search(label, query)` runs a query against the index of one label.
- `getNodeProps` and `getRelProps` take a list of entities and return the value of one named property for each of them.

The host database is represented by plain values:

- **Node store:** a map from node id to a `NodeRecord`, which holds the node's set of labels and its property map (module `Graph`).
- **Legacy index store:** a map from index name to a `LegacyIndex`, which holds the configuration the index was created with and a set of postings. A posting is one `(node, key, value)` entry (module `LegacyIndexes`).
  - `index.remove(node)` drops every posting of that node.
  - `index.add(node, key, value)` inserts one posting.
  - A node's document in an index is the set of `(key, value)` fields of its postings.
- **Query engine:** the Lucene evaluator is a parameter `matches(query, document)` whose behaviour is left open.

The class `FullText.FullTextIndex` stands for the procedure class with its injected database. Its fields are `nodes` and `indexes`.

- `Index` updates the `indexes` field in place. It has a loop over the node's labels and, nested inside it, a loop over the fetched properties. It is proved equal to the specification function `FullText.Synced`, and the properties of the source are proved as lemmas about `Synced`.
- `Search` has no `modifies` clause, so it cannot create an index.

Labels and property entries are visited in an arbitrary order (`:|`), because the source iterates over sets. The result does not depend on that order. In the label loop, distinct labels name distinct indexes, so each step touches a different index. In the property loop, the postings of an index form a set, so the order of the `add` calls makes no difference, as the exact `ensures` of `ReindexLabel` shows.

## Model

| member | source | states |
|---|---|---|
| `FullText.IndexName` | src/main/java/com/aaman/neo4j/FullTextIndex.java:200-203 | The index name of a label is the prefix `label-` followed by the label itself. |
| `FullText.IndexNameInjective` | src/main/java/com/aaman/neo4j/FullTextIndex.java:200-203 | Two labels have the same index name if and only if they are the same label. |
| `FullText.InIndexNames` | src/main/java/com/aaman/neo4j/FullTextIndex.java:149-151 | A label's index is among the indexes of a label set exactly when the label is in the set. |
| `FullText.FullTextIndex.constructor` | src/main/java/com/aaman/neo4j/FullTextIndex.java:49-57 | The procedures work over the node store and index store handed to them by the host. |
| `FullText.FullTextIndex.Search` | src/main/java/com/aaman/neo4j/FullTextIndex.java:94-115 | If the label has no index, the result is empty, and nothing is created because the method modifies nothing. Otherwise the result holds exactly one `SearchHit` per node whose document the engine matches. No node id appears twice. |
| `FullText.FullTextIndex.Index` | src/main/java/com/aaman/neo4j/FullTextIndex.java:137-163 | An unknown node id fails with `NodeNotFound` and leaves the store unchanged. Otherwise the new index store is exactly `Synced` of the old store, the node's labels and the fetched properties. |
| `FullText.FullTextIndex.ReindexLabel` | src/main/java/com/aaman/neo4j/FullTextIndex.java:151-161 | For one label: the index is fetched or created with the full-text configuration. The node's postings are removed, one posting is added per fetched property, and no other index changes. |
| `FullText.SyncedStep` | src/main/java/com/aaman/neo4j/FullTextIndex.java:149-161 | Processing one more label (get or create its index, remove the node, add the fetched properties) extends the synchronised store by exactly that label's index. |
| `FullText.DocumentOfWritten` | src/main/java/com/aaman/neo4j/FullTextIndex.java:153-161 | After remove-then-add, the node's document in an index is exactly the fetched `(key, value)` pairs. |
| `FullText.ResyncedIdempotent` | src/main/java/com/aaman/neo4j/FullTextIndex.java:153-161 | Resynchronising a node in one index twice with the same properties gives the same index as doing it once. |
| `FullText.SyncCreatesLabelIndexes` | src/main/java/com/aaman/neo4j/FullTextIndex.java:149-151 | After `index`, the index of every label on the node exists. One that was absent has the full-text configuration `{provider: lucene, type: fulltext}`. One that existed keeps its configuration. |
| `FullText.SyncReplacesEntries` | src/main/java/com/aaman/neo4j/FullTextIndex.java:142-161 | After `index`, the node has posting `(k, v)` in a label's index if and only if k was requested, the node has k, and v is its value. Missing keys are skipped without error, earlier postings are gone, and every label gets the same set. |
| `FullText.SyncIdempotent` | src/main/java/com/aaman/neo4j/FullTextIndex.java:117-121 | Indexing the same node state with the same keys twice leaves the same store as indexing it once. |
| `FullText.SyncFrame` | src/main/java/com/aaman/neo4j/FullTextIndex.java:148-162 | `index` adds only the indexes of the node's labels. The index of any other label is unchanged, including stale postings of the node. In every index, every other node's document is unchanged. |
| `FullText.SearchAfterSync` | src/main/java/com/aaman/neo4j/FullTextIndex.java:108-114 | Right after `index`, the node is a hit in one of its labels' indexes if and only if some property was written and the engine matches the newly written fields. Earlier contents play no part. |
| `FullText.FullTextIndex.GetNodeProps` | src/main/java/com/aaman/neo4j/FullTextIndex.java:206-221 | The result has one element per node, in the same order. Element i is node i's value for the property, or `None` (null) when node i lacks it. |
| `FullText.FullTextIndex.GetRelProps` | src/main/java/com/aaman/neo4j/FullTextIndex.java:223-238 | The result has one element per relationship, in the same order. Element i is relationship i's value for the property, or `None` (null) when relationship i lacks it. |

## Left out

- Lucene query parsing, scoring and ranking are not modelled. A query is an arbitrary predicate over a node's document, and no order of hits is promised.
- IndexName, Search, Index, GetNodeProps, GetRelProps: Java `null` arguments are not modelled, because the Dafny `string` and `seq` types cannot be null. In the source, `search(null, q)` queries the index `label-null` (string concatenation of `null`), so the naming rule is not injective over Java's domain once `null` is counted. `getNodeProps(null, p)` and `getRelProps(null, p)`, or a `null` element in their list, throw a `NullPointerException`. `index(id, null)` throws after the node lookup and before any write, which leaves the store unchanged.
- The debug log call in `search` is a diagnostic side effect with no effect on results. It is left out.
- `getNodeById` raising `NotFoundException` is modelled as the outcome `NodeNotFound`. The store is left unchanged in that case, as the exception is raised before any write.
- An existing index whose stored configuration differs from the full-text configuration is not modelled. The host's index manager would reject such a `forNodes` call; here the existing index is reused with its own configuration.
- Transactions, procedure registration and modes, and the injection of the database handle and logger are host plumbing and are not modelled. The source declares `search` with a write mode as a workaround, but it writes nothing.
- Concurrency between a writer and readers is not modelled. For example, a search that runs between `remove` and `add` is not captured, because every call is atomic here.
- Property values are limited to booleans, longs and strings. Doubles and arrays are not modelled, because no operation here looks inside a value. Node ids are unbounded integers; the source uses Java `long`, but ids are only compared.
- `getNodeProps` and `getRelProps` wrap their list in a single `ListResult` record. ListResult.java is not part of this model, so the methods return the list itself.
- `CyphertoJSON` is not modelled. It is JSON generation through Jackson over a fixed Cypher query inside a transaction, which is I/O and library glue.
- JungGraph.java, JungNeo4JProc.java and StringResult.java are not part of this model. They hold graph layout, rendering and serialisation through external libraries, and a one-field result record.
