/**
 * The parts of the host graph database that the full-text procedures read:
 * property values, nodes with their labels and properties, relationships,
 * and the store that resolves a node id to a node.
 */
module Graph {

  /** A node id; the host uses a Java `long`, and ids are only compared here. */
  type NodeId = int

  /** A property value. The host also allows doubles and arrays; see README. */
  datatype Value =
    | BoolValue(b: bool)
    | LongValue(n: int)
    | StringValue(s: string)

  /** `null` in the host API is `None`. */
  datatype Option<+T> = None | Some(value: T)

  /** A node: its current labels and its property map. */
  datatype NodeRecord = NodeRecord(labels: set<string>, props: map<string, Value>)

  /** A relationship: its type and its property map. */
  datatype RelationshipRecord = RelationshipRecord(relType: string, props: map<string, Value>)

  /** What `getNodeById` resolves against. */
  type NodeStore = map<NodeId, NodeRecord>

  /**
   * `getProperties(keys...)`: the bulk fetch returns only those requested keys
   * that the node actually has, each with its value.
   */
  function GetProperties(node: NodeRecord, keys: seq<string>): map<string, Value>
  {
    map k | k in node.props && k in keys :: node.props[k]
  }

  /** `getProperty(key, null)`: the value, or `null` when the key is absent. */
  function PropertyOrNull(props: map<string, Value>, key: string): Option<Value>
  {
    if key in props then Some(props[key]) else None
  }
}
