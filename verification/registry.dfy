/** The node registry of src/registry/registry.ts: an in-memory list of
    `{ nodeId, pubKey }` records that relays append to and senders read. */
module Registry {

  /** `type Node = { nodeId: number; pubKey: string }`. */
  datatype Node = Node(nodeId: int, pubKey: string)

  /** `nodeRegistryBody`: the registered nodes, oldest first. */
  datatype NodeRegistry = NodeRegistry(nodes: seq<Node>)

  /** The answer of `registerNode` together with the registry it leaves. */
  datatype Registered = Registered(registry: NodeRegistry, result: string)

  /** The registry as the service starts. */
  function Launch(): (r: NodeRegistry)
    ensures |r.nodes| == 0
  {
    NodeRegistry([])
  }

  /** `registerNode`: appends one record and answers "ok". There is no
      validation: a `nodeId` that is already registered is added again. */
  function RegisterNode(registry: NodeRegistry, nodeId: int, pubKey: string): (r: Registered)
    ensures |r.registry.nodes| == |registry.nodes| + 1
    ensures r.registry.nodes[..|registry.nodes|] == registry.nodes
    ensures r.registry.nodes[|registry.nodes|] == Node(nodeId, pubKey)
    ensures r.result == "ok"
  {
    Registered(NodeRegistry(registry.nodes + [Node(nodeId, pubKey)]), "ok")
  }

  /** `getNodeRegistry`: the whole list, in registration order. */
  function GetNodeRegistry(registry: NodeRegistry): (nodes: seq<Node>)
    ensures |nodes| == |registry.nodes|
    ensures forall i :: 0 <= i < |nodes| ==> nodes[i] == registry.nodes[i]
  {
    registry.nodes
  }

  /** The registry after a series of registrations, applied in order. */
  function RegisterAll(registry: NodeRegistry, requests: seq<Node>): NodeRegistry
    decreases |requests|
  {
    if |requests| == 0 then registry
    else RegisterAll(RegisterNode(registry, requests[0].nodeId, requests[0].pubKey).registry, requests[1..])
  }

  /** Registration is append-only: a series of registrations keeps every earlier
      record in place and adds the new ones after them, in request order. */
  lemma {:induction false} RegisterAllAppends(registry: NodeRegistry, requests: seq<Node>)
    ensures GetNodeRegistry(RegisterAll(registry, requests)) == registry.nodes + requests
    decreases |requests|
  {
    if |requests| > 0 {
      var next := RegisterNode(registry, requests[0].nodeId, requests[0].pubKey).registry;
      RegisterAllAppends(next, requests[1..]);
      assert next.nodes + requests[1..] == registry.nodes + requests;
    }
  }

  /** Starting from the empty registry, a read returns exactly the records
      registered so far, oldest first; in particular two reads with no
      registration in between agree. */
  lemma RegistryHistory(requests: seq<Node>)
    ensures GetNodeRegistry(RegisterAll(Launch(), requests)) == requests
  {
    RegisterAllAppends(Launch(), requests);
  }

  /** Registering the same `nodeId` twice keeps both records. */
  lemma DuplicateIdsAreKept(registry: NodeRegistry, nodeId: int, pubKey1: string, pubKey2: string)
    ensures var after := RegisterAll(registry, [Node(nodeId, pubKey1), Node(nodeId, pubKey2)]);
      var n := |registry.nodes|;
      && |after.nodes| == n + 2
      && after.nodes[n].nodeId == nodeId
      && after.nodes[n + 1].nodeId == nodeId
  {
    RegisterAllAppends(registry, [Node(nodeId, pubKey1), Node(nodeId, pubKey2)]);
  }
}
