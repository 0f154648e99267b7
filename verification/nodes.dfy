/** Scene-graph nodes are referred to by opaque identities. */
module Nodes {

  /** Identity of a node object (Python object identity). */
  type NodeId = nat
}
