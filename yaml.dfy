/** The part of the YAML library's node tree (yaml.v3's `yaml.Node`) that the
    trimmer reads or writes. Parsing and serialisation are not modelled: the
    trimmer works on an already parsed tree. */
module Yaml {

  /** The node kinds of yaml.v3. Only `MappingNode` is ever decomposed. */
  datatype Kind = DocumentNode | SequenceNode | MappingNode | ScalarNode | AliasNode

  /** yaml.v3's `Style` is a 32-bit set of rendering flags (flow, quoting, literal, ...).
      The trimmer copies it and never looks inside. */
  type Style = bv32

  /** A node: its kind, its style, its scalar text (`Value`) and its children.
      A mapping's children are a flat list key, value, key, value, ... */
  datatype Node = Node(kind: Kind, style: Style, value: string, content: seq<Node>)
}
