/** The records the graph is made of: a mind-map node and a link between two nodes. */
module Types {

  datatype Option<T> = None | Some(value: T)

  /**
   * A word placed on the map (`label` in the source; the name is reserved in Dafny). `parentId` is absent on the root. The layout engine's
   * optional coordinates `x` and `y` are not part of this model.
   */
  datatype Node = Node(id: string, word: string, depth: nat, parentId: Option<string>)

  /** A line between two nodes, given by their ids. */
  datatype Link = Link(source: string, target: string)
}
