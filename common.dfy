/** Values shared by the tree component and the application shell. */
module Common {

  /** `None` stands for JavaScript's `null` / `undefined`. */
  datatype Option<T> = None | Some(value: T)

  /** The properties of a Neo4j node, by property name. */
  type Props = map<string, string>

  /** The five display fields of a gazette. A field the record lacks is `None`
      (a missing property reads as `undefined`; it is never defaulted). */
  datatype Gazette = Gazette(
    name: Option<string>,
    date: Option<string>,
    description: Option<string>,
    gazetteId: Option<string>,
    url: Option<string>)

  /** The tree handed to the tidy tree for one date: a parent gazette and the
      gazettes that amend it. The child entries carry no `children` field. */
  datatype Graph = Graph(root: Gazette, children: seq<Gazette>)
}
