/** The records the sync job reads back from the issue tracker's GraphQL API,
    reduced to the fields it uses (scripts/sync_okrs.py:183-218). A key that
    may be absent or null is an `Option`. */
module Linear {
  import opened PyText

  /** `state { name type }` of an issue. */
  datatype IssueState = IssueState(stateType: Option<string>, name: Option<string>)

  /** One issue node; `updatedAt` is `None` when the key is missing. */
  datatype Issue = Issue(title: string, updatedAt: Option<string>, state: IssueState)

  /** One node of `projectUpdates`: author name, creation timestamp, body. */
  datatype ProjectUpdate = ProjectUpdate(author: string, createdAt: string, body: string)

  /** One project node. `updates` is `projectUpdates.nodes`, empty when the
      key is missing; `state` and `health` are printed as `None` when absent. */
  datatype Project = Project(
    id: string,
    name: Option<string>,
    state: Option<string>,
    health: Option<string>,
    updates: seq<ProjectUpdate>)

  /** One page of the issues query: its nodes and its `pageInfo`. */
  datatype Page = Page(nodes: seq<Issue>, hasNextPage: bool, endCursor: Option<string>)
}
