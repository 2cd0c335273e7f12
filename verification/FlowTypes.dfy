/** The vocabulary shared by every part of the model: identifiers, rows of the
    relational schema, requests, and what a mutation returns. */
module FlowTypes {

  // Identifiers are opaque tokens: the code only compares them and asks whether one
  // is the empty string, so an identifier is a number and NO_ID is the empty string
  // (and SQL NULL in the columns that hold identifiers).
  type Id = int
  const NO_ID: Id := 0

  // What `new_id` mints: never empty, otherwise arbitrary (possibly even taken).
  type MintedId = i: int | i != NO_ID witness 1

  type Int32 = n: int | -0x8000_0000 <= n < 0x8000_0000

  datatype Option<+T> = None | Some(value: T)

  /** The error taxonomy of flowcore/src/error.rs, after classification. */
  datatype Code = NotFound | InvalidArgument | FailedPrecondition | Internal

  datatype Result<+T> = Success(value: T) | Failure(code: Code) {
    predicate IsFailure() {
      Failure?
    }
    function PropagateFailure<U>(): Result<U>
      requires Failure?
    {
      Failure(code)
    }
    function Extract(): T
      requires Success?
    {
      value
    }
  }

  datatype Kind = WorkPackage | Task | Step
  datatype Declared = Open | Deferred | Done
  datatype Effective = IsReady | IsBlocked | IsDeferred | IsDone
  datatype WpState = Planned | Active | Closed | Archived

  /** One row of `nodes`, minus its key and its clock columns. A NULL reference and an
      empty one read the same, so both are the empty text. */
  datatype Node = Node(
    project: Id, parent: Id, kind: Kind,
    title: string, description: string, condition: string, note: string, reference: string,
    declared: Declared, wp: Option<WpState>, position: Int32)

  datatype AgentResult = Pass | Fail
  datatype HumanVerdict = Accepted | Rejected
  datatype Verification = Verification(
    agent: Option<AgentResult>, agentName: string, detail: string, human: Option<HumanVerdict>)

  datatype Edge = Edge(blocker: Id, blocked: Id)

  datatype EventKind =
    NodeCreated | NodeUpdated | NodeDeleted | StatusSet | DepAdded | DepRemoved
    | AgentReported | VerdictSet | Comment

  /** The keys of the object a delete event keeps of the deleted row, and its values. */
  datatype Field =
    IdField | ProjectField | ParentField | KindField | TitleField | DescriptionField
    | ConditionField | NoteField | ReferenceField | DeclaredField | WpStateField | PositionField
  datatype Json =
    | JId(id: Id) | JText(text: string) | JKind(kind: Kind) | JDeclared(declared: Declared)
    | JWpState(wp: WpState) | JNull | JInt(n: int)
  type JsonObject = map<Field, Json>

  /** The JSON payload of an event, as a value. */
  datatype Payload =
    | NoPayload
    | CreatedNode(created: Id, createdTitle: string)
    | StatusChange(before: Declared, after: Declared)
    | EdgeEnds(blocker: Id, blocked: Id)
    | Report(result: AgentResult, detail: string)
    | DeletedNode(beforeObject: JsonObject)
    | Moved(parentBefore: Id, kindBefore: Kind, parentAfter: Id, kindAfter: Kind)
    | CommentText(text: string)

  datatype Event = Event(
    seqno: int, project: Id, node: Id, kind: EventKind, author: string, payload: Payload)

  datatype LedgerKey = LedgerKey(scope: Id, key: string)
  datatype LedgerRow = LedgerRow(seqno: int, entity: Id)

  /** The whole database. `lastSeq` is the AUTOINCREMENT counter of `events`. */
  datatype Db = Db(
    projects: set<Id>,
    nodes: map<Id, Node>,
    deps: set<Edge>,
    verifs: map<Id, Verification>,
    events: seq<Event>,
    ledger: map<LedgerKey, LedgerRow>,
    lastSeq: int)

  datatype Meta = Meta(author: string, key: string)

  // Enum fields of requests arrive as raw protobuf numbers, valid or not.
  datatype MaskField =
    | MaskTitle | MaskDescription | MaskCondition | MaskPosition | MaskReference | MaskNote
    | MaskWpState | MaskUnknown

  datatype Request =
    | CreateProject(meta: Meta, minted: MintedId)
    | CreateNode(meta: Meta, minted: MintedId, project: Id, parent: Id, kindCode: int,
                 title: string, description: string, condition: string, note: string,
                 reference: string, position: Int32)
    | UpdateNode(meta: Meta, node: Id, mask: seq<MaskField>,
                 title: string, description: string, condition: string, note: string,
                 reference: string, position: Int32, wpCode: int)
    | DeleteNode(meta: Meta, node: Id, failIfReferenced: bool)
    | SetStatus(meta: Meta, node: Id, declaredCode: int)
    | AddDependency(meta: Meta, blocker: Id, blocked: Id)
    | RemoveDependency(meta: Meta, blocker: Id, blocked: Id)
    | ReportCondition(meta: Meta, node: Id, resultCode: int, detail: string)
    | SetVerdict(meta: Meta, node: Id, verdictCode: int)
    | AddComment(meta: Meta, node: Id, text: string)
    | Undo(meta: Meta, project: Id, seqno: int)
    | MoveNode(meta: Meta, node: Id, parent: Id, kindCode: int)

  /** A node as clients read it: its row, its derived status, its verification. */
  datatype NodeView = NodeView(
    id: Id, row: Node, status: Effective, verification: Option<Verification>)

  datatype Progress = Progress(total: nat, done: nat, ready: nat, blocked: nat, deferred: nat)

  /** What a successful mutation returns. Every affected node appears once, so the
      changed nodes are a map from identifier to view. `made` is the project that creating
      one returns, and empty for every other request. */
  datatype Mutation = Mutation(
    events: seq<Event>, changed: map<Id, NodeView>, progress: map<Id, Progress>, seqno: int, made: Id)
}
