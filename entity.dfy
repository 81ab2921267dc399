/**
 * The one persisted entity, a chat message row, and the table that holds
 * them. The table has `id` as its primary key, `deleted` defaults to false
 * and `deleted-at` to NULL; the model's store is a map keyed by that id.
 */
module Entity {
  import opened Wrappers
  import opened Uuids

  /** One row of the `messages` table; `text` is the `message` column. */
  datatype Message = Message(
    id: Uuid,
    channel: string,
    roomId: int,
    userId: int,
    username: string,
    text: string,
    timestamp: int,
    deleted: bool,
    deletedAt: Option<int>,
    replyingTo: Option<Uuid>,
    subscriber: bool,
    moderator: bool,
    vip: bool,
    emotes: Option<string>,
    badges: Option<string>,
    userType: Option<string>)

  /** The `messages` table: at most one row per primary key. */
  type Store = map<Uuid, Message>

  /** A row is marked deleted exactly when it records a deletion time. */
  predicate DeletionConsistent(m: Message) {
    m.deleted <==> m.deletedAt.Some?
  }

  /** Every row sits under its own id and keeps the deletion invariant. */
  ghost predicate WellFormed(store: Store) {
    forall id :: id in store ==> store[id].id == id && DeletionConsistent(store[id])
  }

  /** Two versions of a row that differ at most in their deletion columns. */
  predicate SameContent(a: Message, b: Message) {
    a.(deleted := false, deletedAt := None) == b.(deleted := false, deletedAt := None)
  }

  /** Rows ordered by ascending timestamp, as an `order_by_asc(Timestamp)` query returns them. */
  predicate SortedByTime(rows: seq<Message>) {
    forall i, j :: 0 <= i < j < |rows| ==> rows[i].timestamp <= rows[j].timestamp
  }

  /** The rows of one page: `fetch_and_next` reports an empty page as the end of the query, never as a page. */
  type PageRows = rows: seq<Message> | rows != []
    witness [Message(0, "", 0, 0, "", "", 0, false, None, None, false, false, false, None, None, None)]

  /**
   * One call of the paginator's `fetch_and_next` that does not end the
   * query: a non-empty page of rows, or a database error. A run of fetches
   * is a sequence of these; its end stands for the empty fetch that ends it.
   */
  datatype PageFetch = Page(rows: PageRows) | FetchError

  /** The rows of all pages before the first error, in order. */
  function RowsBeforeError(pages: seq<PageFetch>): seq<Message> {
    if pages == [] || pages[0].FetchError? then []
    else pages[0].rows + RowsBeforeError(pages[1..])
  }

  predicate NoFetchError(pages: seq<PageFetch>) {
    forall i :: 0 <= i < |pages| ==> pages[i].Page?
  }
}
