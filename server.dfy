/**
 * The HTTP search endpoint `/search/:channel`: the time parameters are read
 * as Unix seconds or as RFC 3339 / RFC 2822 date-times, the row filter is
 * built from the channel, the users and the time bounds, and the matching
 * rows are streamed back as log lines.
 */
module Server {
  import opened Wrappers
  import opened Text
  import opened Clock
  import opened Entity
  import opened Rollup

  /** `MAX_MESSAGES_TO_READ`: the most rows one search answers with. */
  const MaxMessagesToRead: nat := 1_000_000

  // ---------------------------------------------------------------------
  // Time parameters
  // ---------------------------------------------------------------------

  /**
   * A parsed date-time with an offset: the wall-clock reading, as
   * nanoseconds since the epoch as if it were UTC, and the offset from
   * UTC in seconds.
   */
  datatype OffsetDateTime = OffsetDateTime(local: int, offsetSeconds: int)

  /** `OffsetDateTime::parse` with one well-known format; None when the text does not match. */
  type TextParser = string -> Option<OffsetDateTime>

  /** What a time parameter contributes: no bound, a bound at a UTC instant, or a panic. */
  datatype TimeParam = NoBound | Bound(at: int) | TimePanic

  /** `to_offset(UtcOffset::UTC)`: panics when the instant in UTC falls outside the supported range. */
  function ToUtc(dt: OffsetDateTime): (r: TimeParam)
    ensures r.Bound? ==> Representable(r.at) && r.at + dt.offsetSeconds * NanosPerSecond == dt.local
    ensures r.Bound? <==> Representable(dt.local - dt.offsetSeconds * NanosPerSecond)
    ensures !r.NoBound?
  {
    var t := dt.local - dt.offsetSeconds * NanosPerSecond;
    if Representable(t) then Bound(t) else TimePanic
  }

  /**
   * `convert_query_to_datetime`: an i64 is Unix seconds (panicking outside
   * the supported range); otherwise RFC 3339, then RFC 2822, each converted
   * to UTC; text none of them accepts gives no bound.
   */
  function ConvertQueryToDatetime(q: Option<string>, rfc3339: TextParser, rfc2822: TextParser): (r: TimeParam)
    ensures r.Bound? ==> Representable(r.at)
    ensures r.NoBound? <==>
      q.None? || (ParseI64(q.value).None? && rfc3339(q.value).None? && rfc2822(q.value).None?)
  {
    match q
    case None => NoBound
    case Some(s) =>
      match ParseI64(s)
      case Some(secs) =>
        (match FromUnixSeconds(secs)
         case Some(t) => Bound(t)
         case None => TimePanic)
      case None =>
        match rfc3339(s)
        case Some(dt) => ToUtc(dt)
        case None =>
          match rfc2822(s)
          case Some(dt) => ToUtc(dt)
          case None => NoBound
  }

  /** A whole number is read as Unix seconds and never offered to the date-time parsers. */
  lemma IntegerNeverParsedAsText(s: string, a: TextParser, b: TextParser, c: TextParser, d: TextParser)
    requires ParseI64(s).Some?
    ensures ConvertQueryToDatetime(Some(s), a, b) == ConvertQueryToDatetime(Some(s), c, d)
    ensures ConvertQueryToDatetime(Some(s), a, b).TimePanic?
      <==> !(MinUnixSeconds <= ParseI64(s).value <= MaxUnixSeconds)
  {
  }

  /** Every representable second, written in decimal, is read back as that instant. */
  lemma UnixSecondsRoundTrip(secs: int, a: TextParser, b: TextParser)
    requires MinUnixSeconds <= secs <= MaxUnixSeconds
    ensures var text := if secs >= 0 then Decimal(secs) else "-" + Decimal(-secs);
      ConvertQueryToDatetime(Some(text), a, b) == Bound(secs * NanosPerSecond)
  {
    ParseI64OfDecimal(secs);
  }

  /**
   * Text that is not an integer is tried as RFC 3339 first and as RFC 2822
   * only when that fails; text neither accepts is silently dropped.
   */
  lemma TextFallbackOrder(s: string, rfc3339: TextParser, rfc2822: TextParser)
    requires ParseI64(s).None?
    ensures rfc3339(s).Some? ==> ConvertQueryToDatetime(Some(s), rfc3339, rfc2822) == ToUtc(rfc3339(s).value)
    ensures rfc3339(s).None? && rfc2822(s).Some?
      ==> ConvertQueryToDatetime(Some(s), rfc3339, rfc2822) == ToUtc(rfc2822(s).value)
    ensures rfc3339(s).None? && rfc2822(s).None?
      ==> ConvertQueryToDatetime(Some(s), rfc3339, rfc2822) == NoBound
  {
  }

  // ---------------------------------------------------------------------
  // The filter
  // ---------------------------------------------------------------------

  /** The username condition: one equality, or the `or` of two conditions. */
  datatype UserExpr = UsernameEq(name: string) | Or(left: UserExpr, right: UserExpr)

  predicate UserHolds(e: UserExpr, username: string) {
    match e
    case UsernameEq(name) => username == name
    case Or(l, r) => UserHolds(l, username) || UserHolds(r, username)
  }

  /** One `filter` call on the query. */
  datatype Condition = ChannelEq(channel: string) | Users(expr: UserExpr) | NotBefore(start: int) | NotAfter(end: int)

  predicate Holds(c: Condition, m: Message) {
    match c
    case ChannelEq(ch) => m.channel == ch
    case Users(e) => UserHolds(e, m.username)
    case NotBefore(t) => m.timestamp >= t
    case NotAfter(t) => m.timestamp <= t
  }

  /** Successive `filter` calls: a row is selected when every condition holds. */
  predicate Selects(conds: seq<Condition>, m: Message) {
    forall i :: 0 <= i < |conds| ==> Holds(conds[i], m)
  }

  /** The username condition after folding in the users so far (None before the first). */
  function UserQuery(users: seq<string>): Option<UserExpr> {
    if users == [] then None
    else
      var name := Lower(users[|users| - 1]);
      match UserQuery(users[..|users| - 1])
      case None => Some(UsernameEq(name))
      case Some(e) => Some(Or(e, UsernameEq(name)))
  }

  /** The folded condition accepts exactly the lower-cased names of the users. */
  lemma {:induction false} UserQueryMatches(users: seq<string>, username: string)
    ensures UserQuery(users).None? <==> users == []
    ensures UserQuery(users).Some? ==>
      (UserHolds(UserQuery(users).value, username) <==> exists i :: 0 <= i < |users| && username == Lower(users[i]))
  {
    if users != [] {
      var init := users[..|users| - 1];
      UserQueryMatches(init, username);
      if exists i :: 0 <= i < |init| && username == Lower(init[i]) {
        var i :| 0 <= i < |init| && username == Lower(init[i]);
        assert users[i] == init[i];
      }
      if exists i :: 0 <= i < |users| && username == Lower(users[i]) {
        var i :| 0 <= i < |users| && username == Lower(users[i]);
        if i < |init| {
          assert users[i] == init[i];
        }
      }
    }
  }

  /**
   * The reference meaning of a search: the stored channel is the lower-cased
   * path channel; with users, the stored username is one of theirs,
   * lower-cased; and the timestamp is within the inclusive bounds present.
   */
  predicate RowMatches(channel: string, users: seq<string>, start: TimeParam, end: TimeParam, m: Message) {
    m.channel == Lower(channel)
    && (users == [] || exists i :: 0 <= i < |users| && m.username == Lower(users[i]))
    && (start.Bound? ==> m.timestamp >= start.at)
    && (end.Bound? ==> m.timestamp <= end.at)
  }

  /** The outcome of building a search: the filters, or the panic of a time parameter. */
  datatype Search = Filters(conds: seq<Condition>) | SearchPanicked

  /** The filter construction in `search`. */
  method BuildSearch(channel: string, users: seq<string>, startTime: Option<string>, endTime: Option<string>,
                     rfc3339: TextParser, rfc2822: TextParser)
    returns (r: Search)
    ensures var start := ConvertQueryToDatetime(startTime, rfc3339, rfc2822);
      var end := ConvertQueryToDatetime(endTime, rfc3339, rfc2822);
      (r.SearchPanicked? <==> start.TimePanic? || end.TimePanic?)
      && (r.Filters? ==> forall m :: Selects(r.conds, m) <==> RowMatches(channel, users, start, end, m))
  {
    var conds := [ChannelEq(Lower(channel))];
    var userQuery: Option<UserExpr> := None;
    var i := 0;
    while i < |users|
      invariant 0 <= i <= |users|
      invariant userQuery == UserQuery(users[..i])
    {
      var user := Lower(users[i]);
      userQuery := match userQuery
        case Some(e) => Some(Or(e, UsernameEq(user)))
        case None => Some(UsernameEq(user));
      assert users[..i + 1][..i] == users[..i];
      i := i + 1;
    }
    assert users[..i] == users;
    if userQuery.Some? {
      conds := conds + [Users(userQuery.value)];
    }
    var start := ConvertQueryToDatetime(startTime, rfc3339, rfc2822);
    if start.TimePanic? {
      return SearchPanicked;
    }
    if start.Bound? {
      conds := conds + [NotBefore(start.at)];
    }
    var end := ConvertQueryToDatetime(endTime, rfc3339, rfc2822);
    if end.TimePanic? {
      return SearchPanicked;
    }
    if end.Bound? {
      conds := conds + [NotAfter(end.at)];
    }
    assert conds == FilterList(channel, userQuery, start, end);
    r := Filters(conds);
    forall m ensures Selects(conds, m) <==> RowMatches(channel, users, start, end, m) {
      UserQueryMatches(users, m.username);
      FilterListSelects(channel, userQuery, start, end, m);
    }
  }

  /** The filters in the order `search` adds them. */
  function FilterList(channel: string, userQuery: Option<UserExpr>, start: TimeParam, end: TimeParam): seq<Condition> {
    [ChannelEq(Lower(channel))]
    + (if userQuery.Some? then [Users(userQuery.value)] else [])
    + (if start.Bound? then [NotBefore(start.at)] else [])
    + (if end.Bound? then [NotAfter(end.at)] else [])
  }

  lemma SelectsConcat(a: seq<Condition>, b: seq<Condition>, m: Message)
    ensures Selects(a + b, m) <==> Selects(a, m) && Selects(b, m)
  {
    if Selects(a, m) && Selects(b, m) {
      forall i | 0 <= i < |a + b| ensures Holds((a + b)[i], m) {
        if i >= |a| {
          assert (a + b)[i] == b[i - |a|];
        }
      }
    }
    if Selects(a + b, m) {
      forall i | 0 <= i < |b| ensures Holds(b[i], m) {
        assert (a + b)[|a| + i] == b[i];
      }
      forall i | 0 <= i < |a| ensures Holds(a[i], m) {
        assert (a + b)[i] == a[i];
      }
    }
  }

  /** The filter list selects the conjunction of its conditions. */
  lemma FilterListSelects(channel: string, userQuery: Option<UserExpr>, start: TimeParam, end: TimeParam, m: Message)
    ensures Selects(FilterList(channel, userQuery, start, end), m) <==>
        m.channel == Lower(channel)
        && (userQuery.Some? ==> UserHolds(userQuery.value, m.username))
        && (start.Bound? ==> m.timestamp >= start.at)
        && (end.Bound? ==> m.timestamp <= end.at)
  {
    var c0: seq<Condition> := [ChannelEq(Lower(channel))];
    var c1: seq<Condition> := if userQuery.Some? then [Users(userQuery.value)] else [];
    var c2: seq<Condition> := if start.Bound? then [NotBefore(start.at)] else [];
    var c3: seq<Condition> := if end.Bound? then [NotAfter(end.at)] else [];
    SelectsConcat(c0, c1, m);
    SelectsConcat(c0 + c1, c2, m);
    SelectsConcat(c0 + c1 + c2, c3, m);
    assert FilterList(channel, userQuery, start, end) == c0 + c1 + c2 + c3;
    assert Selects(c0, m) <==> Holds(c0[0], m);
    assert |c1| == 1 ==> (Selects(c1, m) <==> Holds(c1[0], m));
    assert |c2| == 1 ==> (Selects(c2, m) <==> Holds(c2[0], m));
    assert |c3| == 1 ==> (Selects(c3, m) <==> Holds(c3[0], m));
  }

  /** Naming one more user never loses a match, once at least one user is named. */
  lemma MoreUsersNeverNarrow(channel: string, users: seq<string>, user: string, start: TimeParam, end: TimeParam, m: Message)
    requires users != []
    requires RowMatches(channel, users, start, end, m)
    ensures RowMatches(channel, users + [user], start, end, m)
  {
    var i :| 0 <= i < |users| && m.username == Lower(users[i]);
    assert (users + [user])[i] == users[i];
  }

  /** Adding a time bound never adds a match. */
  lemma TimeBoundsNeverWiden(channel: string, users: seq<string>, start: TimeParam, end: TimeParam, m: Message)
    requires RowMatches(channel, users, start, end, m)
    ensures RowMatches(channel, users, NoBound, end, m)
    ensures RowMatches(channel, users, start, NoBound, m)
  {
  }

  // ---------------------------------------------------------------------
  // The response stream
  // ---------------------------------------------------------------------

  /** One item of the streamed body: a log line, or the error that ends the stream. */
  datatype StreamItem = Line(text: string) | StreamError

  function LinesOfRows(rows: seq<Message>): (items: seq<StreamItem>)
    ensures |items| == |rows|
  {
    if rows == [] then [] else [Line(FormatMessage(rows[0]))] + LinesOfRows(rows[1..])
  }

  /** The items of `response_stream`: each page's lines in order, and an error item at the first failed fetch. */
  function StreamOf(pages: seq<PageFetch>): seq<StreamItem> {
    if pages == [] then []
    else match pages[0]
      case FetchError => [StreamError]
      case Page(rows) => LinesOfRows(rows) + StreamOf(pages[1..])
  }

  /** The lines one fetched page contributes to the stream. */
  method PageLines(rows: seq<Message>) returns (items: seq<StreamItem>)
    ensures items == LinesOfRows(rows)
  {
    items := [];
    var j := 0;
    while j < |rows|
      invariant 0 <= j <= |rows|
      invariant items + LinesOfRows(rows[j..]) == LinesOfRows(rows)
    {
      assert rows[j..][1..] == rows[j + 1..];
      var line := FormatMessage(rows[j]);
      items := items + [Line(line)];
      j := j + 1;
    }
  }

  /** One step of the page loop. */
  lemma StreamStep(pages: seq<PageFetch>, p: nat)
    requires p < |pages|
    ensures StreamOf(pages[p..]) == match pages[p]
      case FetchError => [StreamError]
      case Page(rows) => LinesOfRows(rows) + StreamOf(pages[p + 1..])
  {
    assert pages[p..][0] == pages[p] && pages[p..][1..] == pages[p + 1..];
  }

  /** `response_stream`: yields the formatted line of every fetched row, page by page. */
  method ResponseStream(pages: seq<PageFetch>) returns (items: seq<StreamItem>)
    ensures items == StreamOf(pages)
  {
    items := [];
    var p := 0;
    while p < |pages|
      invariant 0 <= p <= |pages|
      invariant items + StreamOf(pages[p..]) == StreamOf(pages)
    {
      StreamStep(pages, p);
      if pages[p].FetchError? {
        items := items + [StreamError];
        return;
      }
      var lines := PageLines(pages[p].rows);
      items := items + lines;
      p := p + 1;
    }
  }

  lemma {:induction false} LinesOfRowsConcat(a: seq<Message>, b: seq<Message>)
    ensures LinesOfRows(a + b) == LinesOfRows(a) + LinesOfRows(b)
  {
    if a == [] {
      assert a + b == b;
    } else {
      assert (a + b)[1..] == a[1..] + b;
      LinesOfRowsConcat(a[1..], b);
    }
  }

  /**
   * The body is the lines of all rows before the first failed fetch, as if
   * read in one page, followed by one error item exactly when a fetch failed.
   */
  lemma {:induction false} StreamIsLinesThenError(pages: seq<PageFetch>)
    ensures StreamOf(pages) == LinesOfRows(RowsBeforeError(pages)) + (if NoFetchError(pages) then [] else [StreamError])
  {
    if pages != [] {
      if pages[0].FetchError? {
        assert !NoFetchError(pages);
      } else {
        StreamIsLinesThenError(pages[1..]);
        LinesOfRowsConcat(pages[0].rows, RowsBeforeError(pages[1..]));
        NoFetchErrorTail(pages);
      }
    }
  }

  lemma {:induction false} LinesOfRowsAreLines(rows: seq<Message>)
    ensures forall i :: 0 <= i < |rows| ==> LinesOfRows(rows)[i] == Line(FormatMessage(rows[i]))
  {
    if rows != [] {
      LinesOfRowsAreLines(rows[1..]);
    }
  }

  /** An error item is always the last item, and there is one exactly when a fetch failed. */
  lemma ErrorEndsStream(pages: seq<PageFetch>)
    ensures var items := StreamOf(pages);
      (forall i :: 0 <= i < |items| && items[i].StreamError? ==> i == |items| - 1)
      && (!NoFetchError(pages) <==> items != [] && items[|items| - 1].StreamError?)
  {
    StreamIsLinesThenError(pages);
    LinesOfRowsAreLines(RowsBeforeError(pages));
  }

  /**
   * What the ordered, capped query is meant to deliver, stated as an
   * assumption about the rows fetched: selected rows of the table, each
   * once, oldest first, at most `MAX_MESSAGES_TO_READ` of them, and, when
   * any selected row is left out, only rows no newer than every row served.
   */
  ghost predicate ServesNewest(store: Store, conds: seq<Condition>, rows: seq<Message>) {
    SortedByTime(rows)
    && |rows| <= MaxMessagesToRead
    && (forall i :: 0 <= i < |rows| ==> rows[i].id in store && store[rows[i].id] == rows[i] && Selects(conds, rows[i]))
    && (forall i, j :: 0 <= i < j < |rows| ==> rows[i].id != rows[j].id)
    && (forall id :: id in store && Selects(conds, store[id]) && (forall i :: 0 <= i < |rows| ==> rows[i].id != id) ==>
          |rows| == MaxMessagesToRead && store[id].timestamp <= rows[0].timestamp)
  }

  /**
   * Under that assumption, a response without fetch errors has at most
   * `MAX_MESSAGES_TO_READ` lines, each the line of a selected row of the table.
   */
  lemma ResponseIsSelectedRows(store: Store, conds: seq<Condition>, pages: seq<PageFetch>)
    requires NoFetchError(pages) && ServesNewest(store, conds, RowsBeforeError(pages))
    ensures var items := StreamOf(pages);
      |items| <= MaxMessagesToRead
      && forall i :: 0 <= i < |items| ==>
        exists id :: id in store && Selects(conds, store[id]) && items[i] == Line(FormatMessage(store[id]))
  {
    var rows := RowsBeforeError(pages);
    StreamIsLinesThenError(pages);
    LinesOfRowsAreLines(rows);
    var items := StreamOf(pages);
    forall i | 0 <= i < |items|
      ensures exists id :: id in store && Selects(conds, store[id]) && items[i] == Line(FormatMessage(store[id]))
    {
      var id := rows[i].id;
      assert items[i] == Line(FormatMessage(store[id]));
    }
  }
}
