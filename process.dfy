/**
 * The ingestion worker: every IRC event is turned into one action (store a
 * message, soft-delete one, report a notice, ignore, or panic), and the worker
 * applies the actions to the `messages` table one after another until the
 * channel ends or a panic stops the task.
 */
module Process {
  import opened Wrappers
  import opened Text
  import opened Clock
  import opened Uuids
  import opened Entity

  /** One IRCv3 message tag: a key and an optional value. */
  datatype Tag = Tag(key: string, value: Option<string>)

  /** The commands the worker distinguishes; everything else is `OtherCommand`. */
  datatype Command =
    | Notice(target: string, body: string)
    | PrivMsg(target: string, body: string)
    | Raw(name: string, args: seq<string>)
    | OtherCommand

  /** An IRC event as the connection delivers it. */
  datatype Event = Event(tags: Option<seq<Tag>>, sourceNickname: Option<string>, command: Command)

  type TagMap = map<string, Option<string>>

  /** The conditions under which an `unwrap` or `expect` in the worker panics. */
  datatype Panic =
    | BadMessageId
    | BadRoomId
    | BadUserId
    | BadTimestamp
    | TimestampOutOfRange
    | BadReplyId
    | BadTargetId
    | DuplicateId
    | UpdateFailed

  /** Why an event was dropped without touching the table (each is a warning or a `continue`). */
  datatype Skip =
    | MissingId
    | MissingRoomId
    | MissingUserId
    | MissingTimestamp
    | MissingTargetId
    | NoNickname
    | Unhandled

  datatype NoticeKind = AuthenticationFailed | ImproperlyFormattedAuth | OtherNotice

  /** What one event asks of the table. */
  datatype Action =
    | StoreMessage(message: Message)
    | DeleteMessage(target: Uuid, deletedAt: int)
    | ReportNotice(kind: NoticeKind)
    | Ignore(why: Skip)
    | Crash(panic: Panic)

  // ---------------------------------------------------------------------------
  // Tags

  /** Collecting the tag list into a map: a later tag with the same key replaces an earlier one. */
  function CollectTags(tags: seq<Tag>): (m: TagMap)
    ensures forall i :: 0 <= i < |tags| ==> tags[i].key in m
    ensures forall k :: k in m ==> exists i :: 0 <= i < |tags| && tags[i].key == k
  {
    if tags == [] then map[]
    else
      var init := tags[..|tags| - 1];
      var m := CollectTags(init)[tags[|tags| - 1].key := tags[|tags| - 1].value];
      assert forall i :: 0 <= i < |init| ==> tags[i] == init[i];
      m
  }

  /** The tag map of an event; an event without tags gives the empty map. */
  function TagsOf(ev: Event): TagMap {
    match ev.tags
    case None => map[]
    case Some(tags) => CollectTags(tags)
  }

  /** The value recorded for a key is the one of its last occurrence in the list. */
  lemma {:induction false} CollectTagsLastWins(tags: seq<Tag>, i: nat)
    requires i < |tags|
    requires forall j :: i < j < |tags| ==> tags[j].key != tags[i].key
    ensures tags[i].key in CollectTags(tags) && CollectTags(tags)[tags[i].key] == tags[i].value
  {
    if i < |tags| - 1 {
      var init := tags[..|tags| - 1];
      assert init[i] == tags[i];
      CollectTagsLastWins(init, i);
    }
  }

  predicate HasValue(tags: TagMap, key: string) {
    key in tags && tags[key].Some?
  }

  /** `tags.get(key).cloned().flatten()`: the value when present with one, None otherwise. */
  function OptionalTag(tags: TagMap, key: string): Option<string> {
    if key in tags then tags[key] else None
  }

  // ---------------------------------------------------------------------------
  // NOTICE

  /**
   * The notice text is trimmed and compared without regard to ASCII case:
   * the class is decided by the lower-case form of the trimmed text.
   */
  function ClassifyNotice(body: string): (k: NoticeKind)
    ensures k == AuthenticationFailed <==>
      Lower(Trim(body)) == Lower("login authentication failed") || Lower(Trim(body)) == Lower("login unsuccessful failed")
    ensures k == ImproperlyFormattedAuth <==>
      k != AuthenticationFailed && Lower(Trim(body)) == Lower("improperly formatted auth")
  {
    var msg := Trim(body);
    LowerIffCaseBlind(msg, "login authentication failed");
    LowerIffCaseBlind(msg, "login unsuccessful failed");
    LowerIffCaseBlind(msg, "improperly formatted auth");
    if EqIgnoreAsciiCase(msg, "login authentication failed")
      || EqIgnoreAsciiCase(msg, "login unsuccessful failed")
    then AuthenticationFailed
    else if EqIgnoreAsciiCase(msg, "improperly formatted auth") then ImproperlyFormattedAuth
    else OtherNotice
  }

  /** White space around a notice does not change how it is classified. */
  lemma NoticeIgnoresPadding(pre: string, body: string, post: string)
    requires AllWhiteSpace(pre) && AllWhiteSpace(post)
    ensures ClassifyNotice(pre + body + post) == ClassifyNotice(body)
  {
    TrimIgnoresPadding(pre, body, post);
  }

  /** Two notices equal up to ASCII case are classified alike. */
  lemma NoticeIgnoresAsciiCase(a: string, b: string)
    requires EqIgnoreAsciiCase(a, b)
    ensures ClassifyNotice(a) == ClassifyNotice(b)
  {
    TrimStartCaseBlind(a, b);
    TrimEndCaseBlind(TrimStart(a), TrimStart(b));
    var ra, rb := Trim(a), Trim(b);
    CaseBlindCompare(ra, rb, "login authentication failed");
    CaseBlindCompare(ra, rb, "login unsuccessful failed");
    CaseBlindCompare(ra, rb, "improperly formatted auth");
  }

  lemma CaseBlindCompare(x: string, y: string, lit: string)
    requires EqIgnoreAsciiCase(x, y)
    ensures EqIgnoreAsciiCase(x, lit) <==> EqIgnoreAsciiCase(y, lit)
  {
  }

  /** An ASCII-case change never turns white space into something else or back. */
  lemma CaseBlindWhiteSpace(c: char, d: char)
    requires AsciiLower(c) == AsciiLower(d)
    ensures IsWhiteSpace(c) <==> IsWhiteSpace(d)
  {
  }

  lemma {:induction false} TrimStartCaseBlind(a: string, b: string)
    requires EqIgnoreAsciiCase(a, b)
    ensures EqIgnoreAsciiCase(TrimStart(a), TrimStart(b))
    decreases |a|
  {
    if a != [] {
      CaseBlindWhiteSpace(a[0], b[0]);
      if IsWhiteSpace(a[0]) {
        assert EqIgnoreAsciiCase(a[1..], b[1..]) by {
          forall i | 0 <= i < |a| - 1 ensures AsciiLower(a[1..][i]) == AsciiLower(b[1..][i]) {
            assert a[1..][i] == a[i + 1] && b[1..][i] == b[i + 1];
          }
        }
        TrimStartCaseBlind(a[1..], b[1..]);
      }
    }
  }

  lemma {:induction false} TrimEndCaseBlind(a: string, b: string)
    requires EqIgnoreAsciiCase(a, b)
    ensures EqIgnoreAsciiCase(TrimEnd(a), TrimEnd(b))
    decreases |a|
  {
    if a != [] {
      var n := |a| - 1;
      CaseBlindWhiteSpace(a[n], b[n]);
      if IsWhiteSpace(a[n]) {
        assert EqIgnoreAsciiCase(a[..n], b[..n]);
        TrimEndCaseBlind(a[..n], b[..n]);
      }
    }
  }

  // ---------------------------------------------------------------------------
  // PRIVMSG

  /** The four tags a chat message needs, in the order the worker checks them. */
  const RequiredTags: seq<string> := ["id", "room-id", "user-id", "tmi-sent-ts"]

  /** Whether the value of a required tag parses (a malformed one panics). */
  predicate RequiredTagParses(key: string, value: string) {
    if key == "id" then ParseUuid(value).Some?
    else if key == "tmi-sent-ts" then
      ParseI64(value).Some? && AfterEpochMillis(ParseI64(value).value).Some?
    else ParseI64(value).Some?
  }

  function MissingReason(i: nat): Skip
    requires i < 4
  {
    [MissingId, MissingRoomId, MissingUserId, MissingTimestamp][i]
  }

  function MalformedReason(i: nat, value: string): Panic
    requires i < 4
  {
    if i == 0 then BadMessageId
    else if i == 1 then BadRoomId
    else if i == 2 then BadUserId
    else if ParseI64(value).None? then BadTimestamp
    else TimestampOutOfRange
  }

  /** One leading '#' is removed from the channel name; its case is kept. */
  function StripChannelPrefix(target: string): (c: string)
    ensures |target| > 0 && target[0] == '#' ==> c == target[1..]
    ensures (|target| == 0 || target[0] != '#') ==> c == target
  {
    if |target| > 0 && target[0] == '#' then target[1..] else target
  }

  /**
   * A channel named with its '#' loses exactly that '#', a name without one
   * is kept, and either way putting the '#' back gives the target of a
   * prefixed name.
   */
  lemma StripChannelPrefixRoundTrip(name: string)
    ensures StripChannelPrefix("#" + name) == name
    ensures (name == [] || name[0] != '#') ==> StripChannelPrefix(name) == name
    ensures (name != [] && name[0] == '#') ==> "#" + StripChannelPrefix(name) == name
  {
    assert ("#" + name)[1..] == name;
  }

  /** The row a chat message becomes, or why it does not become one. */
  function ExtractPrivmsg(channel: string, username: string, body: string, tags: TagMap): (a: Action)
    ensures a.StoreMessage? || a.Ignore? || a.Crash?
    ensures a.StoreMessage? ==>
      a.message.username == username && a.message.text == body && a.message.channel == channel
    ensures a.StoreMessage? ==> !a.message.deleted && a.message.deletedAt.None?
  {
    if !HasValue(tags, "id") then Ignore(MissingId)
    else
      var id := ParseUuid(tags["id"].value);
      if id.None? then Crash(BadMessageId)
      else if !HasValue(tags, "room-id") then Ignore(MissingRoomId)
      else
        var roomId := ParseI64(tags["room-id"].value);
        if roomId.None? then Crash(BadRoomId)
        else if !HasValue(tags, "user-id") then Ignore(MissingUserId)
        else
          var userId := ParseI64(tags["user-id"].value);
          if userId.None? then Crash(BadUserId)
          else if !HasValue(tags, "tmi-sent-ts") then Ignore(MissingTimestamp)
          else
            var millis := ParseI64(tags["tmi-sent-ts"].value);
            if millis.None? then Crash(BadTimestamp)
            else
              var timestamp := AfterEpochMillis(millis.value);
              if timestamp.None? then Crash(TimestampOutOfRange)
              else
                var hasReply := HasValue(tags, "reply-parent-msg-id");
                var reply := if hasReply then ParseUuid(tags["reply-parent-msg-id"].value) else None;
                if hasReply && reply.None? then Crash(BadReplyId)
                else
                  StoreMessage(Message(
                    id := id.value,
                    channel := channel,
                    roomId := roomId.value,
                    userId := userId.value,
                    username := username,
                    text := body,
                    timestamp := timestamp.value,
                    deleted := false,
                    deletedAt := None,
                    replyingTo := reply,
                    subscriber := "subscriber" in tags,
                    moderator := "mod" in tags,
                    vip := "vip" in tags,
                    emotes := OptionalTag(tags, "emotes"),
                    badges := OptionalTag(tags, "badges"),
                    userType := OptionalTag(tags, "user-type")))
  }

  /**
   * Required tags are checked in order: the first one that is absent (or has
   * no value) drops the message, the first one that is malformed panics, and
   * no later tag is looked at in either case.
   */
  lemma PrivmsgRequiredTagOrder(channel: string, username: string, body: string, tags: TagMap, i: nat)
    requires i < 4
    requires forall j :: 0 <= j < i ==>
      HasValue(tags, RequiredTags[j]) && RequiredTagParses(RequiredTags[j], tags[RequiredTags[j]].value)
    requires !HasValue(tags, RequiredTags[i]) || !RequiredTagParses(RequiredTags[i], tags[RequiredTags[i]].value)
    ensures !HasValue(tags, RequiredTags[i]) ==> ExtractPrivmsg(channel, username, body, tags) == Ignore(MissingReason(i))
    ensures HasValue(tags, RequiredTags[i]) ==>
      ExtractPrivmsg(channel, username, body, tags) == Crash(MalformedReason(i, tags[RequiredTags[i]].value))
  {
    assert RequiredTags[0] == "id" && RequiredTags[1] == "room-id";
    assert RequiredTags[2] == "user-id" && RequiredTags[3] == "tmi-sent-ts";
    if i > 0 { assert HasValue(tags, RequiredTags[0]); }
    if i > 1 { assert HasValue(tags, RequiredTags[1]); }
    if i > 2 { assert HasValue(tags, RequiredTags[2]); }
  }

  /** A chat message is stored exactly when all four required tags carry values that parse and the reply id, if any, parses. */
  lemma PrivmsgStoredIffTagsParse(channel: string, username: string, body: string, tags: TagMap)
    ensures ExtractPrivmsg(channel, username, body, tags).StoreMessage? <==>
      (forall j :: 0 <= j < 4 ==>
        HasValue(tags, RequiredTags[j]) && RequiredTagParses(RequiredTags[j], tags[RequiredTags[j]].value))
      && (HasValue(tags, "reply-parent-msg-id") ==> ParseUuid(tags["reply-parent-msg-id"].value).Some?)
  {
    assert RequiredTags[0] == "id" && RequiredTags[1] == "room-id";
    assert RequiredTags[2] == "user-id" && RequiredTags[3] == "tmi-sent-ts";
  }

  /**
   * The stored row: ids and timestamp parsed from their tags (the timestamp is
   * the epoch plus the tag's milliseconds), the role flags true exactly when
   * their key is present whatever its value, and the free-text tags passed through.
   */
  lemma PrivmsgRecord(channel: string, username: string, body: string, tags: TagMap)
    requires ExtractPrivmsg(channel, username, body, tags).StoreMessage?
    ensures var m := ExtractPrivmsg(channel, username, body, tags).message;
      && Some(m.id) == ParseUuid(tags["id"].value)
      && Some(m.roomId) == ParseI64(tags["room-id"].value)
      && Some(m.userId) == ParseI64(tags["user-id"].value)
      && Some(m.timestamp / NanosPerMilli) == ParseI64(tags["tmi-sent-ts"].value)
      && m.timestamp % NanosPerMilli == 0
      && (m.subscriber <==> "subscriber" in tags)
      && (m.moderator <==> "mod" in tags)
      && (m.vip <==> "vip" in tags)
      && (m.emotes.Some? <==> HasValue(tags, "emotes"))
      && (m.emotes.Some? ==> m.emotes.value == tags["emotes"].value)
      && (m.badges.Some? <==> HasValue(tags, "badges"))
      && (m.badges.Some? ==> m.badges.value == tags["badges"].value)
      && (m.userType.Some? <==> HasValue(tags, "user-type"))
      && (m.userType.Some? ==> m.userType.value == tags["user-type"].value)
      && (m.replyingTo.Some? <==> HasValue(tags, "reply-parent-msg-id"))
      && (m.replyingTo.Some? ==> m.replyingTo == ParseUuid(tags["reply-parent-msg-id"].value))
  {
  }

  // ---------------------------------------------------------------------------
  // CLEARMSG

  /**
   * A deletion needs the deletion time, parsed first, and then the target id:
   * it happens exactly when both tags carry values that parse, and it marks
   * the parsed id with the parsed time.
   */
  function ExtractClearmsg(tags: TagMap): (a: Action)
    ensures a.DeleteMessage? || a.Ignore? || a.Crash?
    ensures a.DeleteMessage? <==>
      HasValue(tags, "tmi-sent-ts") && RequiredTagParses("tmi-sent-ts", tags["tmi-sent-ts"].value)
      && HasValue(tags, "target-msg-id") && ParseUuid(tags["target-msg-id"].value).Some?
    ensures a.DeleteMessage? ==>
      Some(a.target) == ParseUuid(tags["target-msg-id"].value)
      && Some(a.deletedAt / NanosPerMilli) == ParseI64(tags["tmi-sent-ts"].value)
      && a.deletedAt % NanosPerMilli == 0
  {
    if !HasValue(tags, "tmi-sent-ts") then Ignore(MissingTimestamp)
    else
      var millis := ParseI64(tags["tmi-sent-ts"].value);
      if millis.None? then Crash(BadTimestamp)
      else
        var at := AfterEpochMillis(millis.value);
        if at.None? then Crash(TimestampOutOfRange)
        else if !HasValue(tags, "target-msg-id") then Ignore(MissingTargetId)
        else
          var target := ParseUuid(tags["target-msg-id"].value);
          if target.None? then Crash(BadTargetId)
          else DeleteMessage(target.value, at.value)
  }

  /** A malformed deletion time panics even when the target id is missing. */
  lemma ClearmsgTimestampFirst(tags: TagMap)
    requires HasValue(tags, "tmi-sent-ts") && !RequiredTagParses("tmi-sent-ts", tags["tmi-sent-ts"].value)
    ensures ExtractClearmsg(tags).Crash?
  {
  }

  /**
   * Once the deletion time parses, the target decides: a missing target id
   * drops the event and a malformed one panics. A missing deletion time
   * drops the event whatever the target.
   */
  lemma ClearmsgTargetOutcomes(tags: TagMap)
    ensures !HasValue(tags, "tmi-sent-ts") ==> ExtractClearmsg(tags) == Ignore(MissingTimestamp)
    ensures HasValue(tags, "tmi-sent-ts") && RequiredTagParses("tmi-sent-ts", tags["tmi-sent-ts"].value) ==>
      (!HasValue(tags, "target-msg-id") ==> ExtractClearmsg(tags) == Ignore(MissingTargetId))
      && (HasValue(tags, "target-msg-id") && ParseUuid(tags["target-msg-id"].value).None? ==>
            ExtractClearmsg(tags) == Crash(BadTargetId))
  {
  }

  // ---------------------------------------------------------------------------
  // Dispatch

  /** The action an event asks for, by its command. */
  function Dispatch(ev: Event): (a: Action)
    ensures a.StoreMessage? ==> ev.command.PrivMsg? && ev.sourceNickname.Some?
    ensures a.StoreMessage? ==>
      a.message.channel == StripChannelPrefix(ev.command.target)
      && a.message.username == ev.sourceNickname.value && a.message.text == ev.command.body
      && !a.message.deleted && a.message.deletedAt.None?
    ensures a.DeleteMessage? ==> ev.command.Raw? && ev.command.name == "CLEARMSG"
    ensures a.ReportNotice? <==> ev.command.Notice?
    ensures ev.command.PrivMsg? && ev.sourceNickname.None? ==> a == Ignore(NoNickname)
    ensures ev.command.Raw? && ev.command.name != "CLEARMSG" ==> a == Ignore(Unhandled)
    ensures ev.command.OtherCommand? ==> a == Ignore(Unhandled)
    ensures ev.command.PrivMsg? && ev.sourceNickname.Some? ==>
      a == ExtractPrivmsg(StripChannelPrefix(ev.command.target), ev.sourceNickname.value, ev.command.body, TagsOf(ev))
    ensures ev.command.Raw? && ev.command.name == "CLEARMSG" ==> a == ExtractClearmsg(TagsOf(ev))
    ensures ev.command.Notice? ==> a == ReportNotice(ClassifyNotice(ev.command.body))
  {
    var tags := TagsOf(ev);
    match ev.command
    case Notice(_, body) => ReportNotice(ClassifyNotice(body))
    case PrivMsg(target, body) =>
      (match ev.sourceNickname
       case None => Ignore(NoNickname)
       case Some(nick) => ExtractPrivmsg(StripChannelPrefix(target), nick, body, tags))
    case Raw(name, _) =>
      if name == "CLEARMSG" then ExtractClearmsg(tags) else Ignore(Unhandled)
    case OtherCommand => Ignore(Unhandled)
  }

  // ---------------------------------------------------------------------------
  // Applying actions to the table

  /** The table after one action, and whether the worker goes on (`Halt` is a panic). */
  datatype Step = Continue(store: Store) | Halt(store: Store)

  /**
   * Inserting an id already in the table violates the primary key and panics;
   * an update of an unknown id never creates a row and, depending on the
   * database driver (`unknownUpdateFails`), either panics or changes nothing.
   */
  function Apply(store: Store, a: Action, unknownUpdateFails: bool): (s: Step)
    ensures s.store.Keys == store.Keys || (a.StoreMessage? && s.store.Keys == store.Keys + {a.message.id})
    ensures s.Halt? ==> s.store == store
  {
    match a
    case StoreMessage(m) =>
      if m.id in store then Halt(store) else Continue(store[m.id := m])
    case DeleteMessage(id, at) =>
      if id in store then Continue(store[id := store[id].(deleted := true, deletedAt := Some(at))])
      else if unknownUpdateFails then Halt(store)
      else Continue(store)
    case ReportNotice(_) => Continue(store)
    case Ignore(_) => Continue(store)
    case Crash(_) => Halt(store)
  }

  /** A soft delete sets exactly the two deletion columns of an existing row; nothing else changes and no row appears. */
  lemma SoftDeleteTouchesOnlyDeletionColumns(store: Store, id: Uuid, at: int, unknownUpdateFails: bool)
    ensures var s := Apply(store, DeleteMessage(id, at), unknownUpdateFails);
      && s.store.Keys == store.Keys
      && (forall other :: other in store && other != id ==> s.store[other] == store[other])
      && (id in store ==>
            s.Continue? && SameContent(s.store[id], store[id])
            && s.store[id].deleted && s.store[id].deletedAt == Some(at))
      && (id !in store ==> s.store == store)
  {
  }

  /** Applying the same deletion twice is the same as applying it once. */
  lemma SoftDeleteIdempotent(store: Store, id: Uuid, at: int, unknownUpdateFails: bool)
    requires Apply(store, DeleteMessage(id, at), unknownUpdateFails).Continue?
    ensures var once := Apply(store, DeleteMessage(id, at), unknownUpdateFails).store;
      Apply(once, DeleteMessage(id, at), unknownUpdateFails) == Continue(once)
  {
    var once := Apply(store, DeleteMessage(id, at), unknownUpdateFails).store;
    if id in store {
      assert once[id].(deleted := true, deletedAt := Some(at)) == once[id];
      assert once[id := once[id]] == once;
    }
  }

  /** Inserting a new id stores exactly that row, keeps every other row, and the worker goes on. */
  lemma FreshInsertStoresRow(store: Store, m: Message, unknownUpdateFails: bool)
    requires m.id !in store
    ensures var s := Apply(store, StoreMessage(m), unknownUpdateFails);
      s.Continue? && s.store.Keys == store.Keys + {m.id} && s.store[m.id] == m
      && forall other :: other in store ==> s.store[other] == store[other]
  {
  }

  /** Inserting an id that is already stored panics and leaves the table as it was. */
  lemma DuplicateInsertHalts(store: Store, m: Message, unknownUpdateFails: bool)
    requires m.id in store
    ensures Apply(store, StoreMessage(m), unknownUpdateFails) == Halt(store)
  {
  }

  /** A NOTICE never touches the table, whatever it says. */
  lemma NoticeLeavesStore(store: Store, ev: Event, unknownUpdateFails: bool)
    requires ev.command.Notice?
    ensures Apply(store, Dispatch(ev), unknownUpdateFails) == Continue(store)
  {
  }

  /** Only a CLEARMSG changes a row that already exists; every other command at most adds rows. */
  lemma OnlyClearmsgUpdatesRows(store: Store, ev: Event, unknownUpdateFails: bool, id: Uuid)
    requires id in store
    requires Apply(store, Dispatch(ev), unknownUpdateFails).store[id] != store[id]
    ensures ev.command.Raw? && ev.command.name == "CLEARMSG"
  {
  }

  /** Each event keeps every row under its own id and the deletion invariant. */
  lemma ApplyPreservesWellFormed(store: Store, ev: Event, unknownUpdateFails: bool)
    requires WellFormed(store)
    ensures WellFormed(Apply(store, Dispatch(ev), unknownUpdateFails).store)
    ensures forall id :: id in store ==>
      id in Apply(store, Dispatch(ev), unknownUpdateFails).store
      && SameContent(Apply(store, Dispatch(ev), unknownUpdateFails).store[id], store[id])
  {
    match Dispatch(ev)
    case StoreMessage(m) =>
      if m.id in store {
        DuplicateInsertHalts(store, m, unknownUpdateFails);
      } else {
        FreshInsertStoresRow(store, m, unknownUpdateFails);
      }
    case DeleteMessage(id, at) =>
      SoftDeleteTouchesOnlyDeletionColumns(store, id, at, unknownUpdateFails);
    case _ =>
  }

  // ---------------------------------------------------------------------------
  // The worker

  /** What the worker leaves behind: the table, and whether the task is still running. */
  datatype Worker = Worker(store: Store, running: bool)

  /** The worker folded over a sequence of events; it stops at the first panic. */
  function Run(store: Store, events: seq<Event>, unknownUpdateFails: bool): Worker
    decreases |events|
  {
    if events == [] then Worker(store, true)
    else
      match Apply(store, Dispatch(events[0]), unknownUpdateFails)
      case Continue(next) => Run(next, events[1..], unknownUpdateFails)
      case Halt(last) => Worker(last, false)
  }

  /** `message_processor`: receives events in order and applies each one to the table. */
  method RunWorker(initial: Store, events: seq<Event>, unknownUpdateFails: bool)
    returns (store: Store, running: bool)
    ensures Worker(store, running) == Run(initial, events, unknownUpdateFails)
  {
    store, running := initial, true;
    var i := 0;
    assert events[i..] == events;
    while i < |events| && running
      invariant 0 <= i <= |events|
      invariant running ==> Run(store, events[i..], unknownUpdateFails) == Run(initial, events, unknownUpdateFails)
      invariant !running ==> Worker(store, false) == Run(initial, events, unknownUpdateFails)
    {
      assert events[i..][0] == events[i];
      assert events[i..][1..] == events[i + 1..];
      var action := Dispatch(events[i]);
      ghost var step := Apply(store, action, unknownUpdateFails);
      assert Run(store, events[i..], unknownUpdateFails) ==
        if step.Continue? then Run(step.store, events[i + 1..], unknownUpdateFails) else Worker(step.store, false);
      match action {
        case StoreMessage(m) =>
          if m.id in store {
            running := false;
          } else {
            store := store[m.id := m];
          }
        case DeleteMessage(id, at) =>
          if id in store {
            store := store[id := store[id].(deleted := true, deletedAt := Some(at))];
          } else if unknownUpdateFails {
            running := false;
          }
        case ReportNotice(_) =>
        case Ignore(_) =>
        case Crash(_) =>
          running := false;
      }
      assert store == step.store && (running <==> step.Continue?);
      i := i + 1;
    }
  }

  /** Running over two batches is running over the first, then, if still alive, over the second. */
  lemma {:induction false} RunConcat(store: Store, a: seq<Event>, b: seq<Event>, unknownUpdateFails: bool)
    ensures var first := Run(store, a, unknownUpdateFails);
      Run(store, a + b, unknownUpdateFails) ==
        if first.running then Run(first.store, b, unknownUpdateFails) else first
    decreases |a|
  {
    if a == [] {
      assert a + b == b;
    } else {
      assert (a + b)[0] == a[0];
      assert (a + b)[1..] == a[1..] + b;
      match Apply(store, Dispatch(a[0]), unknownUpdateFails)
      case Continue(next) => RunConcat(next, a[1..], b, unknownUpdateFails);
      case Halt(_) =>
    }
  }

  /**
   * Over any run, the table stays well formed, no row is ever removed, and a
   * stored row changes at most in its deletion columns.
   */
  lemma {:induction false} RunKeepsRows(store: Store, events: seq<Event>, unknownUpdateFails: bool)
    requires WellFormed(store)
    ensures var after := Run(store, events, unknownUpdateFails).store;
      && WellFormed(after)
      && store.Keys <= after.Keys
      && forall id :: id in store ==> SameContent(after[id], store[id])
    decreases |events|
  {
    if events != [] {
      ApplyPreservesWellFormed(store, events[0], unknownUpdateFails);
      match Apply(store, Dispatch(events[0]), unknownUpdateFails)
      case Continue(next) =>
        RunKeepsRows(next, events[1..], unknownUpdateFails);
      case Halt(_) =>
    }
  }
}
