/**
 * The daily export: every message of one UTC day is written, one line per
 * message, into a plain-text log per channel and day. Rows arrive page by
 * page in timestamp order; each row is appended to the buffer of its log
 * file (created on first use) and counted against its channel; once all
 * pages are in, every buffer is flushed and synced.
 */
module Rollup {
  import opened Wrappers
  import opened Text
  import opened Clock
  import opened Uuids
  import opened Entity

  /** The page budget: 128 MiB of rows at a time. */
  const PageBudgetBytes: nat := 128 * 1024 * 1024

  /**
   * `MAX_MESSAGES_PER_PAGE`: as many rows as fit in the budget, given the
   * in-memory size of one row (a compile-time constant of the target, so a
   * parameter here).
   */
  function MaxMessagesPerPage(rowBytes: nat): (n: nat)
    requires rowBytes > 0
    ensures n * rowBytes <= PageBudgetBytes < (n + 1) * rowBytes
  {
    PageBudgetBytes / rowBytes
  }

  /** Any row no larger than the budget gives pages of at least one row, so the paginator always advances. */
  lemma PageNeverEmpty(rowBytes: nat)
    requires 0 < rowBytes <= PageBudgetBytes
    ensures MaxMessagesPerPage(rowBytes) >= 1
  {
  }

  // ---------------------------------------------------------------------
  // One log line
  // ---------------------------------------------------------------------

  /**
   * The layout of a log line: `[clock] <user> text` or, with a deletion
   * time, `[clock] <user; deleted at clock> text`, then one newline.
   */
  function LineOf(clock: string, username: string, deletedAt: Option<string>, text: string): string {
    var who := match deletedAt
      case None => username
      case Some(at) => username + "; deleted at " + at;
    "[" + clock + "] <" + who + "> " + text + "\n"
  }

  /** `format_message`: the deletion annotation follows `deleted_at`, not the `deleted` flag. */
  function FormatMessage(m: Message): string {
    var deletion := match m.deletedAt
      case None => None
      case Some(at) => Some(ClockText(at));
    LineOf(ClockText(m.timestamp), m.username, deletion, m.text)
  }

  /** The fields a reader recovers from one log line. */
  datatype LineFields = LineFields(time: string, username: string, deletedAt: Option<string>, text: string)

  /** The first position in s holding a or b, or |s| if there is none. */
  function FirstOf(s: string, a: char, b: char): (i: nat)
    ensures i <= |s|
    ensures forall j :: 0 <= j < i ==> s[j] != a && s[j] != b
    ensures i < |s| ==> s[i] == a || s[i] == b
  {
    if s == [] || s[0] == a || s[0] == b then 0 else 1 + FirstOf(s[1..], a, b)
  }

  /** Reads a log line back: the clock field, the user, the optional deletion time and the text. */
  function ParseLine(line: string): Option<LineFields> {
    if |line| < 15 || line[0] != '[' || line[9..12] != "] <" || line[|line| - 1] != '\n' then None
    else
      var rest := line[12..|line| - 1];
      var k := FirstOf(rest, '>', ';');
      if k == |rest| then None else ParseAfterName(line[1..9], rest[..k], rest[k..])
  }

  /** The part after the user name: `> text` or `; deleted at clock> text`. */
  function ParseAfterName(clock: string, username: string, tail: string): Option<LineFields> {
    if |tail| >= 2 && tail[..2] == "> " then Some(LineFields(clock, username, None, tail[2..]))
    else if |tail| >= 23 && tail[..13] == "; deleted at " && tail[21..23] == "> " then
      Some(LineFields(clock, username, Some(tail[13..21]), tail[23..]))
    else None
  }

  /** A user name that cannot be confused with the line's punctuation. */
  predicate PlainName(username: string) {
    forall i :: 0 <= i < |username| ==> username[i] != '>' && username[i] != ';'
  }

  /** Any line laid out with eight-character clocks reads back as the fields it was built from. */
  lemma LineRoundTrip(clock: string, username: string, deletedAt: Option<string>, text: string)
    requires |clock| == 8 && PlainName(username)
    requires deletedAt.Some? ==> |deletedAt.value| == 8
    ensures ParseLine(LineOf(clock, username, deletedAt, text)) == Some(LineFields(clock, username, deletedAt, text))
  {
    var line := LineOf(clock, username, deletedAt, text);
    var tail := match deletedAt
      case None => "> " + text
      case Some(at) => "; deleted at " + at + "> " + text;
    assert line == "[" + clock + "] <" + username + tail + "\n";
    assert line[0] == '[' && line[9..12] == "] <" && line[|line| - 1] == '\n';
    var rest := line[12..|line| - 1];
    assert rest == username + tail;
    assert line[1..9] == clock;
    FirstOfAfterName(username, tail);
    AfterNameRoundTrip(clock, username, deletedAt, text);
  }

  /** The user name ends at the first '>' or ';' after it, where the tail begins. */
  lemma FirstOfAfterName(username: string, tail: string)
    requires PlainName(username) && tail != [] && (tail[0] == '>' || tail[0] == ';')
    ensures var k := FirstOf(username + tail, '>', ';');
      k == |username| && (username + tail)[..k] == username && (username + tail)[k..] == tail
  {
    var rest := username + tail;
    assert rest[|username|] == tail[0];
    assert forall j :: 0 <= j < |username| ==> rest[j] == username[j];
  }

  lemma AfterNameRoundTrip(clock: string, username: string, deletedAt: Option<string>, text: string)
    requires deletedAt.Some? ==> |deletedAt.value| == 8
    ensures var tail := match deletedAt
        case None => "> " + text
        case Some(at) => "; deleted at " + at + "> " + text;
      ParseAfterName(clock, username, tail) == Some(LineFields(clock, username, deletedAt, text))
  {
    match deletedAt {
      case None =>
        var tail := "> " + text;
        assert tail[..2] == "> " && tail[2..] == text;
      case Some(at) =>
        var tail := "; deleted at " + at + "> " + text;
        assert tail[..2] != "> " by {
          assert tail[0] == ';';
        }
        assert tail[..13] == "; deleted at " && tail[13..21] == at;
        assert tail[21..23] == "> " && tail[23..] == text;
    }
  }

  /**
   * A message's line reads back as its time, user, deletion time (exactly
   * when `deleted_at` is set) and verbatim text, provided the user name
   * holds neither '>' nor ';' (Twitch login names never do).
   */
  lemma FormatRoundTrip(m: Message)
    requires PlainName(m.username)
    ensures ParseLine(FormatMessage(m)) == Some(LineFields(
      ClockText(m.timestamp),
      m.username,
      if m.deletedAt.Some? then Some(ClockText(m.deletedAt.value)) else None,
      m.text))
  {
    var deletion := match m.deletedAt
      case None => None
      case Some(at) => Some(ClockText(at));
    LineRoundTrip(ClockText(m.timestamp), m.username, deletion, m.text);
  }

  /**
   * Whatever the user name, a message's line opens with its bracketed clock
   * time, ends with its verbatim text and a newline, and is 21 characters
   * longer when `deleted_at` is set.
   */
  lemma FormatLayout(m: Message)
    ensures var line := FormatMessage(m);
      |line| == 15 + |m.username| + |m.text| + (if m.deletedAt.Some? then 21 else 0)
      && line[0] == '[' && line[1..9] == ClockText(m.timestamp) && line[|line| - 1] == '\n'
      && line[|line| - 1 - |m.text|..|line| - 1] == m.text
  {
  }

  /** Setting the `deleted` flag without a deletion time leaves a message's line unchanged. */
  lemma FormatIgnoresDeletedFlag(m: Message, flag: bool)
    ensures FormatMessage(m.(deleted := flag)) == FormatMessage(m)
  {
  }

  // ---------------------------------------------------------------------
  // Log file names
  // ---------------------------------------------------------------------

  /** The layout of a buffer key: `<channel>_<date>.txt`. */
  function NameOf(channel: string, date: string): string {
    channel + "_" + date + ".txt"
  }

  /** `get_text_log_file_name`: the key for a channel and the UTC date of an instant. */
  function LogFileName(channel: string, t: int): string {
    NameOf(channel, DateText(DayOf(t)))
  }

  /** The buffer key of a row. */
  function LogKey(m: Message): string {
    LogFileName(m.channel, m.timestamp)
  }

  /** The index of the last '.' in s, or |s| if there is none. */
  function LastDot(s: string): (i: nat)
    ensures i <= |s|
    ensures i < |s| ==> s[i] == '.' && forall j :: i < j < |s| ==> s[j] != '.'
    ensures i == |s| ==> forall j :: 0 <= j < |s| ==> s[j] != '.'
  {
    if s == [] then 0
    else if s[|s| - 1] == '.' then |s| - 1
    else
      var i := LastDot(s[..|s| - 1]);
      if i == |s| - 1 then |s| else i
  }

  /**
   * `Path::with_extension("log")` on a file name: the stem (everything
   * before the last '.', unless that '.' is the leading one) then ".log".
   * Names without a file stem ("", "." and "..", which are no file name at
   * all or the current and parent directory) are left as they are.
   */
  function WithLogExtension(name: string): (r: string)
    ensures name != "" && name != "." && name != ".." ==>
      |r| >= 4 && r[|r| - 4..] == ".log" && r[..|r| - 4] <= name
      && (r[..|r| - 4] == name <==> forall j :: 0 < j < |name| ==> name[j] != '.')
    ensures name == "" || name == "." || name == ".." ==> r == name
  {
    if name == "" || name == "." || name == ".." then name
    else
      var i := LastDot(name);
      var stem := if i == |name| || i == 0 then name else name[..i];
      stem + ".log"
  }

  /** Whatever the channel and date, the created file is the key with ".txt" replaced by ".log". */
  lemma NameTakesLogExtension(channel: string, date: string)
    ensures WithLogExtension(NameOf(channel, date)) == channel + "_" + date + ".log"
  {
    var stem := channel + "_" + date;
    var name := NameOf(channel, date);
    assert name == stem + ".txt";
    var i := LastDot(name);
    assert name[|stem|] == '.';
    assert forall j :: |stem| < j < |name| ==> name[j] != '.' by {
      forall j | |stem| < j < |name| ensures name[j] != '.' {
        assert name[j] == ".txt"[j - |stem|];
      }
    }
    assert i == |stem|;
    assert name[..i] == stem;
  }

  /**
   * Between the years 0 and 9999 a file name tells its channel and its day:
   * two rows share a file exactly when they share the channel and the UTC day.
   */
  lemma LogFileNameInjective(c1: string, t1: int, c2: string, t2: int)
    requires FirstFourDigitDay <= DayOf(t1) <= LastFourDigitDay
    requires FirstFourDigitDay <= DayOf(t2) <= LastFourDigitDay
    ensures LogFileName(c1, t1) == LogFileName(c2, t2) <==> c1 == c2 && DayOf(t1) == DayOf(t2)
  {
    var d1, d2 := DateText(DayOf(t1)), DateText(DayOf(t2));
    DateTextReadsBack(DayOf(t1));
    DateTextReadsBack(DayOf(t2));
    var n1, n2 := LogFileName(c1, t1), LogFileName(c2, t2);
    if n1 == n2 {
      assert |c1| == |c2|;
      assert n1[..|c1|] == c1 && n2[..|c2|] == c2;
      assert n1[|c1| + 1..|c1| + 11] == d1 && n2[|c2| + 1..|c2| + 11] == d2;
      DateTextInjective(DayOf(t1), DayOf(t2));
    }
  }

  /** The file a row goes to: `<channel>_<YYYY-MM-DD>.log`. */
  lemma LogFileReplacesTxt(channel: string, t: int)
    ensures WithLogExtension(LogFileName(channel, t)) == channel + "_" + DateText(DayOf(t)) + ".log"
  {
    NameTakesLogExtension(channel, DateText(DayOf(t)));
  }

  // ---------------------------------------------------------------------
  // The day window
  // ---------------------------------------------------------------------

  /** The closed timestamp window of the export for a day: `between(start_of_day, end_of_day)`. */
  predicate InExportWindow(day: int, t: int) {
    StartOfDay(day) <= t <= StartOfDay(day) + NanosPerDay - 1
  }

  /**
   * What the ordered, windowed query returns when read to the end: the
   * rows of the store inside the window, each once, in ascending timestamp
   * order. The database is not part of the model, so this is an assumption
   * relating the fetched rows to the table.
   */
  ghost predicate ScanOf(store: Store, day: int, rows: seq<Message>) {
    SortedByTime(rows)
    && (forall i :: 0 <= i < |rows| ==>
          rows[i].id in store && store[rows[i].id] == rows[i] && InExportWindow(day, rows[i].timestamp))
    && (forall id :: id in store && InExportWindow(day, store[id].timestamp) ==>
          exists i :: 0 <= i < |rows| && rows[i].id == id)
    && (forall i, j :: 0 <= i < j < |rows| ==> rows[i].id != rows[j].id)
  }

  // ---------------------------------------------------------------------
  // Routing and counting, as specification functions
  // ---------------------------------------------------------------------

  /** What the loop derives from one row: its buffer key, its channel, its time and its line. */
  datatype Entry = Entry(key: string, channel: string, timestamp: int, line: string)

  function EntryOf(m: Message): Entry {
    Entry(LogKey(m), m.channel, m.timestamp, FormatMessage(m))
  }

  function Entries(rows: seq<Message>): (es: seq<Entry>)
    ensures |es| == |rows|
  {
    if rows == [] then [] else [EntryOf(rows[0])] + Entries(rows[1..])
  }

  lemma {:induction false} EntriesAt(rows: seq<Message>, i: nat)
    requires i < |rows|
    ensures Entries(rows)[i] == EntryOf(rows[i])
  {
    if i > 0 {
      EntriesAt(rows[1..], i - 1);
    }
  }

  lemma {:induction false} EntriesConcat(a: seq<Message>, b: seq<Message>)
    ensures Entries(a + b) == Entries(a) + Entries(b)
  {
    if a == [] {
      assert a + b == b;
    } else {
      assert (a + b)[1..] == a[1..] + b;
      EntriesConcat(a[1..], b);
    }
  }

  /** The contents written so far to each open log buffer, by key. */
  type Buffers = map<string, seq<string>>

  /** `messages_saved`: rows counted per channel. */
  type Counters = map<string, nat>

  function BufferOf(files: Buffers, k: string): seq<string> {
    if k in files then files[k] else []
  }

  function CountOf(saved: Counters, c: string): nat {
    if c in saved then saved[c] else 0
  }

  /** Appending one line to the buffer of its key (opening the buffer if needed). */
  function Route(files: Buffers, x: Entry): Buffers {
    files[x.key := BufferOf(files, x.key) + [x.line]]
  }

  /** The `and_modify(+1).or_insert(1)` update of a channel's counter. */
  function Count(saved: Counters, x: Entry): Counters {
    saved[x.channel := CountOf(saved, x.channel) + 1]
  }

  function RouteAll(files: Buffers, xs: seq<Entry>): Buffers
    decreases |xs|
  {
    if xs == [] then files else RouteAll(Route(files, xs[0]), xs[1..])
  }

  function CountAll(saved: Counters, xs: seq<Entry>): Counters
    decreases |xs|
  {
    if xs == [] then saved else CountAll(Count(saved, xs[0]), xs[1..])
  }

  /** Reference definitions: the entries with a given key, and the number of entries of a channel. */
  function EntriesFor(xs: seq<Entry>, k: string): (r: seq<Entry>)
    ensures |r| <= |xs|
  {
    if xs == [] then []
    else (if xs[0].key == k then [xs[0]] else []) + EntriesFor(xs[1..], k)
  }

  function CountIn(xs: seq<Entry>, c: string): nat {
    if xs == [] then 0
    else (if xs[0].channel == c then 1 else 0) + CountIn(xs[1..], c)
  }

  function LinesOf(xs: seq<Entry>): (lines: seq<string>)
    ensures |lines| == |xs|
  {
    if xs == [] then [] else [xs[0].line] + LinesOf(xs[1..])
  }

  /** The i-th line is the line of the i-th entry. */
  lemma {:induction false} LinesOfAt(xs: seq<Entry>, i: nat)
    requires i < |xs|
    ensures LinesOf(xs)[i] == xs[i].line
  {
    if i > 0 {
      LinesOfAt(xs[1..], i - 1);
    }
  }

  /** A buffer is open after the loop exactly when it was open before or some entry has its key. */
  lemma {:induction false} RouteAllKeys(files: Buffers, xs: seq<Entry>, k: string)
    ensures k in RouteAll(files, xs) <==> k in files || EntriesFor(xs, k) != []
    decreases |xs|
  {
    if xs != [] {
      RouteAllKeys(Route(files, xs[0]), xs[1..], k);
    }
  }

  /**
   * Every entry goes to exactly one buffer, the one for its key: each
   * buffer is its old contents followed by the lines of the entries with
   * that key, in the order they came.
   */
  lemma {:induction false} RouteAllFilters(files: Buffers, xs: seq<Entry>, k: string)
    ensures BufferOf(RouteAll(files, xs), k) == BufferOf(files, k) + LinesOf(EntriesFor(xs, k))
    decreases |xs|
  {
    if xs != [] {
      var next := Route(files, xs[0]);
      var rest := EntriesFor(xs[1..], k);
      RouteAllFilters(next, xs[1..], k);
      if xs[0].key == k {
        assert EntriesFor(xs, k) == [xs[0]] + rest;
        assert LinesOf(EntriesFor(xs, k)) == [xs[0].line] + LinesOf(rest);
        assert BufferOf(next, k) == BufferOf(files, k) + [xs[0].line];
      } else {
        assert EntriesFor(xs, k) == rest;
        assert BufferOf(next, k) == BufferOf(files, k);
      }
    }
  }

  /** After the loop, each channel's counter is the number of its rows. */
  lemma {:induction false} CountAllTallies(saved: Counters, xs: seq<Entry>, c: string)
    ensures c in CountAll(saved, xs) <==> c in saved || CountIn(xs, c) > 0
    ensures CountOf(CountAll(saved, xs), c) == CountOf(saved, c) + CountIn(xs, c)
    decreases |xs|
  {
    if xs != [] {
      CountAllTallies(Count(saved, xs[0]), xs[1..], c);
    }
  }

  /** The entries with a key are the entries in the input with that key. */
  lemma {:induction false} EntriesForMembers(xs: seq<Entry>, k: string)
    ensures forall x :: x in EntriesFor(xs, k) <==> x in xs && x.key == k
  {
    if xs != [] {
      EntriesForMembers(xs[1..], k);
      assert forall x :: x in xs <==> x == xs[0] || x in xs[1..];
    }
  }

  predicate EntriesInOrder(xs: seq<Entry>) {
    forall i, j :: 0 <= i < j < |xs| ==> xs[i].timestamp <= xs[j].timestamp
  }

  /** A log file lists its messages in timestamp order when the rows came in that order. */
  lemma {:induction false} EntriesForInOrder(xs: seq<Entry>, k: string)
    requires EntriesInOrder(xs)
    ensures EntriesInOrder(EntriesFor(xs, k))
  {
    if xs != [] {
      var tail := xs[1..];
      assert EntriesInOrder(tail) by {
        forall i, j | 0 <= i < j < |tail| ensures tail[i].timestamp <= tail[j].timestamp {
          assert tail[i] == xs[i + 1] && tail[j] == xs[j + 1];
        }
      }
      EntriesForInOrder(tail, k);
      EntriesForMembers(tail, k);
      var r := EntriesFor(tail, k);
      if xs[0].key == k {
        var whole := [xs[0]] + r;
        forall i, j | 0 <= i < j < |whole| ensures whole[i].timestamp <= whole[j].timestamp {
          if i == 0 {
            assert whole[j] == r[j - 1] && r[j - 1] in tail;
            var p :| 0 <= p < |tail| && tail[p] == r[j - 1];
            assert xs[p + 1] == tail[p];
          } else {
            assert whole[i] == r[i - 1] && whole[j] == r[j - 1];
          }
        }
      } else {
        assert EntriesFor(xs, k) == r;
      }
    }
  }

  /** The sum of all counters. */
  ghost function SumValues(saved: Counters): nat
    decreases |saved.Keys|
  {
    if saved == map[] then 0
    else
      var c :| c in saved;
      saved[c] + SumValues(saved - {c})
  }

  /** The sum does not depend on which counter is taken first. */
  lemma {:induction false} SumValuesRemove(saved: Counters, c: string)
    requires c in saved
    ensures SumValues(saved) == saved[c] + SumValues(saved - {c})
    decreases |saved.Keys|
  {
    var d :| d in saved && SumValues(saved) == saved[d] + SumValues(saved - {d});
    if d != c {
      assert |(saved - {d}).Keys| < |saved.Keys| by {
        assert (saved - {d}).Keys < saved.Keys;
      }
      assert |(saved - {c}).Keys| < |saved.Keys| by {
        assert (saved - {c}).Keys < saved.Keys;
      }
      SumValuesRemove(saved - {d}, c);
      SumValuesRemove(saved - {c}, d);
      assert saved - {d} - {c} == saved - {c} - {d};
    }
  }

  lemma SumValuesCount(saved: Counters, x: Entry)
    ensures SumValues(Count(saved, x)) == SumValues(saved) + 1
  {
    var next := Count(saved, x);
    SumValuesRemove(next, x.channel);
    assert next - {x.channel} == saved - {x.channel};
    if x.channel in saved {
      SumValuesRemove(saved, x.channel);
    } else {
      assert saved - {x.channel} == saved;
    }
  }

  /** The counters add up to the number of rows read. */
  lemma {:induction false} CountersSumToRows(saved: Counters, xs: seq<Entry>)
    ensures SumValues(CountAll(saved, xs)) == SumValues(saved) + |xs|
    decreases |xs|
  {
    if xs != [] {
      SumValuesCount(saved, xs[0]);
      CountersSumToRows(Count(saved, xs[0]), xs[1..]);
    }
  }

  /** Every entry's line ends up in the buffer of its key. */
  lemma EntryIsRouted(xs: seq<Entry>, x: Entry)
    requires x in xs
    ensures x.line in BufferOf(RouteAll(map[], xs), x.key)
  {
    EntriesForMembers(xs, x.key);
    RouteAllFilters(map[], xs, x.key);
    var r := EntriesFor(xs, x.key);
    var p :| 0 <= p < |r| && r[p] == x;
    LinesOfAt(r, p);
  }

  /** A row of the day in the table has its line in the buffer for its key. */
  lemma RowIsExported(store: Store, day: int, rows: seq<Message>, id: Uuid)
    requires ScanOf(store, day, rows)
    requires id in store && DayOf(store[id].timestamp) == day
    ensures FormatMessage(store[id]) in BufferOf(RouteAll(map[], Entries(rows)), LogKey(store[id]))
  {
    var m := store[id];
    var xs := Entries(rows);
    assert InExportWindow(day, m.timestamp) by {
      InWindowIffSameDay(day, m.timestamp);
    }
    var i :| 0 <= i < |rows| && rows[i].id == id;
    assert rows[i] == m;
    EntriesAt(rows, i);
    var x := xs[i];
    assert x.line == FormatMessage(m) && x.key == LogKey(m);
    EntryIsRouted(xs, x);
  }

  /** A buffer exists only for the key of some entry. */
  lemma RoutedKeyHasEntry(xs: seq<Entry>, k: string)
    requires k in RouteAll(map[], xs)
    ensures exists i :: 0 <= i < |xs| && xs[i].key == k
  {
    RouteAllKeys(map[], xs, k);
    EntriesForMembers(xs, k);
    var x := EntriesFor(xs, k)[0];
    assert x in EntriesFor(xs, k);
  }

  /** Every buffer opened by a run over a day's scan is named for that day. */
  lemma KeysNameTheDay(store: Store, day: int, rows: seq<Message>, k: string)
    requires ScanOf(store, day, rows)
    requires k in RouteAll(map[], Entries(rows))
    ensures exists i :: 0 <= i < |rows| && k == NameOf(rows[i].channel, DateText(day))
  {
    var xs := Entries(rows);
    RoutedKeyHasEntry(xs, k);
    var i :| 0 <= i < |xs| && xs[i].key == k;
    EntriesAt(rows, i);
    var m := rows[i];
    assert DayOf(m.timestamp) == day by {
      InWindowIffSameDay(day, m.timestamp);
    }
    assert k == LogKey(m);
  }

  /** Every buffer of a run over a day's scan lists its lines in timestamp order. */
  lemma BuffersInTimeOrder(store: Store, day: int, rows: seq<Message>, k: string)
    requires ScanOf(store, day, rows)
    ensures EntriesInOrder(EntriesFor(Entries(rows), k))
  {
    var xs := Entries(rows);
    assert EntriesInOrder(xs) by {
      forall i, j | 0 <= i < j < |xs| ensures xs[i].timestamp <= xs[j].timestamp {
        EntriesAt(rows, i);
        EntriesAt(rows, j);
      }
    }
    EntriesForInOrder(xs, k);
  }

  // ---------------------------------------------------------------------
  // The export run with its failure modes
  // ---------------------------------------------------------------------

  /** Keys whose log file cannot be created, written, or flushed and synced. */
  datatype FileFaults = FileFaults(uncreatable: set<string>, unwritable: set<string>, unsyncable: set<string>)

  const NoFaults := FileFaults({}, {}, {})

  /** Why a run returned an error. */
  datatype Failure = FetchFailed | WriteFailed(key: string) | SyncFailed

  /**
   * The state of a run: still exporting (buffers and counters so far), ended
   * with an error, or stopped by the panic of a file that cannot be created.
   */
  datatype Export = Exporting(files: Buffers, saved: Counters) | Failed(failure: Failure) | Panicked

  /**
   * One row: open its buffer if new (creation failure panics), count it,
   * then write its line (a write failure ends the run).
   */
  function ExportEntry(e: Export, x: Entry, faults: FileFaults): Export {
    match e
    case Exporting(files, saved) =>
      if x.key !in files && x.key in faults.uncreatable then Panicked
      else if x.key in faults.unwritable then Failed(WriteFailed(x.key))
      else Exporting(Route(files, x), Count(saved, x))
    case _ => e
  }

  function ExportEntries(e: Export, xs: seq<Entry>, faults: FileFaults): Export
    decreases |xs|
  {
    if xs == [] then e else ExportEntries(ExportEntry(e, xs[0], faults), xs[1..], faults)
  }

  /** The page loop: each fetched page in turn, stopping at the first fetch error. */
  function ExportPages(e: Export, pages: seq<PageFetch>, faults: FileFaults): Export
    decreases |pages|
  {
    if pages == [] || !e.Exporting? then e
    else match pages[0]
      case FetchError => Failed(FetchFailed)
      case Page(rows) => ExportPages(ExportEntries(e, Entries(rows), faults), pages[1..], faults)
  }

  /** The drain: the run fails if any open buffer cannot be flushed and synced. */
  function Finish(e: Export, faults: FileFaults): Export {
    if e.Exporting? && exists k :: k in e.files && k in faults.unsyncable then Failed(SyncFailed) else e
  }

  /** A run that has ended stays ended. */
  lemma {:induction false} ExportEntriesEnded(e: Export, xs: seq<Entry>, faults: FileFaults)
    requires !e.Exporting?
    ensures ExportEntries(e, xs, faults) == e
    decreases |xs|
  {
    if xs != [] {
      ExportEntriesEnded(e, xs[1..], faults);
    }
  }

  lemma {:induction false} ExportEntriesConcat(e: Export, a: seq<Entry>, b: seq<Entry>, faults: FileFaults)
    ensures ExportEntries(e, a + b, faults) == ExportEntries(ExportEntries(e, a, faults), b, faults)
    decreases |a|
  {
    if a != [] {
      assert (a + b)[1..] == a[1..] + b;
      ExportEntriesConcat(ExportEntry(e, a[0], faults), a[1..], b, faults);
    } else {
      assert a + b == b;
    }
  }

  /**
   * Paging is transparent: reading the rows page by page ends in the same
   * state as reading all rows before the first fetch error at once, except
   * that a fetch error ends a run that was still going.
   */
  lemma {:induction false} PagingIsTransparent(e: Export, pages: seq<PageFetch>, faults: FileFaults)
    ensures var whole := ExportEntries(e, Entries(RowsBeforeError(pages)), faults);
      ExportPages(e, pages, faults) == (if NoFetchError(pages) || !whole.Exporting? then whole else Failed(FetchFailed))
    decreases |pages|
  {
    if pages == [] {
    } else if !e.Exporting? {
      ExportEntriesEnded(e, Entries(RowsBeforeError(pages)), faults);
    } else if pages[0].FetchError? {
    } else {
      var rows := pages[0].rows;
      PagingIsTransparent(ExportEntries(e, Entries(rows), faults), pages[1..], faults);
      EntriesConcat(rows, RowsBeforeError(pages[1..]));
      ExportEntriesConcat(e, Entries(rows), Entries(RowsBeforeError(pages[1..])), faults);
      NoFetchErrorTail(pages);
    }
  }

  lemma NoFetchErrorTail(pages: seq<PageFetch>)
    requires pages != [] && pages[0].Page?
    ensures NoFetchError(pages) <==> NoFetchError(pages[1..])
  {
    if NoFetchError(pages[1..]) {
      forall i | 0 <= i < |pages| ensures pages[i].Page? {
        if i > 0 { assert pages[i] == pages[1..][i - 1]; }
      }
    }
  }

  /** Without faults, a run's state is exactly the routed buffers and the tallied counters. */
  lemma {:induction false} FaultFreeEntries(files: Buffers, saved: Counters, xs: seq<Entry>)
    ensures ExportEntries(Exporting(files, saved), xs, NoFaults) == Exporting(RouteAll(files, xs), CountAll(saved, xs))
    decreases |xs|
  {
    if xs != [] {
      FaultFreeEntries(Route(files, xs[0]), Count(saved, xs[0]), xs[1..]);
    }
  }

  /** A fault-free run over pages without a fetch error exports all their rows. */
  lemma FaultFreeRun(pages: seq<PageFetch>)
    requires NoFetchError(pages)
    ensures var xs := Entries(RowsBeforeError(pages));
      Finish(ExportPages(Exporting(map[], map[]), pages, NoFaults), NoFaults)
        == Exporting(RouteAll(map[], xs), CountAll(map[], xs))
  {
    PagingIsTransparent(Exporting(map[], map[]), pages, NoFaults);
    FaultFreeEntries(map[], map[], Entries(RowsBeforeError(pages)));
  }

  /**
   * A row whose log file cannot be created stops the run with a panic,
   * unless a write error ends the run first.
   */
  lemma {:induction false} UncreatableFilePanics(files: Buffers, saved: Counters, xs: seq<Entry>, faults: FileFaults)
    requires faults.unwritable == {}
    requires forall k :: k in files ==> k !in faults.uncreatable
    requires exists i :: 0 <= i < |xs| && xs[i].key in faults.uncreatable
    ensures ExportEntries(Exporting(files, saved), xs, faults) == Panicked
    decreases |xs|
  {
    if xs[0].key in faults.uncreatable {
      ExportEntriesEnded(Panicked, xs[1..], faults);
    } else {
      var i :| 0 <= i < |xs| && xs[i].key in faults.uncreatable;
      assert xs[1..][i - 1] == xs[i];
      UncreatableFilePanics(Route(files, xs[0]), Count(saved, xs[0]), xs[1..], faults);
    }
  }

  /** One step of the page loop. */
  lemma PagesStep(e: Export, pages: seq<PageFetch>, p: nat, faults: FileFaults)
    requires p < |pages| && e.Exporting?
    ensures ExportPages(e, pages[p..], faults) == match pages[p]
      case FetchError => Failed(FetchFailed)
      case Page(rows) => ExportPages(ExportEntries(e, Entries(rows), faults), pages[p + 1..], faults)
  {
    assert pages[p..][0] == pages[p] && pages[p..][1..] == pages[p + 1..];
  }

  /** One step of the row loop. */
  lemma ExportStep(e: Export, xs: seq<Entry>, j: nat, faults: FileFaults)
    requires j < |xs|
    ensures ExportEntries(e, xs[j..], faults) == ExportEntries(ExportEntry(e, xs[j], faults), xs[j + 1..], faults)
  {
    assert xs[j..][0] == xs[j] && xs[j..][1..] == xs[j + 1..];
  }

  /** No key is created twice. */
  predicate Distinct(created: seq<string>) {
    forall i, j :: 0 <= i < j < |created| ==> created[i] != created[j]
  }

  /**
   * The row loop of one page: for each entry, create its file on first use,
   * count it, write its line. Stops at the first panic or write error.
   */
  method WritePage(files0: Buffers, saved0: Counters, created0: seq<string>, xs: seq<Entry>, faults: FileFaults)
    returns (e: Export, created: seq<string>)
    requires forall k :: k in files0 <==> k in created0
    requires Distinct(created0)
    ensures e == ExportEntries(Exporting(files0, saved0), xs, faults)
    ensures e.Exporting? ==> forall k :: k in e.files <==> k in created
    ensures Distinct(created)
  {
    var files, saved := files0, saved0;
    created := created0;
    var j := 0;
    while j < |xs|
      invariant 0 <= j <= |xs|
      invariant ExportEntries(Exporting(files, saved), xs[j..], faults) == ExportEntries(Exporting(files0, saved0), xs, faults)
      invariant forall k :: k in files <==> k in created
      invariant Distinct(created)
    {
      var x := xs[j];
      ExportStep(Exporting(files, saved), xs, j, faults);
      if x.key !in files {
        if x.key in faults.uncreatable {
          ExportEntriesEnded(Panicked, xs[j + 1..], faults);
          return Panicked, created;
        }
        created := created + [x.key];
      }
      saved := Count(saved, x);
      if x.key in faults.unwritable {
        ExportEntriesEnded(Failed(WriteFailed(x.key)), xs[j + 1..], faults);
        return Failed(WriteFailed(x.key)), created;
      }
      files := Route(files, x);
      j := j + 1;
    }
    assert xs[j..] == [];
    e := Exporting(files, saved);
  }

  /**
   * The drain: flush and sync each open buffer in turn, stopping at the
   * first that fails. Returns whether all succeeded and what was synced.
   */
  method SyncAll(files: Buffers, faults: FileFaults) returns (ok: bool, synced: Buffers)
    ensures ok <==> forall k :: k in files ==> k !in faults.unsyncable
    ensures ok ==> synced == files
    ensures forall k :: k in synced ==> k in files && synced[k] == files[k]
  {
    synced := map[];
    var remaining := files.Keys;
    while remaining != {}
      invariant remaining <= files.Keys
      invariant forall k :: k in synced <==> k in files && k !in remaining
      invariant forall k :: k in synced ==> synced[k] == files[k] && k !in faults.unsyncable
      decreases |remaining|
    {
      var k :| k in remaining;
      if k in faults.unsyncable {
        return false, synced;
      }
      synced := synced[k := files[k]];
      remaining := remaining - {k};
    }
    ok := true;
  }

  /**
   * `rollup_everything` for the rows of one day, delivered as `pages`.
   * Returns the outcome, the contents of every log file flushed and synced,
   * and the keys whose files were created, in order.
   */
  method RollupEverything(pages: seq<PageFetch>, faults: FileFaults)
    returns (outcome: Export, synced: Buffers, created: seq<string>)
    ensures outcome == Finish(ExportPages(Exporting(map[], map[]), pages, faults), faults)
    ensures outcome.Exporting? ==> synced == outcome.files
    ensures var e := ExportPages(Exporting(map[], map[]), pages, faults);
      forall k :: k in synced ==> e.Exporting? && k in e.files && synced[k] == e.files[k]
    ensures Distinct(created)
    ensures outcome.Exporting? ==> forall k :: k in outcome.files <==> k in created
  {
    var state := Exporting(map[], map[]);
    created := [];
    synced := map[];
    ghost var goal := ExportPages(state, pages, faults);
    var p := 0;
    while p < |pages|
      invariant 0 <= p <= |pages|
      invariant state.Exporting?
      invariant ExportPages(state, pages[p..], faults) == goal
      invariant forall k :: k in state.files <==> k in created
      invariant Distinct(created)
    {
      PagesStep(state, pages, p, faults);
      if pages[p].FetchError? {
        outcome := Failed(FetchFailed);
        return;
      }
      state, created := WritePage(state.files, state.saved, created, Entries(pages[p].rows), faults);
      if !state.Exporting? {
        assert ExportPages(state, pages[p + 1..], faults) == state;
        outcome := state;
        return;
      }
      p := p + 1;
    }
    var ok;
    ok, synced := SyncAll(state.files, faults);
    outcome := if ok then state else Failed(SyncFailed);
  }

  // ---------------------------------------------------------------------
  // The schedule
  // ---------------------------------------------------------------------

  /**
   * The wait in `rollup_task`: today's midnight plus one day, minus now.
   * None when the next midnight lies beyond the last representable instant
   * (the addition panics).
   */
  function TimeUntilNextMidnight(now: int): (wait: Option<int>)
    ensures wait.Some? ==> 0 < wait.value <= NanosPerDay
    ensures wait.Some? ==> DayOf(now + wait.value) == DayOf(now) + 1 && (now + wait.value) % NanosPerDay == 0
    ensures wait.Some? <==> DayOf(now) < DayOf(MaxNanos)
  {
    DayOfBrackets(MaxNanos);
    DayOfBrackets(StartOfDay(DayOf(now)) + NanosPerDay);
    DayOfBrackets(now);
    var next := StartOfDay(DayOf(now)) + NanosPerDay;
    if next <= MaxNanos then Some(next - now) else None
  }

  /** A midnight wake-up exports the day that has just ended: the date captured before the wait. */
  lemma MidnightRunExportsPreviousDay(now: int)
    requires Representable(now) && TimeUntilNextMidnight(now).Some?
    ensures var wake := now + TimeUntilNextMidnight(now).value;
      DayOf(wake) - 1 == DayOf(now)
      && forall t :: InExportWindow(DayOf(now), t) ==> t < wake
  {
    var wake := now + TimeUntilNextMidnight(now).value;
    forall t | InExportWindow(DayOf(now), t) ensures t < wake {
      DayOfBrackets(now);
    }
  }
}
