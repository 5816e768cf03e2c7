/** The watcher of src/dmcc/inotify/inotify.cpp: a table from watch
    descriptors to watched paths, the event signal, and the listen loop that
    walks each chunk read from the inotify descriptor record by record,
    resolves each record's path and emits the signal until a slot asks to
    stop. The kernel calls (inotify_init, inotify_add_watch, read) are not
    made here: their results are parameters. */
module Inotify {
  import opened Wrappers
  import opened InotifyRecord

  /** A filesystem path, as its string form. */
  type Path = string

  const Slash: char := '/'


  /** `p / name`: appends `name` to `p`, putting one separator between them
      unless one is already there; an empty side leaves the other as it is. */
  function Join(p: Path, name: string): Path
  {
    if p == [] then name
    else if name == [] then p
    else if p[|p| - 1] == Slash || name[0] == Slash then p + name
    else p + [Slash] + name
  }

  /** A joined path starts with the directory path, ends with the name, and
      adds at most one separator between them. */
  lemma JoinParts(p: Path, name: string)
    ensures var r := Join(p, name);
      |p| + |name| <= |r| <= |p| + |name| + 1
      && r[..|p|] == p && r[|r| - |name|..] == name
      && (|r| == |p| + |name| + 1 ==> r[|p|] == Slash)
      && (name == [] ==> r == p) && (p == [] ==> r == name)
  {
  }

  /** The string held in a name field: its bytes, read as characters, up
      to the first NUL, or the whole field when it holds none. */
  function CString(field: seq<byte>): string
  {
    if field == [] || field[0] == 0 then "" else [field[0] as char] + CString(field[1..])
  }

  /** The string is the longest NUL-free prefix of the field. */
  lemma {:induction false} CStringIsNulFreePrefix(field: seq<byte>)
    ensures var s := CString(field);
      |s| <= |field|
      && (forall k :: 0 <= k < |s| ==> field[k] != 0 && s[k] == field[k] as char)
      && (|s| < |field| ==> field[|s|] == 0)
  {
    if field != [] && field[0] != 0 {
      CStringIsNulFreePrefix(field[1..]);
      var s := CString(field);
      assert s == [field[0] as char] + CString(field[1..]);
      forall k | 1 <= k < |s| ensures field[k] != 0 && s[k] == field[k] as char {
        assert s[k] == CString(field[1..])[k - 1] && field[k] == field[1..][k - 1];
      }
    }
  }

  /** The `event` wrapper. The source keeps a pointer to the record inside
      the read buffer and decodes a field on each accessor call; the buffer
      is not written while the event is in use, so the model decodes the
      record once, when the event is made. `name` is what name() returns
      and `path` the path resolved for the record. */
  datatype Event = Event(at: nat, wd: int, mask: nat, cookie: nat, len: nat, name: string, path: Path)

  /** name(): empty when the record carries no name (`len` is 0), otherwise
      the name field up to its first NUL. */
  function NameAt(buf: seq<byte>, at: nat): string
    requires Fits(buf, at)
  {
    if LenAt(buf, at) <= 0 then "" else CString(NameField(buf, at))
  }

  /** The event made over the record at `at`, before its path is resolved. */
  function Decode(buf: seq<byte>, at: nat): Event
    requires Fits(buf, at)
  {
    Event(at, WdAt(buf, at), MaskAt(buf, at), CookieAt(buf, at), LenAt(buf, at), NameAt(buf, at), "")
  }

  /** The accessors give back the header fields written into the record,
      and the name without its NUL padding. */
  lemma EventAccessors(b: seq<byte>, at: nat, r: Record)
    requires WellFormed(r)
    requires at + HeaderSize + |r.name| <= |b| && b[at..at + HeaderSize + |r.name|] == Encode(r)
    ensures Fits(b, at)
    ensures Decode(b, at).wd == r.wd && Decode(b, at).mask == r.mask && Decode(b, at).cookie == r.cookie
      && Decode(b, at).len == |r.name| && Decode(b, at).name == (if r.name == [] then "" else CString(r.name))
  {
    DecodeEncoded(b, at, r);
  }

  /** `ev` carries the header and name of the record at `ev.at`. */
  predicate FromRecord(buf: seq<byte>, ev: Event)
  {
    Fits(buf, ev.at) && ev.wd == WdAt(buf, ev.at) && ev.mask == MaskAt(buf, ev.at)
    && ev.cookie == CookieAt(buf, ev.at) && ev.len == LenAt(buf, ev.at) && ev.name == NameAt(buf, ev.at)
  }

  // ---------------------------------------------------------------------
  // The watch table

  /** std::map::insert: adds `wd -> p` only when `wd` is not a key yet.
      With `p == []` it is also what `operator[]` does to an unknown key. */
  function Insert(table: map<int, Path>, wd: int, p: Path): map<int, Path>
  {
    if wd in table then table else table[wd := p]
  }

  /** Insertion adds the key, keeps every stored path, and stores `p` only
      under a key that was missing. */
  lemma InsertFacts(table: map<int, Path>, wd: int, p: Path)
    ensures var t := Insert(table, wd, p);
      t.Keys == table.Keys + {wd}
      && (forall k :: k in table ==> t[k] == table[k])
      && (wd !in table ==> t[wd] == p)
  {
  }

  /** The table after successful add_watch calls, in order. */
  function InsertAll(table: map<int, Path>, adds: seq<(int, Path)>): map<int, Path>
    decreases |adds|
  {
    if adds == [] then table else InsertAll(Insert(table, adds[0].0, adds[0].1), adds[1..])
  }

  /** Registering fresh, distinct descriptors maps each one to exactly the
      path it was added with. */
  lemma {:induction false} InsertAllResolves(table: map<int, Path>, adds: seq<(int, Path)>, k: nat)
    requires forall i :: 0 <= i < |adds| ==> adds[i].0 !in table
    requires forall i, j :: 0 <= i < j < |adds| ==> adds[i].0 != adds[j].0
    requires k < |adds|
    decreases |adds|
    ensures adds[k].0 in InsertAll(table, adds) && InsertAll(table, adds)[adds[k].0] == adds[k].1
  {
    var t := Insert(table, adds[0].0, adds[0].1);
    if k == 0 {
      InsertAllKeeps(t, adds[1..], adds[0].0);
    } else {
      forall i | 0 <= i < |adds[1..]| ensures adds[1..][i].0 !in t {
        assert adds[1..][i] == adds[i + 1];
      }
      InsertAllResolves(t, adds[1..], k - 1);
      assert adds[1..][k - 1] == adds[k];
    }
  }

  /** A descriptor already in the table keeps its first path, whatever is
      added later. */
  lemma {:induction false} InsertAllKeeps(table: map<int, Path>, adds: seq<(int, Path)>, wd: int)
    requires wd in table
    decreases |adds|
    ensures wd in InsertAll(table, adds) && InsertAll(table, adds)[wd] == table[wd]
  {
    if adds != [] {
      InsertAllKeeps(Insert(table, adds[0].0, adds[0].1), adds[1..], wd);
    }
  }

  // ---------------------------------------------------------------------
  // The event signal

  type Slot = Event -> bool

  /** The signal's value under its default combiner: every slot runs, in
      connection order, and the last one's result is returned. A slot
      returning true asks listen to stop. */
  predicate Fires(slots: seq<Slot>, ev: Event)
  {
    slots != [] && slots[|slots| - 1](ev)
  }

  predicate Quiet(slots: seq<Slot>, events: seq<Event>)
  {
    forall k :: 0 <= k < |events| ==> !Fires(slots, events[k])
  }

  // ---------------------------------------------------------------------
  // The listen loop, as functions

  /** How walking a chunk (or the whole listen loop) ended. At the level of
      the loop, Consumed means every chunk that was read got consumed. */
  datatype Status =
    | Consumed
    | Stopped
    | Malformed(offset: nat)   // the record at `offset` does not fit the chunk
    | Unconnected              // a record was due for dispatch but no slot is connected

  /** How a chunk walk ended and the watch table it left. */
  datatype ChunkRun = ChunkRun(status: Status, table: map<int, Path>)

  /** The records met from cursor `i` on, decoded, in chunk order: the
      cursor advances by 16 + len, and the scan ends at the end of the chunk
      or at the first record that does not fit in it. */
  function Raws(buf: seq<byte>, i: nat): seq<Event>
    decreases |buf| - i
  {
    if i >= |buf| || !Fits(buf, i) then [] else [Decode(buf, i)] + Raws(buf, i + RecordSize(buf, i))
  }

  /** How that scan ends: at the end of the chunk, or at a record that does
      not fit. */
  function Tail(buf: seq<byte>, i: nat): (s: Status)
    decreases |buf| - i
    ensures s == Consumed || s.Malformed?
  {
    if i >= |buf| then Consumed
    else if !Fits(buf, i) then Malformed(i)
    else Tail(buf, i + RecordSize(buf, i))
  }

  lemma ScanEnds(buf: seq<byte>, i: nat)
    ensures i >= |buf| ==> Raws(buf, i) == [] && Tail(buf, i) == Consumed
    ensures i < |buf| && !Fits(buf, i) ==> Raws(buf, i) == [] && Tail(buf, i) == Malformed(i)
  {
  }

  lemma ScanStep(buf: seq<byte>, i: nat)
    requires i < |buf| && Fits(buf, i)
    ensures Raws(buf, i) == [Decode(buf, i)] + Raws(buf, i + RecordSize(buf, i))
    ensures Tail(buf, i) == Tail(buf, i + RecordSize(buf, i))
  {
  }

  /** The event emitted for a decoded record: `m_wd_map[wd]` supplies the
      directory (the empty path for an unknown descriptor) and the record's
      name is appended to it. */
  function Resolve(table: map<int, Path>, raw: Event): Event
  {
    raw.(path := Join(Insert(table, raw.wd, [])[raw.wd], raw.name))
  }

  /** The inner loop over the decoded records: resolve the path through
      `operator[]` (which inserts an empty path for an unknown descriptor),
      emit, stop on true, otherwise go on; past the last record the scan's
      own ending is the outcome. */
  function Dispatch(table: map<int, Path>, slots: seq<Slot>, raws: seq<Event>, tail: Status): ChunkRun
    decreases |raws|
  {
    if raws == [] then ChunkRun(tail, table)
    else if slots == [] then ChunkRun(Unconnected, Insert(table, raws[0].wd, []))
    else if Fires(slots, Resolve(table, raws[0])) then ChunkRun(Stopped, Insert(table, raws[0].wd, []))
    else Dispatch(Insert(table, raws[0].wd, []), slots, raws[1..], tail)
  }

  /** The events that loop emits, in order. */
  function DispatchTrace(table: map<int, Path>, slots: seq<Slot>, raws: seq<Event>): seq<Event>
    decreases |raws|
  {
    if raws == [] || slots == [] then []
    else if Fires(slots, Resolve(table, raws[0])) then [Resolve(table, raws[0])]
    else [Resolve(table, raws[0])] + DispatchTrace(Insert(table, raws[0].wd, []), slots, raws[1..])
  }

  /** The inner loop of listen from cursor `i` of a chunk: decode the
      record there, resolve its path through `operator[]`, emit, stop on
      true, otherwise advance by 16 + len. */
  function RunChunk(table: map<int, Path>, slots: seq<Slot>, buf: seq<byte>, i: nat): ChunkRun
    decreases |buf| - i
  {
    if i >= |buf| then ChunkRun(Consumed, table)
    else if !Fits(buf, i) then ChunkRun(Malformed(i), table)
    else if slots == [] then ChunkRun(Unconnected, TableAt(table, buf, i))
    else if Fires(slots, EventAt(table, buf, i)) then ChunkRun(Stopped, TableAt(table, buf, i))
    else RunChunk(TableAt(table, buf, i), slots, buf, i + RecordSize(buf, i))
  }

  /** The events the inner loop emits from cursor `i`, in order. */
  function ChunkTrace(table: map<int, Path>, slots: seq<Slot>, buf: seq<byte>, i: nat): seq<Event>
    decreases |buf| - i
  {
    if i >= |buf| || !Fits(buf, i) || slots == [] then []
    else if Fires(slots, EventAt(table, buf, i)) then [EventAt(table, buf, i)]
    else [EventAt(table, buf, i)] + ChunkTrace(TableAt(table, buf, i), slots, buf, i + RecordSize(buf, i))
  }

  /** The table once `m_wd_map[ev.wd()]` has looked up the record at `i`. */
  function TableAt(table: map<int, Path>, buf: seq<byte>, i: nat): map<int, Path>
    requires HeaderFits(buf, i)
  {
    Insert(table, WdAt(buf, i), [])
  }

  /** The event emitted for the record at `i`. */
  function EventAt(table: map<int, Path>, buf: seq<byte>, i: nat): Event
    requires Fits(buf, i)
  {
    Resolve(table, Decode(buf, i))
  }

  /** Dispatch of a record followed by others. */
  lemma DispatchCons(table: map<int, Path>, slots: seq<Slot>, d: Event, rest: seq<Event>, tail: Status)
    ensures var r := Dispatch(table, slots, [d] + rest, tail);
      (slots == [] ==> r.status == Unconnected && r.table == Insert(table, d.wd, []))
      && (Fires(slots, Resolve(table, d)) ==> r.status == Stopped && r.table == Insert(table, d.wd, []))
      && (slots != [] && !Fires(slots, Resolve(table, d)) ==>
            r.status == Dispatch(Insert(table, d.wd, []), slots, rest, tail).status
            && r.table == Dispatch(Insert(table, d.wd, []), slots, rest, tail).table)
  {
    assert ([d] + rest)[0] == d && ([d] + rest)[1..] == rest;
  }

  lemma DispatchTraceCons(table: map<int, Path>, slots: seq<Slot>, d: Event, rest: seq<Event>)
    ensures slots == [] ==> DispatchTrace(table, slots, [d] + rest) == []
    ensures Fires(slots, Resolve(table, d)) ==> DispatchTrace(table, slots, [d] + rest) == [Resolve(table, d)]
    ensures slots != [] && !Fires(slots, Resolve(table, d)) ==>
      DispatchTrace(table, slots, [d] + rest) == [Resolve(table, d)] + DispatchTrace(Insert(table, d.wd, []), slots, rest)
  {
    assert ([d] + rest)[0] == d && ([d] + rest)[1..] == rest;
  }

  /** The ways the inner loop ends at cursor `i`. */
  lemma ChunkEnds(table: map<int, Path>, slots: seq<Slot>, buf: seq<byte>, i: nat)
    ensures var r := RunChunk(table, slots, buf, i);
      (i >= |buf| ==> r.status == Consumed && r.table == table)
      && (i < |buf| && !Fits(buf, i) ==> r.status == Malformed(i) && r.table == table)
      && (i < |buf| && Fits(buf, i) && slots == [] ==> r.status == Unconnected && r.table == TableAt(table, buf, i))
      && (i < |buf| && Fits(buf, i) && Fires(slots, EventAt(table, buf, i)) ==>
            r.status == Stopped && r.table == TableAt(table, buf, i))
  {
  }

  /** What the inner loop has emitted when it ends at cursor `i`. */
  lemma TraceEnds(table: map<int, Path>, slots: seq<Slot>, buf: seq<byte>, i: nat)
    ensures (i >= |buf| || !Fits(buf, i) || slots == []) ==> ChunkTrace(table, slots, buf, i) == []
    ensures i < |buf| && Fits(buf, i) && Fires(slots, EventAt(table, buf, i)) ==>
      ChunkTrace(table, slots, buf, i) == [EventAt(table, buf, i)]
  {
  }

  /** One quiet step of the inner loop keeps the outcome of the walk. */
  lemma ChunkStep(table: map<int, Path>, slots: seq<Slot>, buf: seq<byte>, i: nat)
    requires i < |buf| && Fits(buf, i) && slots != [] && !Fires(slots, EventAt(table, buf, i))
    ensures RunChunk(table, slots, buf, i).status == RunChunk(TableAt(table, buf, i), slots, buf, i + RecordSize(buf, i)).status
    ensures RunChunk(table, slots, buf, i).table == RunChunk(TableAt(table, buf, i), slots, buf, i + RecordSize(buf, i)).table
  {
  }

  /** One quiet step of the inner loop emits the record at the cursor. */
  lemma TraceStep(table: map<int, Path>, slots: seq<Slot>, buf: seq<byte>, i: nat)
    requires i < |buf| && Fits(buf, i) && slots != [] && !Fires(slots, EventAt(table, buf, i))
    ensures ChunkTrace(table, slots, buf, i)
      == [EventAt(table, buf, i)] + ChunkTrace(TableAt(table, buf, i), slots, buf, i + RecordSize(buf, i))
  {
  }

  /** The cursor loop dispatches exactly the records the scan decodes, and
      ends as the scan does unless a slot fires or none is connected. */
  predicate AgreesAt(table: map<int, Path>, slots: seq<Slot>, buf: seq<byte>, i: nat)
  {
    RunChunk(table, slots, buf, i).status == Dispatch(table, slots, Raws(buf, i), Tail(buf, i)).status
    && RunChunk(table, slots, buf, i).table == Dispatch(table, slots, Raws(buf, i), Tail(buf, i)).table
    && ChunkTrace(table, slots, buf, i) == DispatchTrace(table, slots, Raws(buf, i))
  }

  /** The record at `i` is dispatched and the walk goes on past it. */
  predicate WalksOn(table: map<int, Path>, slots: seq<Slot>, buf: seq<byte>, i: nat)
  {
    i < |buf| && Fits(buf, i) && slots != [] && !Fires(slots, EventAt(table, buf, i))
  }

  lemma {:induction false} ChunkIsDispatch(table: map<int, Path>, slots: seq<Slot>, buf: seq<byte>, i: nat)
    decreases |buf| - i
    ensures AgreesAt(table, slots, buf, i)
  {
    if WalksOn(table, slots, buf, i) {
      ChunkIsDispatch(TableAt(table, buf, i), slots, buf, i + RecordSize(buf, i));
      AgreesStep(table, slots, buf, i);
    } else {
      AgreesEnd(table, slots, buf, i);
    }
  }

  lemma AgreesStep(table: map<int, Path>, slots: seq<Slot>, buf: seq<byte>, i: nat)
    requires WalksOn(table, slots, buf, i)
    requires AgreesAt(TableAt(table, buf, i), slots, buf, i + RecordSize(buf, i))
    ensures AgreesAt(table, slots, buf, i)
  {
    ChunkStep(table, slots, buf, i);
    TraceStep(table, slots, buf, i);
    ScanStep(buf, i);
    DispatchCons(table, slots, Decode(buf, i), Raws(buf, i + RecordSize(buf, i)), Tail(buf, i + RecordSize(buf, i)));
    DispatchTraceCons(table, slots, Decode(buf, i), Raws(buf, i + RecordSize(buf, i)));
  }

  lemma AgreesEnd(table: map<int, Path>, slots: seq<Slot>, buf: seq<byte>, i: nat)
    requires !WalksOn(table, slots, buf, i)
    ensures AgreesAt(table, slots, buf, i)
  {
    ChunkEnds(table, slots, buf, i);
    TraceEnds(table, slots, buf, i);
    ScanEnds(buf, i);
    if i < |buf| && Fits(buf, i) {
      ScanStep(buf, i);
      DispatchCons(table, slots, Decode(buf, i), Raws(buf, i + RecordSize(buf, i)), Tail(buf, i + RecordSize(buf, i)));
      DispatchTraceCons(table, slots, Decode(buf, i), Raws(buf, i + RecordSize(buf, i)));
    }
  }

  /** How the listen loop ended, how many chunks it read, and the table. */
  datatype ListenRun = ListenRun(status: Status, chunksRead: nat, table: map<int, Path>)

  /** The outer loop over the chunks that successive reads return. */
  function RunListen(table: map<int, Path>, slots: seq<Slot>, chunks: seq<seq<byte>>): ListenRun
    decreases |chunks|
  {
    if chunks == [] then ListenRun(Consumed, 0, table)
    else
      var r := RunChunk(table, slots, chunks[0], 0);
      if r.status == Consumed then
        var rest := RunListen(r.table, slots, chunks[1..]);
        ListenRun(rest.status, 1 + rest.chunksRead, rest.table)
      else ListenRun(r.status, 1, r.table)
  }

  /** The events the outer loop emits, chunk after chunk. */
  function ListenTrace(table: map<int, Path>, slots: seq<Slot>, chunks: seq<seq<byte>>): seq<Event>
    decreases |chunks|
  {
    if chunks == [] then []
    else if RunChunk(table, slots, chunks[0], 0).status == Consumed then
      ChunkTrace(table, slots, chunks[0], 0) + ListenTrace(RunChunk(table, slots, chunks[0], 0).table, slots, chunks[1..])
    else ChunkTrace(table, slots, chunks[0], 0)
  }

  /** One round of the outer loop. */
  lemma ListenStep(table: map<int, Path>, slots: seq<Slot>, chunks: seq<seq<byte>>)
    requires chunks != []
    ensures var c := RunChunk(table, slots, chunks[0], 0); var r := RunListen(table, slots, chunks);
      (c.status == Consumed ==>
        r.status == RunListen(c.table, slots, chunks[1..]).status
        && r.chunksRead == 1 + RunListen(c.table, slots, chunks[1..]).chunksRead
        && r.table == RunListen(c.table, slots, chunks[1..]).table)
      && (c.status != Consumed ==> r.status == c.status && r.chunksRead == 1 && r.table == c.table)
  {
  }

  // ---------------------------------------------------------------------
  // What the loop guarantees

  /** Only the last event may fire, and it fires exactly when the run
      stopped. */
  predicate StopsAtLast(slots: seq<Slot>, status: Status, events: seq<Event>)
  {
    (status == Stopped <==> events != [] && Fires(slots, events[|events| - 1]))
    && Quiet(slots, if status == Stopped then events[..|events| - 1] else events)
  }

  lemma PrependQuiet(slots: seq<Slot>, es: seq<Event>, restStatus: Status, restEvents: seq<Event>,
                      status: Status, events: seq<Event>)
    requires Quiet(slots, es) && StopsAtLast(slots, restStatus, restEvents)
    requires status == restStatus && events == es + restEvents
    ensures StopsAtLast(slots, status, events)
  {
    if status == Stopped {
      assert events[..|events| - 1] == es + restEvents[..|restEvents| - 1];
    }
  }

  /** Over the decoded records of a chunk, only the last emitted event may
      fire, and it does exactly when the loop stopped. */
  lemma {:induction false} DispatchStopsAtFirstFire(table: map<int, Path>, slots: seq<Slot>, raws: seq<Event>, tail: Status)
    requires tail != Stopped
    decreases |raws|
    ensures StopsAtLast(slots, Dispatch(table, slots, raws, tail).status, DispatchTrace(table, slots, raws))
  {
    if raws != [] && slots != [] && !Fires(slots, Resolve(table, raws[0])) {
      var t := Insert(table, raws[0].wd, []);
      DispatchStopsAtFirstFire(t, slots, raws[1..], tail);
      assert Quiet(slots, [Resolve(table, raws[0])]);
      PrependQuiet(slots, [Resolve(table, raws[0])], Dispatch(t, slots, raws[1..], tail).status,
        DispatchTrace(t, slots, raws[1..]), Dispatch(table, slots, raws, tail).status, DispatchTrace(table, slots, raws));
    }
  }

  /** Within a chunk, only the last emitted event may fire, and it does
      exactly when the chunk walk stopped. */
  lemma ChunkStopsAtFirstFire(table: map<int, Path>, slots: seq<Slot>, buf: seq<byte>, i: nat)
    ensures StopsAtLast(slots, RunChunk(table, slots, buf, i).status, ChunkTrace(table, slots, buf, i))
  {
    ChunkIsDispatch(table, slots, buf, i);
    DispatchStopsAtFirstFire(table, slots, Raws(buf, i), Tail(buf, i));
  }

  /** A chunk run that ends Malformed has reached the end of the scan. */
  lemma {:induction false} DispatchMalformed(table: map<int, Path>, slots: seq<Slot>, raws: seq<Event>, tail: Status)
    requires Dispatch(table, slots, raws, tail).status.Malformed?
    decreases |raws|
    ensures tail.Malformed?
  {
    if raws != [] {
      DispatchMalformed(Insert(table, raws[0].wd, []), slots, raws[1..], tail);
    }
  }

  /** The scan ends at the end of the chunk exactly when the walk succeeds,
      and it then decodes the records at the walk's offsets. */
  lemma {:induction false} ScanFollowsWalk(buf: seq<byte>, i: nat)
    decreases |buf| - i
    ensures Walk(buf, i).Some? <==> Tail(buf, i) == Consumed
    ensures Walk(buf, i).Some? ==> Raws(buf, i) == DecodeAll(buf, Walk(buf, i).value)
  {
    ScanEnds(buf, i);
    if i < |buf| && Fits(buf, i) {
      var next := i + RecordSize(buf, i);
      ScanFollowsWalk(buf, next);
      ScanStep(buf, i);
      WalkStep(buf, i, next);
      if Walk(buf, i).Some? {
        DecodeAllCons(buf, i, Walk(buf, next).value);
      }
    }
  }

  lemma DecodeAllCons(buf: seq<byte>, i: nat, starts: seq<nat>)
    requires Fits(buf, i) && forall k :: 0 <= k < |starts| ==> Fits(buf, starts[k])
    ensures DecodeAll(buf, [i] + starts) == [Decode(buf, i)] + DecodeAll(buf, starts)
  {
  }

  /** A chunk run never ends Malformed unless the walk of the chunk fails. */
  lemma MalformedOnlyIfWalkFails(table: map<int, Path>, slots: seq<Slot>, buf: seq<byte>, i: nat)
    requires RunChunk(table, slots, buf, i).status.Malformed?
    ensures Walk(buf, i).None?
  {
    ChunkIsDispatch(table, slots, buf, i);
    DispatchMalformed(table, slots, Raws(buf, i), Tail(buf, i));
    ScanFollowsWalk(buf, i);
  }

  /** With a slot connected, dispatch ends as the scan of the chunk did
      unless a slot fired. */
  lemma {:induction false} DispatchEndsAsScan(table: map<int, Path>, slots: seq<Slot>, raws: seq<Event>, tail: Status)
    requires slots != []
    decreases |raws|
    ensures Dispatch(table, slots, raws, tail).status == tail || Dispatch(table, slots, raws, tail).status == Stopped
  {
    if raws != [] && !Fires(slots, Resolve(table, raws[0])) {
      DispatchEndsAsScan(Insert(table, raws[0].wd, []), slots, raws[1..], tail);
    }
  }

  /** The converse: with a slot connected, a chunk that is not a chain of
      whole records ends Malformed unless a slot fired first. */
  lemma MalformedIfWalkFails(table: map<int, Path>, slots: seq<Slot>, buf: seq<byte>, i: nat)
    requires slots != [] && Walk(buf, i).None?
    requires RunChunk(table, slots, buf, i).status != Stopped
    ensures RunChunk(table, slots, buf, i).status.Malformed?
  {
    ChunkIsDispatch(table, slots, buf, i);
    DispatchEndsAsScan(table, slots, Raws(buf, i), Tail(buf, i));
    ScanFollowsWalk(buf, i);
  }

  /** The table of a run only grows from `table`: known descriptors keep
      their paths, descriptors added on the way map to the empty path, and
      every event's path is its descriptor's path joined with its name. */
  predicate Resolved(table: map<int, Path>, rtable: map<int, Path>, events: seq<Event>)
  {
    table.Keys <= rtable.Keys
    && (forall w :: w in table ==> rtable[w] == table[w])
    && (forall w :: w in rtable && w !in table ==> rtable[w] == [])
    && forall e :: e in events ==> e.wd in rtable && e.path == Join(rtable[e.wd], e.name)
  }

  /** The descriptors the events carry. */
  function Wds(events: seq<Event>): set<int>
  {
    if events == [] then {} else {events[0].wd} + Wds(events[1..])
  }

  /** The keys a dispatch adds are exactly the descriptors of the events it
      emits; with no slot connected, only that of the first record. */
  lemma {:induction false} DispatchKeys(table: map<int, Path>, slots: seq<Slot>, raws: seq<Event>, tail: Status)
    decreases |raws|
    ensures slots != [] ==>
      Dispatch(table, slots, raws, tail).table.Keys == table.Keys + Wds(DispatchTrace(table, slots, raws))
    ensures slots == [] ==>
      Dispatch(table, slots, raws, tail).table.Keys == table.Keys + (if raws == [] then {} else {raws[0].wd})
  {
    if raws != [] {
      var d := Resolve(table, raws[0]);
      var t := Insert(table, raws[0].wd, []);
      InsertFacts(table, raws[0].wd, []);
      if slots != [] && !Fires(slots, d) {
        DispatchKeys(t, slots, raws[1..], tail);
        var rest := DispatchTrace(t, slots, raws[1..]);
        assert DispatchTrace(table, slots, raws) == [d] + rest;
        assert ([d] + rest)[1..] == rest;
      } else if slots != [] {
        assert DispatchTrace(table, slots, raws) == [d];
      }
    }
  }

  lemma {:induction false} DispatchTable(table: map<int, Path>, slots: seq<Slot>, raws: seq<Event>, tail: Status)
    decreases |raws|
    ensures Resolved(table, Dispatch(table, slots, raws, tail).table, DispatchTrace(table, slots, raws))
    ensures slots != [] ==>
      Dispatch(table, slots, raws, tail).table.Keys == table.Keys + Wds(DispatchTrace(table, slots, raws))
    ensures slots == [] ==>
      Dispatch(table, slots, raws, tail).table.Keys == table.Keys + (if raws == [] then {} else {raws[0].wd})
  {
    DispatchKeys(table, slots, raws, tail);
    if raws != [] {
      var t := Insert(table, raws[0].wd, []);
      InsertFacts(table, raws[0].wd, []);
      if slots != [] && !Fires(slots, Resolve(table, raws[0])) {
        DispatchTable(t, slots, raws[1..], tail);
        ResolvedStep(table, raws[0], Dispatch(t, slots, raws[1..], tail).table, DispatchTrace(t, slots, raws[1..]),
          Dispatch(table, slots, raws, tail).table, DispatchTrace(table, slots, raws));
      }
    }
  }

  lemma ResolvedStep(table: map<int, Path>, raw: Event, restTable: map<int, Path>, restEvents: seq<Event>,
                     rtable: map<int, Path>, events: seq<Event>)
    requires Resolved(Insert(table, raw.wd, []), restTable, restEvents)
    requires rtable == restTable && events == [Resolve(table, raw)] + restEvents
    ensures Resolved(table, rtable, events)
  {
    InsertFacts(table, raw.wd, []);
    forall e | e in events
      ensures e.wd in rtable && e.path == Join(rtable[e.wd], e.name)
    {
      if e !in restEvents {
        assert e == Resolve(table, raw);
      }
    }
  }

  /** The table only grows: known descriptors keep their paths, unknown ones
      met in the chunk are added with the empty path, and every emitted
      event's path is its descriptor's path joined with its name. */
  lemma ChunkTable(table: map<int, Path>, slots: seq<Slot>, buf: seq<byte>, i: nat)
    ensures Resolved(table, RunChunk(table, slots, buf, i).table, ChunkTrace(table, slots, buf, i))
    ensures slots != [] ==>
      RunChunk(table, slots, buf, i).table.Keys == table.Keys + Wds(ChunkTrace(table, slots, buf, i))
    ensures slots == [] ==>
      RunChunk(table, slots, buf, i).table.Keys
        == table.Keys + (if i < |buf| && Fits(buf, i) then {WdAt(buf, i)} else {})
  {
    ChunkIsDispatch(table, slots, buf, i);
    DispatchTable(table, slots, Raws(buf, i), Tail(buf, i));
    ScanEnds(buf, i);
    if i < |buf| && Fits(buf, i) {
      ScanStep(buf, i);
    }
  }

  /** Over the whole loop: it stops at the first event a slot fires on, and
      when nothing fires it reads every chunk it is given. */
  lemma {:induction false} ListenStopsAtFirstFire(table: map<int, Path>, slots: seq<Slot>, chunks: seq<seq<byte>>)
    decreases |chunks|
    ensures StopsAtLast(slots, RunListen(table, slots, chunks).status, ListenTrace(table, slots, chunks))
    ensures RunListen(table, slots, chunks).chunksRead <= |chunks|
    ensures RunListen(table, slots, chunks).status == Consumed ==> RunListen(table, slots, chunks).chunksRead == |chunks|
  {
    if chunks != [] {
      ListenStep(table, slots, chunks);
      ChunkStopsAtFirstFire(table, slots, chunks[0], 0);
      if RunChunk(table, slots, chunks[0], 0).status == Consumed {
        ListenStopsAtFirstFire(RunChunk(table, slots, chunks[0], 0).table, slots, chunks[1..]);
        PrependQuiet(slots, ChunkTrace(table, slots, chunks[0], 0),
          RunListen(RunChunk(table, slots, chunks[0], 0).table, slots, chunks[1..]).status,
          ListenTrace(RunChunk(table, slots, chunks[0], 0).table, slots, chunks[1..]),
          RunListen(table, slots, chunks).status, ListenTrace(table, slots, chunks));
      }
    }
  }

  /** The events made over the records of `buf` that start at `starts`. */
  function DecodeAll(buf: seq<byte>, starts: seq<nat>): (es: seq<Event>)
    requires forall k :: 0 <= k < |starts| ==> Fits(buf, starts[k])
    ensures |es| == |starts|
  {
    seq(|starts|, k requires 0 <= k < |starts| => Decode(buf, starts[k]))
  }

  /** The records of the given chunks, chunk after chunk, as events before
      path resolution; None when some chunk does not walk. */
  function RecordsOf(chunks: seq<seq<byte>>): Option<seq<Event>>
    decreases |chunks|
  {
    if chunks == [] then Some([])
    else if Walk(chunks[0], 0).None? || RecordsOf(chunks[1..]).None? then None
    else Some(DecodeAll(chunks[0], Walk(chunks[0], 0).value) + RecordsOf(chunks[1..]).value)
  }

  /** The two events describe the same record; only the resolved path may
      differ. */
  predicate SameRecord(a: Event, b: Event)
  {
    a.at == b.at && a.wd == b.wd && a.mask == b.mask && a.cookie == b.cookie && a.len == b.len && a.name == b.name
  }

  /** The events are the first of the given records, in order, all of them
      unless the run stopped. */
  predicate InOrder(status: Status, events: seq<Event>, all: seq<Event>)
  {
    (status == Consumed || status == Stopped)
    && |events| <= |all|
    && (status == Consumed ==> |events| == |all|)
    && forall k :: 0 <= k < |events| ==> SameRecord(events[k], all[k])
  }

  /** With a slot connected and a scan that reaches the end of the chunk,
      the records are emitted in order, all of them unless a slot fired. */
  lemma {:induction false} DispatchInOrder(table: map<int, Path>, slots: seq<Slot>, raws: seq<Event>)
    requires slots != []
    decreases |raws|
    ensures InOrder(Dispatch(table, slots, raws, Consumed).status, DispatchTrace(table, slots, raws), raws)
  {
    if raws != [] && !Fires(slots, Resolve(table, raws[0])) {
      var t := Insert(table, raws[0].wd, []);
      DispatchInOrder(t, slots, raws[1..]);
      PrependInOrder(Resolve(table, raws[0]), raws[0], Dispatch(t, slots, raws[1..], Consumed).status,
        DispatchTrace(t, slots, raws[1..]), raws[1..],
        Dispatch(table, slots, raws, Consumed).status, DispatchTrace(table, slots, raws), raws);
    }
  }

  lemma PrependInOrder(ev: Event, raw: Event, restStatus: Status, restEvents: seq<Event>, rest: seq<Event>,
                       status: Status, events: seq<Event>, all: seq<Event>)
    requires SameRecord(ev, raw) && InOrder(restStatus, restEvents, rest)
    requires status == restStatus && events == [ev] + restEvents && all == [raw] + rest
    ensures InOrder(status, events, all)
  {
    forall k | 1 <= k < |events| ensures SameRecord(events[k], all[k]) {
      assert events[k] == restEvents[k - 1] && all[k] == rest[k - 1];
    }
  }

  /** Records are emitted in buffer order: the k-th event is made from the
      record at the k-th offset of the walk; a walk that finishes without a
      stop has emitted every record of the chunk. */
  lemma ChunkInOrder(table: map<int, Path>, slots: seq<Slot>, buf: seq<byte>)
    requires slots != [] && Walk(buf, 0).Some?
    ensures InOrder(RunChunk(table, slots, buf, 0).status, ChunkTrace(table, slots, buf, 0), DecodeAll(buf, Walk(buf, 0).value))
  {
    ChunkIsDispatch(table, slots, buf, 0);
    ScanFollowsWalk(buf, 0);
    DispatchInOrder(table, slots, Raws(buf, 0));
  }

  lemma AppendInOrder(cStatus: Status, cEvents: seq<Event>, mine: seq<Event>, restStatus: Status, restEvents: seq<Event>,
                      others: seq<Event>, status: Status, events: seq<Event>)
    requires cStatus == Consumed && InOrder(cStatus, cEvents, mine) && InOrder(restStatus, restEvents, others)
    requires status == restStatus && events == cEvents + restEvents
    ensures InOrder(status, events, mine + others)
  {
    forall k | 0 <= k < |events| ensures SameRecord(events[k], (mine + others)[k]) {
      if k >= |cEvents| {
        assert events[k] == restEvents[k - |cEvents|] && (mine + others)[k] == others[k - |mine|];
      }
    }
  }

  lemma StopInOrder(cStatus: Status, cEvents: seq<Event>, mine: seq<Event>, others: seq<Event>,
                    status: Status, events: seq<Event>)
    requires cStatus != Consumed && InOrder(cStatus, cEvents, mine)
    requires status == cStatus && events == cEvents
    ensures InOrder(status, events, mine + others)
  {
    forall k | 0 <= k < |events| ensures SameRecord(events[k], (mine + others)[k]) {
      assert (mine + others)[k] == mine[k];
    }
  }

  /** When every chunk holds whole records, the loop emits them in arrival
      order, chunk by chunk, never skipping one: what it emitted is a prefix
      of all the records, and all of them when nothing fired. */
  lemma {:induction false} ListenDispatchesInOrder(table: map<int, Path>, slots: seq<Slot>, chunks: seq<seq<byte>>)
    requires slots != [] && RecordsOf(chunks).Some?
    decreases |chunks|
    ensures InOrder(RunListen(table, slots, chunks).status, ListenTrace(table, slots, chunks), RecordsOf(chunks).value)
  {
    if chunks != [] {
      ListenStep(table, slots, chunks);
      ChunkInOrder(table, slots, chunks[0]);
      if RunChunk(table, slots, chunks[0], 0).status == Consumed {
        ListenDispatchesInOrder(RunChunk(table, slots, chunks[0], 0).table, slots, chunks[1..]);
        AppendInOrder(RunChunk(table, slots, chunks[0], 0).status, ChunkTrace(table, slots, chunks[0], 0),
          DecodeAll(chunks[0], Walk(chunks[0], 0).value),
          RunListen(RunChunk(table, slots, chunks[0], 0).table, slots, chunks[1..]).status,
          ListenTrace(RunChunk(table, slots, chunks[0], 0).table, slots, chunks[1..]),
          RecordsOf(chunks[1..]).value, RunListen(table, slots, chunks).status, ListenTrace(table, slots, chunks));
      } else {
        StopInOrder(RunChunk(table, slots, chunks[0], 0).status, ChunkTrace(table, slots, chunks[0], 0),
          DecodeAll(chunks[0], Walk(chunks[0], 0).value),
          RecordsOf(chunks[1..]).value, RunListen(table, slots, chunks).status, ListenTrace(table, slots, chunks));
      }
    }
  }

  /** Moving one emitted event from the rest of a trace to its done part. */
  lemma AdvanceTrace(trace: seq<Event>, done: seq<Event>, ev: Event, cur: seq<Event>, next: seq<Event>)
    requires trace == done + cur && cur == [ev] + next
    ensures trace == (done + [ev]) + next
  {
  }

  // ---------------------------------------------------------------------
  // The watcher object

  class Inotify {
    /** The descriptor inotify_init returned. */
    const descr: int
    /** m_wd_map: watch descriptor -> the path it was added for. */
    var watches: map<int, Path>
    /** The slots connected to the event signal, in connection order. */
    var slots: seq<Slot>

    constructor (descr: int)
      requires descr > 0
      ensures this.descr == descr && watches == map[] && slots == []
    {
      this.descr := descr;
      watches := map[];
      slots := [];
    }

    /** The constructor's check of what inotify_init returned: a descriptor
        that is not positive is a system error and no watcher is made. */
    static method Open(kernelDescr: int) returns (w: Inotify?)
      ensures (w == null) == (kernelDescr <= 0)
      ensures w != null ==> fresh(w) && w.descr == kernelDescr && w.watches == map[] && w.slots == []
    {
      if kernelDescr <= 0 {
        w := null;
      } else {
        w := new Inotify(kernelDescr);
      }
    }

    /** `add_watch`: `mask` goes to inotify_add_watch, whose answer is
        `kernelWd`. A descriptor that is not positive is a system error and
        leaves the table alone; otherwise the pair is inserted, keeping the
        path already stored for that descriptor if there is one. */
    method AddWatch(path: Path, mask: nat, kernelWd: int) returns (ok: bool)
      modifies this`watches
      ensures ok == (kernelWd > 0)
      ensures watches == if ok then Insert(old(watches), kernelWd, path) else old(watches)
    {
      if kernelWd <= 0 {
        return false;
      }
      watches := Insert(watches, kernelWd, path);
      ok := true;
    }

    method ConnectSlot(slot: Slot)
      modifies this`slots
      ensures slots == old(slots) + [slot]
    {
      slots := slots + [slot];
    }

    /** `listen`, given the chunks that successive reads return. It ends when
        a slot fires (Stopped), when the chunks run out (Consumed; the source
        would block in the next read), or at a record that does not fit its
        chunk or has no slot to go to. */
    method Listen(chunks: seq<seq<byte>>) returns (status: Status, chunksRead: nat, trace: seq<Event>)
      modifies this`watches
      ensures RunListen(old(watches), slots, chunks).status == status
      ensures RunListen(old(watches), slots, chunks).chunksRead == chunksRead
      ensures RunListen(old(watches), slots, chunks).table == watches
      ensures ListenTrace(old(watches), slots, chunks) == trace
    {
      ghost var goal := RunListen(watches, slots, chunks);
      ghost var goalTrace := ListenTrace(watches, slots, chunks);
      var breakOut := false;
      var c := 0;
      trace := [];
      while !breakOut && c < |chunks|
        invariant 0 <= c <= |chunks|
        invariant breakOut ==>
          goal.status == Stopped && goal.chunksRead == c && goal.table == watches && goalTrace == trace
        invariant !breakOut ==>
          goal.status == RunListen(watches, slots, chunks[c..]).status
          && goal.chunksRead == c + RunListen(watches, slots, chunks[c..]).chunksRead
          && goal.table == RunListen(watches, slots, chunks[c..]).table
          && goalTrace == trace + ListenTrace(watches, slots, chunks[c..])
      {
        ListenStep(watches, slots, chunks[c..]);
        assert chunks[c..][0] == chunks[c] && chunks[c..][1..] == chunks[c + 1..];
        var chunkStatus, events := DispatchChunk(chunks[c]);
        trace := trace + events;
        c := c + 1;
        if chunkStatus != Consumed && chunkStatus != Stopped {
          return chunkStatus, c, trace;
        }
        breakOut := chunkStatus == Stopped;
      }
      status := if breakOut then Stopped else Consumed;
      chunksRead := c;
    }

    /** The event for the record at `i`, as the loop body builds it: the
        header is read in place, `m_wd_map[wd]` supplies the directory
        (inserting an empty path for an unknown descriptor) and the record's
        name is appended to it. */
    method MakeEvent(buf: seq<byte>, i: nat) returns (ev: Event)
      requires Fits(buf, i)
      modifies this`watches
      ensures watches == TableAt(old(watches), buf, i)
      ensures ev == EventAt(old(watches), buf, i)
    {
      ev := Decode(buf, i);
      if ev.wd !in watches {
        watches := watches[ev.wd := []];
      }
      var p := watches[ev.wd];
      ev := ev.(path := Join(p, ev.name));
    }

    /** The body of listen's outer loop for one chunk `buf` of `len` bytes:
        records are taken from cursor `i`, their descriptor is looked up
        with `operator[]`, the event is emitted, and the walk ends when the
        signal returns true or the cursor reaches `len`. */
    method DispatchChunk(buf: seq<byte>) returns (status: Status, events: seq<Event>)
      modifies this`watches
      ensures RunChunk(old(watches), slots, buf, 0).status == status
      ensures RunChunk(old(watches), slots, buf, 0).table == watches
      ensures ChunkTrace(old(watches), slots, buf, 0) == events
    {
      ghost var run := RunChunk(watches, slots, buf, 0);
      ghost var goalTrace := ChunkTrace(watches, slots, buf, 0);
      var len := |buf|;
      events := [];
      var i := 0;
      while i < len
        invariant run.status == RunChunk(watches, slots, buf, i).status
        invariant run.table == RunChunk(watches, slots, buf, i).table
        invariant goalTrace == events + ChunkTrace(watches, slots, buf, i)
        decreases len - i
      {
        if !Fits(buf, i) {
          ChunkEnds(watches, slots, buf, i);
          TraceEnds(watches, slots, buf, i);
          // nothing is left to emit, so the trace so far is the whole trace
          assert events == events + [];
          return Malformed(i), events;
        }
        ghost var before := watches;
        var ev := MakeEvent(buf, i);
        if slots == [] {
          ChunkEnds(before, slots, buf, i);
          TraceEnds(before, slots, buf, i);
          assert events == events + [];
          return Unconnected, events;
        }
        if slots[|slots| - 1](ev) {
          // a slot asked to stop: leave both loops
          ChunkEnds(before, slots, buf, i);
          TraceEnds(before, slots, buf, i);
          events := events + [ev];
          return Stopped, events;
        }
        ChunkStep(before, slots, buf, i);
        TraceStep(before, slots, buf, i);
        AdvanceTrace(goalTrace, events, ev, ChunkTrace(before, slots, buf, i),
          ChunkTrace(TableAt(before, buf, i), slots, buf, i + RecordSize(buf, i)));
        events := events + [ev];
        i := i + RecordSize(buf, i);
      }
      ChunkEnds(watches, slots, buf, i);
      TraceEnds(watches, slots, buf, i);
      status := Consumed;
      assert events == events + [];
    }
  }
}
