/** What a commit does to a table, told on values: the segments, the counters and the
    read-only flag before and after (src/storage/segments.c:30-99 and 298-424). */
module Ledgers {
  import opened Bytes
  import opened Frames
  import opened Symbols
  import opened SymbolRows
  import opened Commit

  datatype Outcome = Ok | Limit | NoMemory | Malformed | Io | ReadOnly | Indeterminate

  /** What create_active meets: the result of saving the index of the segment it seals, that of all that follows, and
      the number of orphan files whose identifiers it skips. */
  datatype Creation = Creation(saved: Result, installed: Result, skipped: nat)

  /** What the calls of create_active can say: it does not look at the read-only flag, nor at a frame. */
  type Result = o: Outcome | !o.ReadOnly? && !o.Malformed? witness Ok

  /** What wadb_index_reserve and wadb_readable_reserve can say. */
  type Reservation = o: Outcome | o.Ok? || o.NoMemory? || o.Limit? witness Ok

  /** A segment: its record, its committed frames and, for each, the lines that clients supplied. */
  datatype Chapter = Chapter(id: nat, day: int, first: nat, frames: seq<Frame>, lines: seq<seq<Line>>)

  /** A segment with one more frame. */
  function Longer(c: Chapter, f: Frame, group: seq<Line>): Chapter {
    c.(frames := c.frames + [f], lines := c.lines + [group])
  }

  /** The segments with one more frame in the last one. */
  function Extended(cs: seq<Chapter>, f: Frame, group: seq<Line>): seq<Chapter>
    requires cs != []
  {
    cs[|cs| - 1 := Longer(cs[|cs| - 1], f, group)]
  }

  /** The start of the UTC day of a time. */
  function DayStart(time: I64): (d: int)
    ensures time >= 0 ==> 0 <= d <= time
  {
    time - time % DAY_US
  }

  /** A table's state: its segments, the last of which may be active and then has so many bytes; next_segment_id,
      last_sequence, last_time; and what its dictionary defines. */
  datatype Ledger = Ledger(
    chapters: seq<Chapter>, open: bool, bytes: nat, next: nat, last: nat, time: int, readOnly: bool, defs: seq<Def>)

  /** What a group may find: no active segment, another day, or a full index. */
  predicate Needs(l: Ledger, first: I64) {
    || !l.open || l.chapters == []
    || var c := l.chapters[|l.chapters| - 1]; c.day != DayStart(first) || |c.frames| >= MAX_INDEX_ENTRIES
  }

  /** create_active. */
  function Created(l: Ledger, first: I64, skipped: nat): Ledger {
    l.(chapters := l.chapters + [Chapter(l.next + skipped, DayStart(first), l.last + 1, [], [])],
       open := true, bytes := 128, next := l.next + skipped + 1, defs := [])
  }

  /** Publishing a frame of n bytes after which the dictionary defines all. */
  function Published(l: Ledger, f: Frame, n: nat, group: seq<Line>, all: seq<Def>): Ledger
    requires l.chapters != []
  {
    l.(chapters := Extended(l.chapters, f, group), bytes := l.bytes + n, last := l.last + |group|, time := f.maxTime,
       defs := all)
  }

  /** A new segment is to be made, the active one sealed, and saving its index fails. */
  predicate SealFails(l: Ledger, moved: bool, created: Creation) {
    moved && l.next < U64_MAX && l.open && created.saved != Ok
  }

  /** create_active succeeds. */
  predicate Makes(l: Ledger, created: Creation) {
    l.next < U64_MAX && !SealFails(l, true, created) && l.next + created.skipped < U64_MAX && created.installed == Ok
  }

  /** What create_active says. */
  function Making(l: Ledger, created: Creation): Outcome {
    if l.next >= U64_MAX then Limit
    else if SealFails(l, true, created) then created.saved
    else if l.next + created.skipped >= U64_MAX then Limit
    else created.installed
  }

  /** What create_active leaves when it fails. */
  function Unmade(l: Ledger, created: Creation): Ledger {
    if l.next >= U64_MAX || SealFails(l, true, created) || l.next + created.skipped >= U64_MAX then l
    else l.(readOnly := l.readOnly || created.installed == Indeterminate)
  }

  /** What reserving, writing and publishing leave. */
  function WrittenOut(l: Ledger, f: Frame, n: nat, group: seq<Line>, all: seq<Def>, reserved: Reservation,
                      wrote: bool): Ledger
    requires l.chapters != []
  {
    if reserved != Ok then l
    else if !wrote then l.(readOnly := true)
    else Published(l, f, n, group, all)
  }

  function Writing(reserved: Reservation, wrote: bool): Outcome {
    if reserved != Ok then reserved else if !wrote then Indeterminate else Ok
  }

  /** How a commit ends once its frame is built: the first of the calls that fails decides. */
  function Fate(l: Ledger, moved: bool, created: Creation, reserved: Reservation, wrote: bool): Outcome {
    if moved && !Makes(l, created) then Making(l, created) else Writing(reserved, wrote)
  }

  /** What a commit leaves once its frame is built. */
  function Concluded(l: Ledger, moved: bool, f: Frame, n: nat, group: seq<Line>, first: I64, all: seq<Def>,
                     created: Creation, reserved: Reservation, wrote: bool): Ledger
    requires moved || l.chapters != []
  {
    if moved && !Makes(l, created) then Unmade(l, created)
    else WrittenOut(if moved then Created(l, first, created.skipped) else l, f, n, group, all, reserved, wrote)
  }

  // ---- what follows ----

  /** A commit makes the table read-only exactly when its outcome is uncertain and not just because the index of the
      segment to be sealed could not be saved. */
  lemma {:induction false} ReadOnlyIff(l: Ledger, moved: bool, f: Frame, n: nat, group: seq<Line>, first: I64,
                                       all: seq<Def>, created: Creation, reserved: Reservation, wrote: bool)
    requires moved || l.chapters != []
    ensures Concluded(l, moved, f, n, group, first, all, created, reserved, wrote).readOnly <==>
            l.readOnly || (Fate(l, moved, created, reserved, wrote) == Indeterminate && !SealFails(l, moved, created))
  {
    hide Extended, DayStart;
  }

  /** A segment that create_active makes in a table that has committed up to a sequence number: it is empty. */
  predicate New(c: Chapter, l: Ledger, first: I64, skipped: nat) {
    c == Chapter(l.next + skipped, DayStart(first), l.last + 1, [], [])
  }

  /** The segments after a commit: one more frame with these lines, in the last segment or in a new one. */
  ghost predicate Appended(l: Ledger, after: seq<Chapter>, moved: bool, f: Frame, group: seq<Line>, first: I64,
                           skipped: nat) {
    if moved then exists c :: New(c, l, first, skipped) && after == l.chapters + [Longer(c, f, group)]
    else l.chapters != [] && after == Extended(l.chapters, f, group)
  }

  /** The segments after a commit that failed: as before, but for a new empty one that may have been created. */
  ghost predicate Kept(l: Ledger, after: seq<Chapter>, first: I64, skipped: nat) {
    after == l.chapters || exists c :: New(c, l, first, skipped) && after == l.chapters + [c]
  }

  /** A commit adds its group as one frame and as many sequence numbers, or nothing but perhaps an empty segment. */
  lemma {:induction false} AddsOrKeeps(l: Ledger, moved: bool, f: Frame, n: nat, group: seq<Line>, first: I64,
                                       all: seq<Def>, created: Creation, reserved: Reservation, wrote: bool)
    requires moved || l.chapters != []
    ensures var l' := Concluded(l, moved, f, n, group, first, all, created, reserved, wrote);
            if Fate(l, moved, created, reserved, wrote) == Ok then
              && Appended(l, l'.chapters, moved, f, group, first, created.skipped)
              && l'.open == (moved || l.open) && l'.last == l.last + |group| && l'.time == f.maxTime && l'.defs == all
              && l'.bytes == n + if moved then 128 else l.bytes
            else
              && Kept(l, l'.chapters, first, created.skipped) && l'.last == l.last && l'.time == l.time
              && (SealFails(l, moved, created) ==> l' == l)
  {
    hide DayStart, Extended;
    if moved {
      var c := Chapter(l.next + created.skipped, DayStart(first), l.last + 1, [], []);
      assert New(c, l, first, created.skipped);
      Both(l.chapters, c, f, group);
    }
  }

  lemma {:induction false} Both(cs: seq<Chapter>, c: Chapter, f: Frame, group: seq<Line>)
    ensures Extended(cs + [c], f, group) == cs + [Longer(c, f, group)]
  {
  }
}
