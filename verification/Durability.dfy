/** The durability protocol of src/storage/segments.c, src/storage/retention.c,
    src/storage/metadata.c and src/platform/files.c as a state machine. A step is
    one file-system effect or one publication under the lock, and the process may
    die between any two. A file has a synced part and an unsynced tail of which a
    crash keeps any prefix; a manifest that was renamed into place but whose
    directory was not synced survives a crash or not. */
module Durability {
  import opened Bytes
  import opened Frames
  import opened Logs
  import opened Segments
  import opened History
  import opened Recovery
  import opened Reopen

  datatype File = File(synced: seq<Byte>, pending: seq<Byte>, linked: bool)

  /** What a manifest in the course of installation is for. */
  datatype Goal = Rotated(seg: Seg) | Rewritten

  datatype Install = Install(image: Manifest, goal: Goal)

  datatype Disk = Disk(manifest: Manifest, installing: Option<Install>, files: map<Key, File>)

  /** Where the writer stands. Failed is the read-only state after an uncertain write; it ends with the process. */
  datatype Pc =
    | Idle
    | Creating(seg: Seg)
    | Renamed
    | Appending(frame: Frame)
    | Failed(inflight: Option<Frame>)

  /** An open table: the fields a manifest would hold now, and the last sequence number and time. */
  datatype Memory = Memory(image: Manifest, last: int, time: int)

  /** hist and acked exist only for the statement: the frames committed so far and those acknowledged to clients. */
  datatype State =
    | Open(disk: Disk, mem: Memory, pc: Pc, hist: seq<Seg>, acked: seq<Frame>)
    | Closed(disk: Disk, hist: seq<Seg>, acked: seq<Frame>)

  function SegKey(s: Seg): Key { Key(s.day, s.id) }

  function LastSeg(hist: seq<Seg>): Seg
    requires hist != []
  {
    hist[|hist| - 1]
  }

  function LastMeta(m: Manifest): Meta
    requires m.segments != []
  {
    m.segments[|m.segments| - 1]
  }

  predicate HasActive(m: Manifest) { m.segments != [] && LastMeta(m).state == Active }

  /** The history with one more frame in its last segment. */
  function AddFrame(hist: seq<Seg>, f: Frame): seq<Seg>
    requires hist != []
  {
    hist[|hist| - 1 := LastSeg(hist).(frames := LastSeg(hist).frames + [f])]
  }

  function Inflight(s: State): Option<Frame> {
    if s.Open? && s.pc.Appending? then Some(s.pc.frame)
    else if s.Open? && s.pc.Failed? then s.pc.inflight
    else None
  }

  // ---- the images that the operations write ----

  /** create_active: seal the active segment, if any, and add an empty active one. */
  function RotateImage(m: Manifest, s: Seg): Manifest {
    var sealed := if HasActive(m) then m.segments[|m.segments| - 1 := LastMeta(m).(state := Sealed)] else m.segments;
    m.(segments := sealed + [Meta(s.id, s.day, s.first, 0, 0, 0, SEGMENT_HEADER_BYTES, Active)],
       nextId := s.id + 1, generation := m.generation + 1)
  }

  /** Whether wadb_retention_apply retires a segment. */
  predicate Expired(s: Meta, cutoff: int) { s.state != Retired && s.last != 0 && s.maxTime < cutoff }

  function RetireMetas(metas: seq<Meta>, cutoff: int): (r: seq<Meta>)
    ensures |r| == |metas|
    ensures forall i :: 0 <= i < |metas| ==>
              r[i] == if Expired(metas[i], cutoff) then metas[i].(state := Retired) else metas[i]
  {
    seq(|metas|, i requires 0 <= i < |metas| =>
      if Expired(metas[i], cutoff) then metas[i].(state := Retired) else metas[i])
  }

  /** wadb_retention_apply: the watermark becomes that of the last segment it retires, if it retires any. */
  function RetireImage(m: Manifest, cutoff: int): Manifest {
    var segments := RetireMetas(m.segments, cutoff);
    var w := LastExpired(m.segments, cutoff);
    var n := m.(segments := segments, generation := m.generation + 1);
    if w.None? then n else n.(preservedSequence := w.value.last, preservedTime := w.value.maxTime)
  }

  function LastExpired(metas: seq<Meta>, cutoff: int): Option<Meta> {
    if metas == [] then None
    else if Expired(metas[|metas| - 1], cutoff) then Some(metas[|metas| - 1])
    else LastExpired(metas[..|metas| - 1], cutoff)
  }

  /** wadb_set_retention. */
  function ConfigureImage(m: Manifest, retention: nat): Manifest {
    m.(retention := retention, generation := m.generation + 1)
  }

  // ---- steps of an open table ----

  ghost function HeaderBytesOf(t: Table, s: Seg): seq<Byte> { SegBytes(t, s.(frames := [])) }

  /** The new segment file exists, empty; its identifier is unused and at least the next one. */
  ghost predicate StartCreate(t: Table, s: State, s': State, seg: Seg) {
    && s.Open? && s.pc == Idle
    && seg.frames == [] && seg.id != 0 && s.mem.image.nextId <= seg.id && seg.first == s.mem.last + 1
    && seg.day >= 0 && seg.day % DAY_US == 0
    && SegKey(seg) !in s.disk.files
    && s' == s.(pc := Creating(seg), disk := s.disk.(files := s.disk.files[SegKey(seg) := File([], [], false)]))
  }

  /** A write to the new file: some more of its header. */
  ghost predicate WriteNewFile(t: Table, s: State, s': State, n: nat) {
    && s.Open? && s.pc.Creating? && SegKey(s.pc.seg) in s.disk.files
    && n <= |HeaderBytesOf(t, s.pc.seg)|
    && var k := SegKey(s.pc.seg);
       && s.disk.files[k].synced == []
       && s' == s.(disk := s.disk.(files := s.disk.files[k := s.disk.files[k].(pending := HeaderBytesOf(t,
           s.pc.seg)[..n])]))
  }

  /** Syncing the new file, once its header is complete. */
  ghost predicate SyncNewFile(t: Table, s: State, s': State) {
    && s.Open? && s.pc.Creating? && SegKey(s.pc.seg) in s.disk.files
    && var k := SegKey(s.pc.seg);
       && s.disk.files[k].synced == [] && s.disk.files[k].pending == HeaderBytesOf(t, s.pc.seg)
       && s' == s.(disk := s.disk.(files := s.disk.files[k := s.disk.files[k].(synced := HeaderBytesOf(t, s.pc.seg),
           pending := [])]))
  }

  /** Syncing the directory that holds the new file. */
  ghost predicate LinkNewFile(s: State, s': State) {
    && s.Open? && s.pc.Creating? && SegKey(s.pc.seg) in s.disk.files
    && var k := SegKey(s.pc.seg);
       s' == s.(disk := s.disk.(files := s.disk.files[k := s.disk.files[k].(linked := true)]))
  }

  /** The manifest that seals the old segment and lists the new one is renamed into place. */
  ghost predicate RenameRotated(t: Table, s: State, s': State) {
    && s.Open? && s.pc.Creating? && SegKey(s.pc.seg) in s.disk.files
    && s.disk.files[SegKey(s.pc.seg)] == File(HeaderBytesOf(t, s.pc.seg), [], true)
    && s' == s.(pc := Renamed,
                disk := s.disk.(installing := Some(Install(RotateImage(s.mem.image, s.pc.seg), Rotated(s.pc.seg)))))
  }

  /** The manifest of a retention run or of a changed retention setting is renamed into place. */
  ghost predicate RenameRewritten(s: State, s': State, image: Manifest) {
    && s.Open? && s.pc == Idle
    && ((exists cutoff :: image == RetireImage(s.mem.image, cutoff)) ||
        (exists retention: nat :: retention <= I64_MAX && image == ConfigureImage(s.mem.image, retention)))
    && s' == s.(pc := Renamed, disk := s.disk.(installing := Some(Install(image, Rewritten))))
  }

  /** The manifest's directory is synced and the new image is published. */
  ghost predicate SyncManifest(s: State, s': State) {
    && s.Open? && s.pc == Renamed && s.disk.installing.Some?
    && var i := s.disk.installing.value;
       s' == s.(pc := Idle, disk := s.disk.(manifest := i.image, installing := None),
                mem := s.mem.(image := i.image),
                hist := if i.goal.Rotated? then s.hist + [i.goal.seg] else s.hist)
  }

  /** Creating a segment or saving a manifest fails before the rename: the table goes on, the file is left behind. */
  ghost predicate FailCreate(s: State, s': State) {
    s.Open? && s.pc.Creating? && s' == s.(pc := Idle)
  }

  /** The directory sync after the rename fails: whether the manifest is installed is unknown. */
  ghost predicate FailManifest(s: State, s': State) {
    s.Open? && s.pc == Renamed && s' == s.(pc := Failed(None))
  }

  ghost predicate StartAppend(t: Table, s: State, s': State, f: Frame) {
    && s.Open? && s.pc == Idle && s.hist != [] && HasActive(s.mem.image)
    && FrameFits(t, LastSeg(s.hist).day, LastSeg(s.hist).frames, f, s.mem.last, s.mem.time)
    && |SegBytes(t, LastSeg(s.hist))| + |EncodeFrame(f)| <= I64_MAX
    && s' == s.(pc := Appending(f))
  }

  /** A write to the active segment: the frame up to its n-th byte is in the file. */
  ghost predicate WriteChunk(s: State, s': State, n: nat) {
    && s.Open? && s.pc.Appending? && s.hist != [] && SegKey(LastSeg(s.hist)) in s.disk.files
    && FrameValid(s.pc.frame) && n <= |EncodeFrame(s.pc.frame)|
    && var k := SegKey(LastSeg(s.hist));
       s' == s.(disk := s.disk.(files := s.disk.files[k := s.disk.files[k].(pending := EncodeFrame(s.pc.frame)[..n])]))
  }

  /** The sync succeeds, the new boundary is published and the requests of the frame are acknowledged. */
  ghost predicate SyncData(t: Table, s: State, s': State) {
    && s.Open? && s.pc.Appending? && s.hist != [] && SegKey(LastSeg(s.hist)) in s.disk.files
    && s.mem.image.segments != []
    && FrameValid(s.pc.frame)
    && var f, k := s.pc.frame, SegKey(LastSeg(s.hist));
       && s.disk.files[k].pending == EncodeFrame(f)
       && var hist' := AddFrame(s.hist, f);
          s' == Open(
            s.disk.(files := s.disk.files[k := s.disk.files[k].(synced := s.disk.files[k].synced + EncodeFrame(f),
                                                                pending := [])]),
            Memory(s.mem.image.(segments := Published(s.mem.image, f)), f.firstSequence + f.rowCount - 1, f.maxTime),
            Idle, hist', s.acked + [f])
  }

  /** The records once a frame of the active segment is committed. */
  function Published(m: Manifest, f: Frame): seq<Meta>
    requires m.segments != [] && FrameValid(f)
  {
    m.segments[|m.segments| - 1 := Publish(LastMeta(m), f)]
  }

  /** The update of the active record when a frame is committed. */
  function Publish(m: Meta, f: Frame): Meta
    requires FrameValid(f)
  {
    m.(last := f.firstSequence + f.rowCount - 1, minTime := if m.last == 0 then f.minTime else m.minTime,
       maxTime := f.maxTime, bytes := m.bytes + |EncodeFrame(f)|)
  }

  /** A write or the sync fails: what reached the disk is unknown and the table becomes read-only. */
  ghost predicate FailAppend(s: State, s': State) {
    s.Open? && s.pc.Appending? && s' == s.(pc := Failed(Some(s.pc.frame)))
  }

  /** A file of a retired segment is deleted, which a read-only table does too. */
  ghost predicate Unlink(s: State, s': State, i: nat) {
    && s.Open? && (s.pc == Idle || s.pc.Failed?) && i < |s.mem.image.segments|
    && s.mem.image.segments[i].state == Retired
    && s' == s.(disk := s.disk.(files := s.disk.files - {KeyOf(s.mem.image.segments[i])}))
  }

  // ---- crash and recovery ----

  /** What a crash leaves of a file whose directory entry is durable. */
  ghost predicate Kept(before: File, after: File) {
    exists n: nat :: n <= |before.pending| && after == File(before.synced + before.pending[..n], [], true)
  }

  /** Durable entries keep their synced bytes; anything may be left of files that were never linked or already
      deleted. */
  ghost predicate Survives(d: Disk, d': Disk) {
    && d'.installing == None
    && (d'.manifest == d.manifest || (d.installing.Some? && d'.manifest == d.installing.value.image))
    && (forall k :: k in d.files && d.files[k].linked ==> k in d'.files && Kept(d.files[k], d'.files[k]))
    && (forall k :: k in d'.files ==> d'.files[k].pending == [] && d'.files[k].linked)
  }

  /** The history that the surviving files stand for: with the new segment if its manifest survived, and with the
      in-flight frame if all of it did. */
  ghost function HistAfter(t: Table, s: State, d': Disk): seq<Seg>
    requires s.Open?
  {
    var i := s.disk.installing;
    if i.Some? && i.value.goal.Rotated? && d'.manifest == i.value.image then s.hist + [i.value.goal.seg]
    else
      var f := Inflight(s);
      if f.Some? && s.hist != [] && FrameValid(f.value) && SegKey(LastSeg(s.hist)) in d'.files &&
         d'.files[SegKey(LastSeg(s.hist))].synced == SegBytes(t, LastSeg(s.hist)) + EncodeFrame(f.value)
      then AddFrame(s.hist, f.value)
      else s.hist
  }

  ghost predicate Crash(t: Table, s: State, s': State) {
    && s.Open? && s'.Closed? && Survives(s.disk, s'.disk)
    && s'.hist == HistAfter(t, s, s'.disk) && s'.acked == s.acked
  }

  ghost function Contents(d: Disk): Files { map k | k in d.files :: d.files[k].synced }

  /** The torn tail of an active file is cut shorter while the table is being reopened, and the process dies again. */
  ghost predicate Truncate(t: Table, s: State, s': State, n: nat) {
    && s.Closed? && s.hist != [] && HasActive(s.disk.manifest) && SegKey(LastSeg(s.hist)) in s.disk.files
    && var k := SegKey(LastSeg(s.hist));
       && |SegBytes(t, LastSeg(s.hist))| <= n <= |s.disk.files[k].synced|
       && s' == s.(disk := s.disk.(files := s.disk.files[k := s.disk.files[k].(synced := s.disk.files[k].synced[..n])]))
  }

  /** Files after recovery: the active one is cut to the bytes that recovery accepted. */
  ghost function CutActive(d: Disk, image: Manifest): map<Key, File> {
    if HasActive(image) && KeyOf(LastMeta(image)) in d.files
    && LastMeta(image).bytes <= |d.files[KeyOf(LastMeta(image))].synced|
    then
      var k := KeyOf(LastMeta(image));
      d.files[k := d.files[k].(synced := d.files[k].synced[..LastMeta(image).bytes])]
    else d.files
  }

  /** The table is reopened: the manifest loads and every segment is recovered. */
  ghost predicate Restart(t: Table, s: State, s': State, indexed: set<U64>) {
    && s.Closed?
    && var r := Recover(t, s.disk.manifest, Contents(s.disk), indexed);
       && r.Reopened?
       && s' == Open(s.disk.(files := CutActive(s.disk, r.image)), Memory(r.image, r.last, r.time), Idle, s.hist,
                     s.acked)
  }

  /** A fresh table, as its creation leaves it. */
  ghost predicate Initial(s: State) {
    && s.Open? && s.pc == Idle && s.hist == [] && s.acked == []
    && s.disk.installing == None && s.disk.manifest == s.mem.image
    && s.mem.image.nextId == 1 && s.mem.image.generation == 1 && s.mem.image.retention <= I64_MAX
    && s.mem.image.segments == [] && s.mem.image.preservedSequence == 0 && s.mem.image.preservedTime == 0
    && s.mem.last == 0 && s.mem.time == 0
  }

  datatype Step =
    | StepStartCreate(seg: Seg) | StepWriteNewFile(n: nat) | StepSyncNewFile | StepLinkNewFile | StepRenameRotated
    | StepRenameRewritten(image: Manifest) | StepSyncManifest | StepFailCreate | StepFailManifest
    | StepStartAppend(frame: Frame) | StepWriteChunk(n: nat) | StepSyncData | StepFailAppend | StepUnlink(i: nat)
    | StepCrash | StepTruncate(n: nat) | StepRestart(indexed: set<U64>)

  ghost predicate Moves(t: Table, s: State, s': State, step: Step) {
    match step
    case StepStartCreate(seg) => StartCreate(t, s, s', seg)
    case StepWriteNewFile(n) => WriteNewFile(t, s, s', n)
    case StepSyncNewFile => SyncNewFile(t, s, s')
    case StepLinkNewFile => LinkNewFile(s, s')
    case StepRenameRotated => RenameRotated(t, s, s')
    case StepRenameRewritten(image) => RenameRewritten(s, s', image)
    case StepSyncManifest => SyncManifest(s, s')
    case StepFailCreate => FailCreate(s, s')
    case StepFailManifest => FailManifest(s, s')
    case StepStartAppend(f) => StartAppend(t, s, s', f)
    case StepWriteChunk(n) => WriteChunk(s, s', n)
    case StepSyncData => SyncData(t, s, s')
    case StepFailAppend => FailAppend(s, s')
    case StepUnlink(i) => Unlink(s, s', i)
    case StepCrash => Crash(t, s, s')
    case StepTruncate(n) => Truncate(t, s, s', n)
    case StepRestart(indexed) => Restart(t, s, s', indexed)
  }
}
