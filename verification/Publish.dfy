/** `decrypt_file_chunked` as a process on a shared file system, any number of which run at once. */
module Publish {
  import opened ByteStrings
  import opened Context
  import opened Gcm
  import opened Stream
  import opened Segments
  import opened Blob
  import opened Files

  // ---------- one run ----------

  /** The arguments of one call, its cipher and the suffix it drew for its temp file. */
  datatype Config = Config(a: Scheme, wk: Key, id: Bytes, input: Path, output: Path, suffix: Option<Suffix>) {
    function Temp(): Result<Path> {
      SiblingTemp(output, suffix)
    }

    function Decode(content: Bytes): Result<Bytes> {
      DecodeBlob(a, Lookahead, content, wk, id)
    }
  }

  type Counter = n: nat | n <= COUNTER_MAX

  /** The variables of the loop: how far the input was read, the buffer being filled, the full chunk
      held back, the decryptor's position, and all that was given to the writer. */
  datatype Loop = Loop(offset: nat, got: Bytes, pending: Option<Bytes>, position: Counter, written: Bytes)

  /** Where a run stands. `src` is the open input file, `fd` the temp file. */
  datatype Run =
    | Start
    | ReadingHeader(src: nat, header: Bytes)
    | Armed(src: nat, s: Session)
    | Streaming(src: nat, s: Session, fd: nat, loop: Loop)
    | Flushing(src: nat, fd: nat, msg: Bytes)
    | Syncing(src: nat, fd: nat, msg: Bytes)
    | Renaming(src: nat, fd: nat, msg: Bytes)
    | Published(src: nat, fd: nat, msg: Bytes)
    | Cleaning(error: Error, file: Option<nat>, msg: Bytes)
    | Failed(error: Error)
  {
    function Source(): Option<nat> {
      if Start? || Cleaning? || Failed? then None else Some(src)
    }

    /** The file the run has created. */
    function File(): Option<nat> {
      if Cleaning? then file
      else if Start? || ReadingHeader? || Armed? || Failed? then None
      else Some(fd)
    }

    /** What was given to the buffered writer of that file. */
    function Written(): Bytes {
      if Streaming? then loop.written
      else if Start? || ReadingHeader? || Armed? || Failed? then []
      else msg
    }
  }

  /** The next thing that happens to a run: its next action (a read delivers up to `k` bytes), the
      failure of that action, or buffered output reaching the file. */
  datatype Label = Advance(k: nat) | Fault | Drain(k: nat)

  datatype Local = Local(run: Run, fs: Fs)

  function Exec(c: Config, l: Label, x: Local): Local {
    match l
    case Advance(k) => Next(c, k, x.run, x.fs)
    case Fault => Local(Break(c, x.run), x.fs)
    case Drain(k) =>
      if x.run.Streaming? || x.run.Flushing? || (x.run.Cleaning? && x.run.file.Some?)
      then Local(x.run, x.fs.Drain(x.run.File().value, x.run.Written(), k)) else x
  }

  /** An I/O failure: before the temp path is chosen nothing is cleaned up. */
  function Break(c: Config, run: Run): Run {
    match run
    case Start => if SegmentAad(c.id).Err? then Failed(SegmentAad(c.id).error) else Failed(Io)
    case ReadingHeader(_, _) => Failed(Io)
    case Cleaning(e, _, _) => Failed(e)
    case Published(_, _, _) => run
    case Failed(_) => run
    case _ => Cleaning(Io, run.File(), run.Written())
  }

  function Next(c: Config, k: nat, run: Run, fs: Fs): Local {
    match run
    case Start =>
      if SegmentAad(c.id).Err? then Local(Failed(SegmentAad(c.id).error), fs)
      else if c.input in fs.dir then Local(ReadingHeader(fs.dir[c.input], []), fs)
      else Local(Failed(Io), fs)
    case ReadingHeader(src, header) => Local(HeaderStep(c, k, src, header, fs.Data(src)), fs)
    case Armed(src, s) =>
      if c.Temp().Err? then Local(run, fs)
      else Local(Streaming(src, s, fs.CreatedAs(c.Temp().value), Loop(HEADER_LEN, [], None, 0, [])),
          fs.Create(c.Temp().value))
    case Streaming(src, s, fd, loop) => Local(LoopStep(c, k, src, s, fd, loop, fs.Data(src)), fs)
    case Flushing(src, fd, msg) => Local(Syncing(src, fd, msg), fs.Drain(fd, msg, |msg|))
    case Syncing(src, fd, msg) => Local(Renaming(src, fd, msg), fs.Sync(fd))
    case Renaming(src, fd, msg) =>
      if c.Temp().Err? then Local(run, fs)
      else Local(Published(src, fd, msg), fs.Rename(c.Temp().value, c.output))
    case Published(_, _, _) => Local(run, fs)
    case Cleaning(e, _, _) =>
      if c.Temp().Err? then Local(Failed(e), fs) else Local(Failed(e), fs.Remove(c.Temp().value))
    case Failed(_) => Local(run, fs)
  }

  function HeaderStep(c: Config, k: nat, src: nat, header: Bytes, content: Bytes): Run {
    if |header| == HEADER_LEN then
      match UnlockHeader(c.a, header, c.wk, c.id)
      case Err(e) => Failed(e)
      case Ok(s) => if c.Temp().Err? then Failed(c.Temp().error) else Armed(src, s)
    else if |header| > HEADER_LEN || |header| >= |content| then Failed(Io)
    else
      var n := Min(Max(k, 1), Min(HEADER_LEN - |header|, |content| - |header|));
      ReadingHeader(src, header + content[|header|..|header| + n])
  }

  function LoopStep(c: Config, k: nat, src: nat, s: Session, fd: nat, loop: Loop, content: Bytes): Run {
    if |loop.got| < CT_CHUNK && loop.offset < |content| then
      var n := Min(Max(k, 1), Min(CT_CHUNK - |loop.got|, |content| - loop.offset));
      Streaming(src, s, fd, loop.(offset := loop.offset + n, got := loop.got + content[loop.offset..loop.offset + n]))
    else if loop.pending.Some? then
      match s.OpenAt(c.a, loop.position, false, loop.pending.value)
      case None => Cleaning(Aead, Some(fd), loop.written)
      case Some(m) =>
        Streaming(src, s, fd, loop.(pending := None, position := loop.position + 1, written := loop.written + m))
    else if |loop.got| < CT_CHUNK then
      match s.OpenAt(c.a, loop.position, true, loop.got)
      case None => Cleaning(Aead, Some(fd), loop.written)
      case Some(m) => Flushing(src, fd, loop.written + m)
    else
      Streaming(src, s, fd, loop.(pending := Some(loop.got), got := []))
  }

  // ---------- what a run keeps ----------

  ghost predicate TempFree(c: Config, fs: Fs) {
    c.Temp().Ok? ==> c.Temp().value !in fs.dir
  }

  /** The header of the input unlocks to the session, and the temp path exists. */
  ghost predicate Unlocked(c: Config, content: Bytes, s: Session) {
    |content| >= HEADER_LEN && UnlockHeader(c.a, content[..HEADER_LEN], c.wk, c.id) == Ok(s) && c.Temp().Ok?
  }

  /** The file holds a beginning of what was given to the writer. */
  ghost predicate Holds(fs: Fs, fd: nat, msg: Bytes) {
    fd in fs.nodes && fs.nodes[fd].data <= msg && fs.nodes[fd].durable <= |fs.nodes[fd].data|
  }

  ghost predicate AtTemp(c: Config, fs: Fs, fd: nat) {
    c.Temp().Ok? && c.Temp().value in fs.dir && fs.dir[c.Temp().value] == fd
  }

  /** Conservation in the loop: header, consumed chunks, pending chunk, buffer and unread rest are the
      input; what was written is the opening of the consumed chunks. */
  ghost predicate LoopOk(a: Scheme, s: Session, content: Bytes, loop: Loop) {
    var start := HEADER_LEN + loop.position * CT_CHUNK;
    && |loop.got| <= CT_CHUNK
    && start + (if loop.pending.Some? then CT_CHUNK else 0) + |loop.got| == loop.offset <= |content|
    && (loop.pending.Some? ==> loop.pending.value == content[start..start + CT_CHUNK])
    && loop.got == content[loop.offset - |loop.got|..loop.offset]
    && OpenPrefix(a, s, content[HEADER_LEN..], loop.position) == Some(loop.written)
  }

  ghost predicate RunOk(c: Config, run: Run, fs: Fs) {
    match run
    case Start => TempFree(c, fs)
    case ReadingHeader(src, header) =>
      TempFree(c, fs) && src in fs.nodes && |header| <= HEADER_LEN && header <= fs.Data(src)
    case Armed(src, s) => TempFree(c, fs) && src in fs.nodes && Unlocked(c, fs.Data(src), s)
    case Streaming(src, s, fd, loop) =>
      && src in fs.nodes && Unlocked(c, fs.Data(src), s) && LoopOk(c.a, s, fs.Data(src), loop)
      && AtTemp(c, fs, fd) && Holds(fs, fd, loop.written)
    case Flushing(src, fd, msg) =>
      src in fs.nodes && c.Decode(fs.Data(src)) == Ok(msg) && AtTemp(c, fs, fd) && Holds(fs, fd, msg)
    case Syncing(src, fd, msg) =>
      && src in fs.nodes && c.Decode(fs.Data(src)) == Ok(msg) && AtTemp(c, fs, fd)
      && Holds(fs, fd, msg) && fs.nodes[fd].data == msg
    case Renaming(src, fd, msg) =>
      && src in fs.nodes && c.Decode(fs.Data(src)) == Ok(msg) && AtTemp(c, fs, fd)
      && fd in fs.nodes && fs.nodes[fd] == Inode(msg, |msg|)
    case Published(src, fd, msg) =>
      && src in fs.nodes && c.Decode(fs.Data(src)) == Ok(msg) && TempFree(c, fs)
      && fd in fs.nodes && fs.nodes[fd] == Inode(msg, |msg|)
    case Cleaning(_, file, msg) => file.Some? ==> Holds(fs, file.value, msg)
    case Failed(_) => true
  }

  // ---------- one action ----------

  lemma {:induction false} HeaderStepOk(c: Config, k: nat, src: nat, header: Bytes, fs: Fs)
    requires RunOk(c, ReadingHeader(src, header), fs)
    ensures RunOk(c, HeaderStep(c, k, src, header, fs.Data(src)), fs)
    ensures HeaderStep(c, k, src, header, fs.Data(src)).Source() in {None, Some(src)}
    ensures HeaderStep(c, k, src, header, fs.Data(src)).File() == None
  {
    var content := fs.Data(src);
    if |header| == HEADER_LEN {
      assert header == content[..HEADER_LEN];
    }
  }

  lemma {:induction false} ReadKeepsLoop(a: Scheme, s: Session, content: Bytes, loop: Loop, n: nat)
    requires LoopOk(a, s, content, loop) && n <= CT_CHUNK - |loop.got| && n <= |content| - loop.offset
    ensures LoopOk(a, s, content,
                   loop.(offset := loop.offset + n, got := loop.got + content[loop.offset..loop.offset + n]))
  {
    hide OpenPrefix;
  }

  lemma {:induction false} NextKeepsLoop(a: Scheme, s: Session, content: Bytes, loop: Loop)
    requires LoopOk(a, s, content, loop) && loop.pending.Some?
    requires s.OpenAt(a, loop.position, false, loop.pending.value).Some?
    ensures loop.position < COUNTER_MAX
    ensures var m := s.OpenAt(a, loop.position, false, loop.pending.value).value;
            LoopOk(a, s, content,
                   loop.(pending := None, position := loop.position + 1, written := loop.written + m))
  {
    hide SegmentNonce;
    var first := loop.position * CT_CHUNK;
    SliceOfTail(content, HEADER_LEN, first, first + CT_CHUNK);
    assert loop.pending.value == FullChunk(content[HEADER_LEN..], loop.position);
  }

  lemma {:induction false} SliceOfTail(x: Bytes, k: nat, i: nat, j: nat)
    requires i <= j && k + j <= |x|
    ensures x[k..][i..j] == x[k + i..k + j]
  {
  }

  lemma {:induction false} HoldKeepsLoop(a: Scheme, s: Session, content: Bytes, loop: Loop)
    requires LoopOk(a, s, content, loop) && loop.pending.None? && |loop.got| == CT_CHUNK
    ensures LoopOk(a, s, content, loop.(pending := Some(loop.got), got := []))
  {
    hide OpenPrefix;
  }

  lemma {:induction false} LoopBounds(a: Scheme, s: Session, content: Bytes, loop: Loop)
    requires LoopOk(a, s, content, loop)
    ensures |loop.got| <= CT_CHUNK && loop.offset <= |content|
  {
  }

  lemma {:induction false} LoopStepOk(c: Config, k: nat, src: nat, s: Session, fd: nat, loop: Loop, fs: Fs)
    requires RunOk(c, Streaming(src, s, fd, loop), fs)
    ensures RunOk(c, LoopStep(c, k, src, s, fd, loop, fs.Data(src)), fs)
    ensures LoopStep(c, k, src, s, fd, loop, fs.Data(src)).Source() in {None, Some(src)}
    ensures LoopStep(c, k, src, s, fd, loop, fs.Data(src)).File() == Some(fd)
  {
    hide Unlocked, LoopOk, AtTemp, DecodeBlob, Session.OpenAt;
    var content := fs.Data(src);
    LoopBounds(c.a, s, content, loop);
    if |loop.got| < CT_CHUNK && loop.offset < |content| {
      var n := Min(Max(k, 1), Min(CT_CHUNK - |loop.got|, |content| - loop.offset));
      ReadKeepsLoop(c.a, s, content, loop, n);
    } else if loop.pending.Some? {
      if s.OpenAt(c.a, loop.position, false, loop.pending.value).Some? {
        NextKeepsLoop(c.a, s, content, loop);
      }
    } else if |loop.got| < CT_CHUNK {
      FinalStepDecodes(c, s, content, loop);
    } else {
      HoldKeepsLoop(c.a, s, content, loop);
    }
  }

  /** With the input at its end and nothing pending, the last segment decides the whole. */
  lemma {:induction false} FinalStepDecodes(c: Config, s: Session, content: Bytes, loop: Loop)
    requires Unlocked(c, content, s) && LoopOk(c.a, s, content, loop)
    requires loop.pending.None? && |loop.got| < CT_CHUNK && loop.offset == |content|
    ensures var m := s.OpenAt(c.a, loop.position, true, loop.got);
            c.Decode(content) == if m.Some? then Ok(loop.written + m.value) else Err(Aead)
  {
    var body := content[HEADER_LEN..];
    OpenAfterPrefix(c.a, s, body, loop.position);
    assert body[loop.position * CT_CHUNK..] == loop.got;
  }

  /** A pending chunk that does not open condemns the whole. */
  lemma {:induction false} PendingStepCondemns(c: Config, s: Session, content: Bytes, loop: Loop)
    requires Unlocked(c, content, s) && LoopOk(c.a, s, content, loop)
    requires loop.pending.Some? && s.OpenAt(c.a, loop.position, false, loop.pending.value).None?
    ensures c.Decode(content) == Err(Aead)
  {
    var body := content[HEADER_LEN..];
    OpenAfterPrefix(c.a, s, body, loop.position);
    assert body[loop.position * CT_CHUNK..][..CT_CHUNK] == loop.pending.value;
  }

  /** What one action of a run may change: its own unpublished file, its temp path, and, when it
      publishes, its output path. */
  ghost predicate Effect(c: Config, x: Local, y: Local) {
    && (x.run.Published? ==> y == x)
    // files
    && (forall n :: n in x.fs.nodes ==> n in y.fs.nodes && (x.run.File() == Some(n) || y.fs.nodes[n] == x.fs.nodes[n]))
    && (y.run.File().None? || y.run.File() == x.run.File() || y.run.File().value !in x.fs.nodes)
    // the open input
    && (y.run.Source().None? || y.run.Source() == x.run.Source()
        || (c.input in x.fs.dir && y.run.Source() == Some(x.fs.dir[c.input]) && y.run.File().None?))
    // the directory
    && (forall p :: c.Temp() != Ok(p) && (p != c.output || !y.run.Published?) ==>
          (p in x.fs.dir <==> p in y.fs.dir) && (p in x.fs.dir ==> y.fs.dir[p] == x.fs.dir[p]))
    && (y.run.Published? && !x.run.Published? ==> c.output in y.fs.dir && y.fs.dir[c.output] == y.run.fd)
  }

  ghost predicate SourceIsNotFile(run: Run) {
    run.Source().None? || run.Source() != run.File()
  }

  /** An action keeps the run in order and has no other effects. */
  ghost predicate Sound(c: Config, x: Local, y: Local) {
    y.fs.WellFormed() && RunOk(c, y.run, y.fs) && Effect(c, x, y)
  }

  /** Where actions start from. */
  ghost predicate Ready(c: Config, x: Local) {
    x.fs.WellFormed() && RunOk(c, x.run, x.fs) && SourceIsNotFile(x.run) && c.Temp() != Ok(c.output)
  }

  lemma {:induction false} OpeningSound(c: Config, k: nat, x: Local)
    requires Ready(c, x) && (x.run.Start? || x.run.ReadingHeader?)
    ensures Sound(c, x, Exec(c, Advance(k), x))
  {
    hide Unlocked, UnlockHeader, HeaderStep, LoopOk, DecodeBlob;
    match x.run
    case ReadingHeader(src, header) => HeaderStepOk(c, k, src, header, x.fs);
    case Start =>
  }

  lemma {:induction false} CreatingSound(c: Config, k: nat, x: Local)
    requires Ready(c, x) && x.run.Armed?
    ensures Sound(c, x, Exec(c, Advance(k), x))
  {
    hide LoopOk, Unlocked, UnlockHeader, DecodeBlob;
    LoopStarts(c, x.run.s, x.fs.Data(x.run.src));
  }

  lemma {:induction false} WritingSound(c: Config, k: nat, x: Local)
    requires Ready(c, x) && (x.run.Streaming? || x.run.Flushing? || x.run.Syncing?)
    ensures Sound(c, x, Exec(c, Advance(k), x))
  {
    hide LoopOk, Unlocked, UnlockHeader, LoopStep, DecodeBlob;
    match x.run
    case Streaming(src, s, fd, loop) => LoopStepOk(c, k, src, s, fd, loop, x.fs);
    case _ =>
  }

  lemma {:induction false} ClosingSound(c: Config, k: nat, x: Local)
    requires Ready(c, x) && (x.run.Renaming? || x.run.Published? || x.run.Cleaning? || x.run.Failed?)
    ensures Sound(c, x, Exec(c, Advance(k), x))
  {
    hide LoopOk, Unlocked, UnlockHeader, DecodeBlob;
  }

  lemma {:induction false} DrainSound(c: Config, k: nat, x: Local)
    requires Ready(c, x)
    ensures Sound(c, x, Exec(c, Drain(k), x))
  {
    hide LoopOk, Unlocked, UnlockHeader, DecodeBlob;
  }

  lemma {:induction false} BreakSound(c: Config, x: Local)
    requires Ready(c, x)
    ensures Sound(c, x, Exec(c, Fault, x))
  {
    hide LoopOk, Unlocked, UnlockHeader, DecodeBlob;
  }

  lemma {:induction false} ExecSound(c: Config, l: Label, x: Local)
    requires Ready(c, x)
    ensures Sound(c, x, Exec(c, l, x))
  {
    hide Ready, Sound, Exec;
    match l
    case Fault => BreakSound(c, x);
    case Drain(k) => DrainSound(c, k, x);
    case Advance(k) =>
      if x.run.Start? || x.run.ReadingHeader? {
        OpeningSound(c, k, x);
      } else if x.run.Armed? {
        CreatingSound(c, k, x);
      } else if x.run.Streaming? || x.run.Flushing? || x.run.Syncing? {
        WritingSound(c, k, x);
      } else {
        ClosingSound(c, k, x);
      }
  }

  lemma {:induction false} LoopStarts(c: Config, s: Session, content: Bytes)
    requires Unlocked(c, content, s)
    ensures LoopOk(c.a, s, content, Loop(HEADER_LEN, [], None, 0, []))
  {
  }
}
