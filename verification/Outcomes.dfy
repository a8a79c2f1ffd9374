/** What a file decryption comes to: its result, and what it leaves at its temp path, told from the
    file system at the moment it opened its input. */
module Outcomes {
  import opened ByteStrings
  import opened Context
  import opened Gcm
  import opened Stream
  import opened Segments
  import opened Blob
  import opened Files
  import opened Publish

  // ---------- the result ----------

  /** The call can start to decode: id, input and header are in order and there is a temp path. */
  ghost predicate Opens(c: Config, fs: Fs) {
    && SegmentAad(c.id).Ok? && c.input in fs.dir
    && |fs.Content(c.input)| >= HEADER_LEN
    && UnlockHeader(c.a, fs.Content(c.input)[..HEADER_LEN], c.wk, c.id).Ok? && c.Temp().Ok?
  }

  /** What the call comes to when no I/O operation fails: the decoding of the input, unless the input
      is missing or no temp path can be made; the order of the checks decides which error is reported. */
  function Expected(c: Config, fs: Fs): Result<Bytes> {
    if SegmentAad(c.id).Err? then Err(SegmentAad(c.id).error)
    else if c.input !in fs.dir then Err(Io)
    else
      var content := fs.Data(fs.dir[c.input]);
      if |content| < HEADER_LEN then Err(Io)
      else if UnlockHeader(c.a, content[..HEADER_LEN], c.wk, c.id).Err? then
        Err(UnlockHeader(c.a, content[..HEADER_LEN], c.wk, c.id).error)
      else if c.Temp().Err? then Err(c.Temp().error)
      else c.Decode(content)
  }

  /** Which result that is, case by case. */
  lemma {:induction false} ExpectedCases(c: Config, fs: Fs)
    ensures var r, content := Expected(c, fs), fs.Content(c.input);
            if !(0 < |c.id| < 0x1_0000_0000) then r == Err(InvalidContext)
            else if c.input !in fs.dir || |content| < 72 then r == Err(Io)
            else if UnlockHeader(c.a, content[..72], c.wk, c.id).Err? then r == Err(Aead)
            else if c.suffix.None? then r == Err(Randomness)
            else if c.output.name.None? then r == Err(Io)
            else r == c.Decode(content) && (r.Err? ==> r == Err(Aead))
  {
    hide OpenBody;
    SegmentAadBytes(c.id);
    TempIsSibling(c.output, c.suffix);
  }

  /** The run works on the input it found when the file system was `at`; `clean` says that none of its
      operations has failed. */
  ghost predicate Outcome(c: Config, at: Fs, y: Local, clean: bool) {
    && (y.run.Source().Some? ==>
          && SegmentAad(c.id).Ok? && c.input in at.dir && y.run.Source().value == at.dir[c.input]
          && y.fs.Data(at.dir[c.input]) == at.Data(at.dir[c.input]))
    && (y.run.Cleaning? || y.run.Failed? ==> Expected(c, at) == Err(y.run.error) || (!clean && y.run.error == Io))
    && (y.run.Start? || y.run.ReadingHeader? || y.run.Failed? || c.Temp().Ok?)
  }

  lemma {:induction false} OutcomeBegins(c: Config, y: Local, l: Label, clean: bool)
    requires y.run.Start? && (clean ==> l != Fault)
    ensures Outcome(c, y.fs, Exec(c, l, y), clean)
  {
  }

  lemma {:induction false} OutcomeKept(c: Config, at: Fs, y: Local, l: Label, clean: bool)
    requires Ready(c, y) && !y.run.Start? && Outcome(c, at, y, clean)
    ensures Outcome(c, at, Exec(c, l, y), clean && l != Fault)
  {
    hide LoopOk, OpenBody, OpenPrefix, UnlockHeader, SegmentNonce, DecodeBlob;
    if l == Fault {
      BreakKept(c, at, y, clean);
    } else if y.run.ReadingHeader? {
      ReadingKept(c, at, y, l, clean);
    } else if y.run.Streaming? {
      StreamingKept(c, at, y, l, clean);
    } else {
      RestKept(c, at, y, l, clean);
    }
  }

  lemma {:induction false} BreakKept(c: Config, at: Fs, y: Local, clean: bool)
    requires Ready(c, y) && !y.run.Start? && Outcome(c, at, y, clean)
    ensures Outcome(c, at, Exec(c, Fault, y), false)
  {
    hide LoopOk, UnlockHeader, DecodeBlob, Expected;
  }

  lemma {:induction false} RestKept(c: Config, at: Fs, y: Local, l: Label, clean: bool)
    requires Ready(c, y) && Outcome(c, at, y, clean)
    requires !y.run.Start? && !y.run.ReadingHeader? && !y.run.Streaming? && l != Fault
    ensures Outcome(c, at, Exec(c, l, y), clean)
  {
    hide LoopOk, Unlocked, UnlockHeader, DecodeBlob, LoopStep, HeaderStep, Expected;
  }

  lemma {:induction false} ReadingKept(c: Config, at: Fs, y: Local, l: Label, clean: bool)
    requires Ready(c, y) && Outcome(c, at, y, clean) && y.run.ReadingHeader? && l != Fault
    ensures Outcome(c, at, Exec(c, l, y), clean)
  {
    hide UnlockHeader, DecodeBlob;
    var content := y.fs.Data(y.run.src);
    if |y.run.header| == HEADER_LEN {
      assert y.run.header == content[..HEADER_LEN];
    }
  }

  lemma {:induction false} StreamingKept(c: Config, at: Fs, y: Local, l: Label, clean: bool)
    requires Ready(c, y) && Outcome(c, at, y, clean) && y.run.Streaming? && l != Fault
    ensures Outcome(c, at, Exec(c, l, y), clean)
  {
    hide OpenBody, OpenPrefix, UnlockHeader, SegmentNonce, DecodeBlob;
    var loop, s, content := y.run.loop, y.run.s, y.fs.Data(y.run.src);
    if l.Advance? && (|loop.got| == CT_CHUNK || loop.offset >= |content|) {
      if loop.pending.Some? {
        if s.OpenAt(c.a, loop.position, false, loop.pending.value).None? {
          PendingStepCondemns(c, s, content, loop);
        }
      } else if |loop.got| < CT_CHUNK {
        FinalStepDecodes(c, s, content, loop);
      }
    }
  }

  /** What is published is what was expected, also if operations failed on the way. */
  lemma {:induction false} PublishedAsExpected(c: Config, at: Fs, y: Local, clean: bool)
    requires y.run.Published? && RunOk(c, y.run, y.fs) && Outcome(c, at, y, clean)
    ensures Expected(c, at) == Ok(y.run.msg)
  {
  }

  // ---------- the temp file ----------

  ghost predicate HasTemp(c: Config, fs: Fs) {
    c.Temp().Ok? && c.Temp().value in fs.dir
  }

  /** A run is over with its temp file left behind only once the removal of that file has failed. */
  lemma {:induction false} LeftByFailedRemoval(c: Config, l: Label, x: Local)
    requires Ready(c, x)
    ensures var y := Exec(c, l, x);
            y.run.Failed? && HasTemp(c, y.fs)
            <==> HasTemp(c, x.fs) && (x.run.Failed? || (x.run.Cleaning? && l == Fault))
  {
    hide LoopOk, Unlocked, UnlockHeader, DecodeBlob, Session.OpenAt;
  }

  // ---------- a call comes to an end ----------

  ghost predicate Finished(run: Run) {
    run.Published? || run.Failed?
  }

  /** How many successful actions a run may still take. */
  ghost function Rank(c: Config, x: Local): nat
    requires Ready(c, x)
  {
    match x.run
    case Start => 3 * |x.fs.Content(c.input)| + HEADER_LEN + 8
    case ReadingHeader(src, header) => 3 * |x.fs.Data(src)| + HEADER_LEN - |header| + 7
    case Armed(src, _) => 3 * |x.fs.Data(src)| + 6
    case Streaming(src, _, _, l) =>
      3 * (|x.fs.Data(src)| - l.offset) + 2 * |l.got| + (if l.pending.Some? then 1 else 0) + 5
    case Flushing(_, _, _) => 4
    case Syncing(_, _, _) => 3
    case Renaming(_, _, _) => 2
    case Cleaning(_, _, _) => 1
    case _ => 0
  }

  lemma {:induction false} RankDecreases(c: Config, k: nat, x: Local)
    requires Ready(c, x) && !Finished(x.run)
    requires Ready(c, Exec(c, Advance(k), x))
    ensures Rank(c, Exec(c, Advance(k), x)) < Rank(c, x)
  {
    hide OpenBody, OpenPrefix, UnlockHeader, SegmentNonce, DecodeBlob, Session.OpenAt;
  }
}
