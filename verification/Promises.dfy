/** What the documentation says of `decrypt_file_chunked`, and exactly when it is so: that it holds one
    ciphertext chunk, that a call with a wrong key creates nothing, and that a file is at its output iff
    it is complete plaintext. */
module Promises {
  import opened ByteStrings
  import opened Gcm
  import opened Stream
  import opened Segments
  import opened Blob
  import opened CodecLaws
  import opened Files
  import opened Publish
  import opened Outcomes
  import opened Concurrency
  import opened SingleRun
  import opened FileDecoder

  // ---------- the ciphertext in memory ----------

  /** The bytes of the input's body that the loop holds: the pending chunk and the buffer. */
  function Held(run: Run): nat {
    if run.Streaming? then (if run.loop.pending.Some? then |run.loop.pending.value| else 0) + |run.loop.got| else 0
  }

  /** The most that a call ever holds. */
  ghost function Peak(c: Config, fs: Fs): nat {
    if Opens(c, fs) then Min(|fs.Content(c.input)| - HEADER_LEN, 2 * CT_CHUNK) else 0
  }

  lemma {:induction false} HeldAtMost(c: Config, ls: seq<Label>, fs0: Fs)
    requires Layout([c], fs0)
    ensures Held(Perform(c, ls, Begin(fs0)).run) <= Peak(c, fs0)
  {
    hide Perform, Inv, UnlockHeader, OpenPrefix, DecodeBlob, Expected;
    PerformKeeps(c, ls, fs0);
    StaysOnCourse(c, ls, fs0);
  }

  /** The call, up to the creation of its temp file. */
  lemma {:induction false} LoopIsReached(c: Config, fs0: Fs) returns (ls: seq<Label>, s: Session)
    requires Layout([c], fs0) && Opens(c, fs0)
    ensures Fault !in ls
    ensures var src, fd := fs0.dir[c.input], fs0.CreatedAs(c.Temp().value);
            && fs0.Create(c.Temp().value).Data(src) == fs0.Content(c.input)
            && At(c, fs0, ls, Streaming(src, s, fd, Loop(HEADER_LEN, [], None, 0, [])), fs0.Create(c.Temp().value))
  {
    hide At, UnlockHeader;
    assert [c][0] == c;
    var src, header := fs0.dir[c.input], fs0.Content(c.input)[..HEADER_LEN];
    s := UnlockHeader(c.a, header, c.wk, c.id).value;
    AtBegin(c, fs0);
    Act(c, fs0, [], Run.Start, fs0, Advance(0));
    ls := ActReadHeader(c, fs0, [] + [Advance(0)], src, fs0, HEADER_LEN);
    Act(c, fs0, ls, ReadingHeader(src, header), fs0, Advance(0));
    ls := ls + [Advance(0)];
    Act(c, fs0, ls, Armed(src, s), fs0, Advance(0));
    ls := ls + [Advance(0)];
  }

  /** A call that reads a full chunk and then what there is of a second one holds both. */
  lemma {:induction false} PeakIsReached(c: Config, fs0: Fs) returns (ls: seq<Label>)
    requires Layout([c], fs0)
    ensures Held(Perform(c, ls, Begin(fs0)).run) == Peak(c, fs0) && Fault !in ls
  {
    hide Opens, Exec;
    if !Opens(c, fs0) {
      AtBegin(c, fs0);
      return [];
    }
    var s;
    ls, s := LoopIsReached(c, fs0);
    InputOpens(c, fs0);
    var src, fd, fs := fs0.dir[c.input], fs0.CreatedAs(c.Temp().value), fs0.Create(c.Temp().value);
    var body := |fs.Data(src)| - HEADER_LEN;
    var n := Min(CT_CHUNK, body);
    var l := Loop(HEADER_LEN, [], None, 0, []);
    ls := ActRead(c, fs0, ls, src, s, fd, l, fs, n);
    if n == CT_CHUNK {
      l := l.(offset := HEADER_LEN + n, got := fs.Data(src)[HEADER_LEN..HEADER_LEN + n]);
      ActHold(c, fs0, ls, src, s, fd, l, fs);
      l := l.(pending := Some(l.got), got := []);
      ls := ActRead(c, fs0, ls + [Advance(0)], src, s, fd, l, fs, Min(CT_CHUNK, body - n));
    }
  }

  lemma {:induction false} InputOpens(c: Config, fs: Fs)
    requires Opens(c, fs)
    ensures c.input in fs.dir && |fs.Content(c.input)| >= HEADER_LEN && c.Temp().Ok?
  {
  }

  /** What a bound on the memory for ciphertext has to allow for: the whole body up to two chunks. */
  lemma {:induction false} MemoryBound(c: Config, fs0: Fs, bound: nat)
    requires Layout([c], fs0)
    ensures (forall ls :: Held(Perform(c, ls, Begin(fs0)).run) <= bound) <==> Peak(c, fs0) <= bound
  {
    hide Perform, Peak, Held;
    var peak := PeakIsReached(c, fs0);
    forall ls
      ensures Held(Perform(c, ls, Begin(fs0)).run) <= Peak(c, fs0)
    {
      HeldAtMost(c, ls, fs0);
    }
  }

  /** "At most one ciphertext chunk" is so exactly for inputs that are refused before the loop or whose
      body is no longer than that. */
  lemma {:induction false} OneChunkIff(c: Config, fs0: Fs)
    requires Layout([c], fs0)
    ensures (forall ls :: Held(Perform(c, ls, Begin(fs0)).run) <= CT_CHUNK)
            <==> !Opens(c, fs0) || |fs0.Content(c.input)| <= HEADER_LEN + CT_CHUNK
  {
    hide Perform, Held, Opens;
    MemoryBound(c, fs0, CT_CHUNK);
  }

  /** Of the blobs that the encoders make, just those of less than one plaintext chunk. */
  lemma {:induction false} OneChunkIffSmallBlob(c: Config, fs0: Fs, a: Scheme, msg: Bytes, e: Entropy)
    requires Layout([c], fs0) && c.Temp().Ok? && c.input in fs0.dir && a.Lawful()
    requires EncodeBlob(a, msg, c.wk, c.id, e).result == Ok(fs0.Content(c.input))
    requires OpensAll(c.a, EncodeBlob(a, msg, c.wk, c.id, e).records)
    ensures (forall ls :: Held(Perform(c, ls, Begin(fs0)).run) <= CT_CHUNK) <==> |msg| < CHUNK_SIZE
  {
    hide Perform, Held, OpensAll, OpenBody, EncodeBlob, Scheme.Lawful, Layout, UnlockHeader;
    OneChunkIff(c, fs0);
    RoundTrip(a, c.a, Lookahead, msg, c.wk, c.id, e);
    EncodedLength(a, msg, c.wk, c.id, e);
  }

  // ---------- nothing is created in vain ----------

  /** A call whose id, input, header or temp path is not in order never changes the file system, not
      even for a while; any other call may. */
  lemma {:induction false} CreatesNothingIff(c: Config, fs0: Fs)
    requires Layout([c], fs0)
    ensures (forall ls :: Perform(c, ls, Begin(fs0)).fs == fs0) <==> !Opens(c, fs0)
  {
    hide Perform, Opens, Fs.Create;
    SingleLayout(c, fs0);
    if Opens(c, fs0) {
      var ls, s := LoopIsReached(c, fs0);
      InputOpens(c, fs0);
      CreationShows(fs0, c.Temp().value);
      assert Perform(c, ls, Begin(fs0)).fs != fs0;
    } else {
      forall ls
        ensures Perform(c, ls, Begin(fs0)).fs == fs0
      {
        StaysBeforeLoop(c, ls, fs0);
      }
    }
  }

  lemma {:induction false} CreationShows(fs: Fs, p: Path)
    requires fs.WellFormed() && p !in fs.dir
    ensures fs.Create(p) != fs
  {
  }

  lemma {:induction false} StaysBeforeLoop(c: Config, ls: seq<Label>, fs0: Fs)
    requires Layout([c], fs0) && !Opens(c, fs0)
    ensures var y := Perform(c, ls, Begin(fs0));
            y.fs == fs0 && (y.run.Start? || y.run.ReadingHeader? || y.run.Failed?)
  {
    hide Layout, Inv, UnlockHeader, DecodeBlob, Expected;
    if ls != [] {
      StaysBeforeLoop(c, ls[..|ls| - 1], fs0);
      PerformKeeps(c, ls, fs0);
      StaysOnCourse(c, ls, fs0);
    }
  }

  // ---------- whole buffers ----------

  /** The memory of the loop for ciphertext: its read buffer, which stays allocated and keeps a copy of
      what it read, and the pending chunk. */
  function Resident(run: Run): nat {
    if run.Streaming? then CT_CHUNK + (if run.loop.pending.Some? then CT_CHUNK else 0) else 0
  }

  /** The most that is ever resident. */
  ghost function ResidentPeak(c: Config, fs: Fs): nat {
    if !Opens(c, fs) then 0
    else if |fs.Content(c.input)| < HEADER_LEN + CT_CHUNK then CT_CHUNK
    else 2 * CT_CHUNK
  }

  lemma {:induction false} ResidentAtMost(c: Config, ls: seq<Label>, fs0: Fs)
    requires Layout([c], fs0)
    ensures Resident(Perform(c, ls, Begin(fs0)).run) <= ResidentPeak(c, fs0)
  {
    hide Perform, Inv, UnlockHeader, OpenPrefix, DecodeBlob, Expected;
    PerformKeeps(c, ls, fs0);
    StaysOnCourse(c, ls, fs0);
  }

  /** After a full chunk has been read both buffers are in use. */
  lemma {:induction false} ResidentPeakIsReached(c: Config, fs0: Fs) returns (ls: seq<Label>)
    requires Layout([c], fs0)
    ensures Resident(Perform(c, ls, Begin(fs0)).run) == ResidentPeak(c, fs0) && Fault !in ls
  {
    hide Opens, Exec;
    if !Opens(c, fs0) {
      AtBegin(c, fs0);
      return [];
    }
    var s;
    ls, s := LoopIsReached(c, fs0);
    InputOpens(c, fs0);
    var src, fd, fs := fs0.dir[c.input], fs0.CreatedAs(c.Temp().value), fs0.Create(c.Temp().value);
    if |fs.Data(src)| >= HEADER_LEN + CT_CHUNK {
      var l := Loop(HEADER_LEN, [], None, 0, []);
      ls := ActRead(c, fs0, ls, src, s, fd, l, fs, CT_CHUNK);
      l := l.(offset := HEADER_LEN + CT_CHUNK, got := fs.Data(src)[HEADER_LEN..HEADER_LEN + CT_CHUNK]);
      ActHold(c, fs0, ls, src, s, fd, l, fs);
      ls := ls + [Advance(0)];
    }
  }

  /** What a bound on the resident buffers has to allow for. */
  lemma {:induction false} ResidentBound(c: Config, fs0: Fs, bound: nat)
    requires Layout([c], fs0)
    ensures (forall ls :: Resident(Perform(c, ls, Begin(fs0)).run) <= bound) <==> ResidentPeak(c, fs0) <= bound
  {
    hide Perform, ResidentPeak, Resident;
    var peak := ResidentPeakIsReached(c, fs0);
    forall ls
      ensures Resident(Perform(c, ls, Begin(fs0)).run) <= ResidentPeak(c, fs0)
    {
      ResidentAtMost(c, ls, fs0);
    }
  }

  /** "At most one ciphertext chunk" is so of the resident buffers exactly for inputs that are refused
      before the loop or whose body is shorter than that. */
  lemma {:induction false} OneChunkResidentIff(c: Config, fs0: Fs)
    requires Layout([c], fs0)
    ensures (forall ls :: Resident(Perform(c, ls, Begin(fs0)).run) <= CT_CHUNK)
            <==> !Opens(c, fs0) || |fs0.Content(c.input)| < HEADER_LEN + CT_CHUNK
  {
    hide Perform, Resident, Opens;
    ResidentBound(c, fs0, CT_CHUNK);
  }

  // ---------- the file at the output ----------

  /** A file is at the output, and it is the complete plaintext of what was at the input at first. */
  ghost predicate Complete(c: Config, fs0: Fs, fs: Fs) {
    && c.output in fs.dir && c.input in fs0.dir
    && c.Decode(fs0.Content(c.input)) == Ok(fs.Content(c.output))
  }

  /** What is documented. */
  ghost predicate ExistsIffComplete(c: Config, fs0: Fs, fs: Fs) {
    c.output in fs.dir <==> Complete(c, fs0, fs)
  }

  /** What a finished call has made of its output. */
  lemma {:induction false} OutputOfFinished(c: Config, ls: seq<Label>, fs0: Fs)
    requires Layout([c], fs0)
    ensures var y := Perform(c, ls, Begin(fs0));
            && (y.run.Published? ==> Complete(c, fs0, y.fs))
            && (y.run.Failed? ==> (c.output in y.fs.dir <==> c.output in fs0.dir)
                                  && (Complete(c, fs0, y.fs) <==> Complete(c, fs0, fs0)))
  {
    hide Perform, Expected, Config.Decode;
    SingleLayout(c, fs0);
    FinishedRun(c, ls, fs0);
    var y := Perform(c, ls, Begin(fs0));
    if y.run.Failed? {
      assert Untouched(fs0, y.fs, c.output);
    }
  }

  /** The very first operation of a call may fail. */
  lemma {:induction false} FailsAtOnce(c: Config, fs0: Fs) returns (ls: seq<Label>)
    ensures var y := Perform(c, ls, Begin(fs0)); y.run.Failed? && y.fs == fs0
  {
    AtBegin(c, fs0);
    Act(c, fs0, [], Run.Start, fs0, Fault);
    ls := [] + [Fault];
  }

  /** A call that must fail leaves a file that was at the output, also without any I/O failure. */
  lemma {:induction false} OldOutputStays(c: Config, fs0: Fs) returns (ls: seq<Label>)
    requires Layout([c], fs0) && c.output in fs0.dir && Expected(c, fs0).Err?
    ensures var y := Perform(c, ls, Begin(fs0));
            Fault !in ls && y.run == Failed(Expected(c, fs0).error) && Untouched(fs0, y.fs, c.output)
  {
    hide Perform, Expected, Untouched;
    SingleLayout(c, fs0);
    ls := CanFinish(c, [], fs0);
    FinishedRun(c, ls, fs0);
  }

  /** "A file exists at the output iff it is complete plaintext" is so of every finished call exactly if
      there was no file at the output before, or that file is already the plaintext. */
  lemma {:induction false} ExistsIffCompleteIff(c: Config, fs0: Fs)
    requires Layout([c], fs0)
    ensures (forall ls :: var y := Perform(c, ls, Begin(fs0)); Finished(y.run) ==> ExistsIffComplete(c, fs0, y.fs))
            <==> c.output !in fs0.dir || Complete(c, fs0, fs0)
  {
    hide Perform, Config.Decode;
    forall ls | Finished(Perform(c, ls, Begin(fs0)).run) && (c.output !in fs0.dir || Complete(c, fs0, fs0))
      ensures ExistsIffComplete(c, fs0, Perform(c, ls, Begin(fs0)).fs)
    {
      OutputOfFinished(c, ls, fs0);
    }
    var fails := FailsAtOnce(c, fs0);
  }

  /** Without I/O failures it is so exactly if one of these holds or the call is expected to succeed. */
  lemma {:induction false} ExistsIffCompleteWithoutFaults(c: Config, fs0: Fs)
    requires Layout([c], fs0)
    ensures (forall ls :: var y := Perform(c, ls, Begin(fs0));
                          Fault !in ls && Finished(y.run) ==> ExistsIffComplete(c, fs0, y.fs))
            <==> c.output !in fs0.dir || Complete(c, fs0, fs0) || Expected(c, fs0).Ok?
  {
    hide Perform, Config.Decode, Expected, Layout;
    forall ls | Fault !in ls && Finished(Perform(c, ls, Begin(fs0)).run)
                && (c.output !in fs0.dir || Complete(c, fs0, fs0) || Expected(c, fs0).Ok?)
      ensures ExistsIffComplete(c, fs0, Perform(c, ls, Begin(fs0)).fs)
    {
      OutputOfFinished(c, ls, fs0);
      FinishedRun(c, ls, fs0);
    }
    if c.output in fs0.dir && Expected(c, fs0).Err? {
      var stays := OldOutputStays(c, fs0);
      OutputOfFinished(c, stays, fs0);
    }
  }

  // ---------- and who put it there ----------

  ghost predicate ExistsIffPublished(c: Config, y: Local) {
    c.output in y.fs.dir <==> y.run.Published?
  }

  /** Where no file was at the output, there is one at any time iff the call has published it. */
  lemma {:induction false} NewOutput(c: Config, ls: seq<Label>, fs0: Fs)
    requires Layout([c], fs0) && c.output !in fs0.dir
    ensures ExistsIffPublished(c, Perform(c, ls, Begin(fs0)))
  {
    hide Perform, Expected, Outcome;
    SingleLayout(c, fs0);
    StaysOnCourse(c, ls, fs0);
  }

  /** That the existence of a file tells whether the call has published, of all finished calls, holds
      exactly if there was none: this a caller can check. */
  lemma {:induction false} ExistsIffPublishedIff(c: Config, fs0: Fs)
    requires Layout([c], fs0)
    ensures (forall ls :: var y := Perform(c, ls, Begin(fs0)); Finished(y.run) ==> ExistsIffPublished(c, y))
            <==> c.output !in fs0.dir
  {
    hide Perform;
    if c.output !in fs0.dir {
      forall ls
        ensures ExistsIffPublished(c, Perform(c, ls, Begin(fs0)))
      {
        NewOutput(c, ls, fs0);
      }
    }
    var fails := FailsAtOnce(c, fs0);
  }

  /** Of those without I/O failures: if there was none or the call is expected to succeed. */
  lemma {:induction false} ExistsIffPublishedWithoutFaults(c: Config, fs0: Fs)
    requires Layout([c], fs0)
    ensures (forall ls :: var y := Perform(c, ls, Begin(fs0));
                          Fault !in ls && Finished(y.run) ==> ExistsIffPublished(c, y))
            <==> c.output !in fs0.dir || Expected(c, fs0).Ok?
  {
    hide Perform, Expected, Layout, Complete;
    forall ls | Fault !in ls && Finished(Perform(c, ls, Begin(fs0)).run)
                && (c.output !in fs0.dir || Expected(c, fs0).Ok?)
      ensures ExistsIffPublished(c, Perform(c, ls, Begin(fs0)))
    {
      OutputOfFinished(c, ls, fs0);
      FinishedRun(c, ls, fs0);
      if c.output !in fs0.dir {
        NewOutput(c, ls, fs0);
      }
    }
    if c.output in fs0.dir && Expected(c, fs0).Err? {
      var stays := OldOutputStays(c, fs0);
      OutputOfFinished(c, stays, fs0);
    }
  }
}
