/** `decrypt_file_chunked` itself. Each of its I/O operations is an action of the process of module
    `Publish`; the methods return the actions taken as ghost labels. */
module FileDecoder {
  import opened ByteStrings
  import opened Context
  import opened Gcm
  import opened Stream
  import opened Blob
  import opened Files
  import opened Publish
  import opened Outcomes
  import opened Concurrency
  import opened SingleRun

  /** Removal of the temp file on any exit before it is renamed. */
  class TempCleanup {
    const path: Path
    var armed: bool

    constructor (path: Path)
      ensures armed && this.path == path
    {
      this.path := path;
      armed := true;
    }

    method Drop(disk: Disk)
      modifies disk
      ensures disk.clock == old(disk.clock) + if armed then 1 else 0
      ensures !armed ==> disk.fs == old(disk.fs)
      ensures armed
              ==> disk.fs == if disk.schedule(old(disk.clock)).Goes? then old(disk.fs).Remove(path) else old(disk.fs)
    {
      if armed {
        var _ := disk.Remove(path);
      }
    }
  }

  // ---------- the actions, one by one ----------

  /** After `ls` the call stands at `run` and has made the file system `fs`. */
  ghost predicate At(c: Config, fs0: Fs, ls: seq<Label>, run: Run, fs: Fs) {
    Perform(c, ls, Begin(fs0)) == Local(run, fs)
  }

  lemma {:induction false} AtBegin(c: Config, fs: Fs)
    ensures At(c, fs, [], Run.Start, fs)
  {
  }

  lemma {:induction false} Act(c: Config, fs0: Fs, ls: seq<Label>, run: Run, fs: Fs, l: Label)
    requires At(c, fs0, ls, run, fs)
    ensures var y := Exec(c, l, Local(run, fs)); At(c, fs0, ls + [l], y.run, y.fs)
  {
    PerformMore(c, ls, l, Begin(fs0));
  }

  /** A whole `read_full` into the empty buffer. */
  lemma {:induction false} ActRead(c: Config, fs0: Fs, ls: seq<Label>, src: nat, s: Session, fd: nat, l: Loop,
          fs: Fs, n: nat)
    returns (ls': seq<Label>)
    requires l.got == [] && l.offset <= |fs.Data(src)| && n == Min(CT_CHUNK, |fs.Data(src)| - l.offset)
    requires At(c, fs0, ls, Streaming(src, s, fd, l), fs)
    ensures At(c, fs0, ls', Streaming(src, s, fd, l.(offset := l.offset + n,
        got := fs.Data(src)[l.offset..l.offset + n])), fs)
    ensures Fault in ls' ==> Fault in ls
  {
    var read := fs.Data(src)[l.offset..l.offset + n];
    if n == 0 {
      ls' := ls;
      assert read == [];
    } else {
      Act(c, fs0, ls, Streaming(src, s, fd, l), fs, Advance(n));
      ls' := ls + [Advance(n)];
      assert [] + read == read;
    }
  }

  /** The same for the header; the input may end early. */
  lemma {:induction false} ActReadHeader(c: Config, fs0: Fs, ls: seq<Label>, src: nat, fs: Fs, n: nat)
    returns (ls': seq<Label>)
    requires n == Min(HEADER_LEN, |fs.Data(src)|)
    requires At(c, fs0, ls, ReadingHeader(src, []), fs)
    ensures At(c, fs0, ls', ReadingHeader(src, fs.Data(src)[..n]), fs)
    ensures Fault in ls' ==> Fault in ls
  {
    var read := fs.Data(src)[0..n];
    assert read == fs.Data(src)[..n];
    if n == 0 {
      ls' := ls;
      assert read == [];
    } else {
      Act(c, fs0, ls, ReadingHeader(src, []), fs, Advance(n));
      ls' := ls + [Advance(n)];
      assert [] + read == read;
    }
  }

  /** Opening the pending chunk once the buffer is full or the input at its end. */
  lemma {:induction false} ActNext(c: Config, fs0: Fs, ls: seq<Label>, src: nat, s: Session, fd: nat, l: Loop, fs: Fs)
    requires |l.got| == CT_CHUNK || l.offset == |fs.Data(src)|
    requires l.pending.Some? && At(c, fs0, ls, Streaming(src, s, fd, l), fs)
    ensures var m := s.OpenAt(c.a, l.position, false, l.pending.value);
            At(c, fs0, ls + [Advance(0)],
               if m.None? then Cleaning(Aead, Some(fd), l.written)
               else Streaming(src, s, fd, l.(pending := None, position := l.position + 1,
                   written := l.written + m.value)), fs)
  {
    Act(c, fs0, ls, Streaming(src, s, fd, l), fs, Advance(0));
  }

  lemma {:induction false} ActLast(c: Config, fs0: Fs, ls: seq<Label>, src: nat, s: Session, fd: nat, l: Loop, fs: Fs)
    requires |l.got| < CT_CHUNK && l.offset == |fs.Data(src)|
    requires l.pending.None? && At(c, fs0, ls, Streaming(src, s, fd, l), fs)
    ensures var m := s.OpenAt(c.a, l.position, true, l.got);
            At(c, fs0, ls + [Advance(0)],
               if m.None? then Cleaning(Aead, Some(fd), l.written) else Flushing(src, fd, l.written + m.value), fs)
  {
    Act(c, fs0, ls, Streaming(src, s, fd, l), fs, Advance(0));
  }

  lemma {:induction false} ActHold(c: Config, fs0: Fs, ls: seq<Label>, src: nat, s: Session, fd: nat, l: Loop, fs: Fs)
    requires |l.got| == CT_CHUNK && l.pending.None? && At(c, fs0, ls, Streaming(src, s, fd, l), fs)
    ensures At(c, fs0, ls + [Advance(0)], Streaming(src, s, fd, l.(pending := Some(l.got), got := [])), fs)
  {
    Act(c, fs0, ls, Streaming(src, s, fd, l), fs, Advance(0));
  }

  /** Buffered output reaches the file; the operation that caused it may fail. */
  lemma {:induction false} ActWrite(c: Config, fs0: Fs, ls: seq<Label>, run: Run, fs: Fs, choice: Choice)
    returns (ls': seq<Label>)
    requires run.Streaming? || run.Flushing?
    requires At(c, fs0, ls, run, fs)
    ensures At(c, fs0, ls', if choice.Goes? then run else Cleaning(Io, run.File(), run.Written()),
               fs.Drain(run.File().value, run.Written(), choice.n))
    ensures choice.Goes? ==> Fault in ls' ==> Fault in ls
  {
    var k := choice.n;
    Act(c, fs0, ls, run, fs, Drain(k));
    ls' := ls + [Drain(k)];
    if choice.Fails? {
      Act(c, fs0, ls', run, fs.Drain(run.File().value, run.Written(), k), Fault);
      ls' := ls' + [Fault];
    }
  }

  // ---------- the method, part by part ----------

  /** Up to the choice of the temp path: nothing is created yet. */
  method OpenInput(disk: Disk, cipher: Cipher, input: Path, output: Path, wk: Key, id: Bytes, suffix: Option<Suffix>,
          ghost c: Config)
    returns (r: Result<(Reader, Session, Path)>, ghost ls: seq<Label>)
    requires c == Config(cipher.Ideal(), wk, id, input, output, suffix)
    modifies disk`clock
    ensures r.Err? ==> At(c, disk.fs, ls, Failed(r.error), disk.fs)
    ensures r.Ok? ==>
              var (fin, s, tmp) := r.value;
              && fresh(fin) && fin.Valid() && fin.pos == HEADER_LEN && input in disk.fs.dir
              && fin.data == disk.fs.Data(disk.fs.dir[input]) && fin.schedule == disk.readSchedule
              && c.Temp() == Ok(tmp)
              && At(c, disk.fs, ls, Armed(disk.fs.dir[input], s), disk.fs)
    ensures NoFailures(disk.schedule) && NoFailures(disk.readSchedule) ==> Fault !in ls
  {
    hide UnlockHeader, At;
    ghost var fs := disk.fs;
    ls := [];
    AtBegin(c, fs);
    Act(c, fs, ls, Run.Start, fs, Advance(0));
    Act(c, fs, ls, Run.Start, fs, Fault);
    var segAad := BuildSegmentAad(id);
    if segAad.Err? {
      return Err(segAad.error), ls + [Advance(0)];
    }
    var file := disk.Open(input);
    if file.Err? {
      return Err(file.error), ls + [if input in fs.dir then Fault else Advance(0)];
    }
    var fin, src := file.value, fs.dir[input];
    ls := ls + [Advance(0)];
    var header := new Byte[HEADER_LEN](_ => 0);
    Act(c, fs, ls, ReadingHeader(src, []), fs, Fault);
    var n := ReadFull(fin, header);
    if n.Err? {
      return Err(n.error), ls + [Fault];
    }
    var h := header[..n.value];
    ls := ActReadHeader(c, fs, ls, src, fs, n.value);
    Act(c, fs, ls, ReadingHeader(src, h), fs, Advance(0));
    ls := ls + [Advance(0)];
    if n.value < HEADER_LEN {
      // `read_exact` reports the early end of the input
      return Err(Io), ls;
    }
    var session := ReadHeader(cipher, h, wk, id);
    if session.Err? {
      return Err(session.error), ls;
    }
    var tmp := SiblingTemp(output, suffix);
    if tmp.Err? {
      return Err(tmp.error), ls;
    }
    return Ok((fin, session.value, tmp.value)), ls;
  }

  /** Opens the pending chunk as "next" and hands its plaintext to the writer. */
  method WritePending(dec: Decryptor, fout: FileWriter, aad: Bytes, chunk: Bytes,
          ghost c: Config, ghost fs0: Fs, ghost ls0: seq<Label>, ghost src: nat, ghost l: Loop)
    returns (r: Result<()>, ghost ls: seq<Label>)
    requires dec.Valid() && c.a == dec.cipher.Ideal() && src != fout.fd
    requires l.pending == Some(chunk) && l.position == dec.position && l.written == fout.written
    requires |l.got| == CT_CHUNK || l.offset == |fout.disk.fs.Data(src)|
    requires At(c, fs0, ls0, Streaming(src, Session(dec.key, dec.prefix, aad), fout.fd, l), fout.disk.fs)
    modifies dec`position, fout, fout.disk
    ensures dec.Valid() && fout.disk.fs.Data(src) == old(fout.disk.fs.Data(src))
    ensures r.Ok? ==>
              At(c, fs0, ls, Streaming(src, Session(dec.key, dec.prefix, aad), fout.fd,
                 l.(pending := None, position := dec.position, written := fout.written)), fout.disk.fs)
    ensures r.Err? ==> At(c, fs0, ls, Cleaning(r.error, Some(fout.fd), fout.written), fout.disk.fs)
    ensures NoFailures(fout.disk.schedule) && Fault !in ls0 ==> Fault !in ls
  {
    hide At, SegmentNonce, Scheme.Guarded, Scheme.OpenLogged;
    ghost var s := Session(dec.key, dec.prefix, aad);
    ActNext(c, fs0, ls0, src, s, fout.fd, l, fout.disk.fs);
    ls := ls0 + [Advance(0)];
    var msg := dec.DecryptNext(chunk, aad);
    if msg.None? {
      return Err(Aead), ls;
    }
    ghost var run := Streaming(src, s, fout.fd, l.(pending := None, position := dec.position,
        written := l.written + msg.value));
    ls := ActWrite(c, fs0, ls, run, fout.disk.fs, fout.disk.schedule(fout.disk.clock));
    var ok := fout.WriteAll(msg.value);
    return if ok then Ok(()) else Err(Io), ls;
  }

  /** Opens what a short read delivered as the last segment and hands its plaintext to the writer. */
  method WriteFinal(dec: Decryptor, fout: FileWriter, aad: Bytes, chunk: Bytes,
          ghost c: Config, ghost fs0: Fs, ghost ls0: seq<Label>, ghost src: nat, ghost l: Loop)
    returns (r: Result<()>, ghost ls: seq<Label>)
    requires dec.Valid() && c.a == dec.cipher.Ideal()
    requires l.pending.None? && l.got == chunk && l.position == dec.position && l.written == fout.written
    requires |l.got| < CT_CHUNK && l.offset == |fout.disk.fs.Data(src)|
    requires At(c, fs0, ls0, Streaming(src, Session(dec.key, dec.prefix, aad), fout.fd, l), fout.disk.fs)
    modifies dec`live, fout, fout.disk
    ensures r.Ok? ==> At(c, fs0, ls, Flushing(src, fout.fd, fout.written), fout.disk.fs)
    ensures r.Err? ==> At(c, fs0, ls, Cleaning(r.error, Some(fout.fd), fout.written), fout.disk.fs)
    ensures NoFailures(fout.disk.schedule) && Fault !in ls0 ==> Fault !in ls
  {
    hide At, SegmentNonce, Scheme.Guarded, Scheme.OpenLogged;
    ActLast(c, fs0, ls0, src, Session(dec.key, dec.prefix, aad), fout.fd, l, fout.disk.fs);
    ls := ls0 + [Advance(0)];
    var msg := dec.DecryptLast(chunk, aad);
    if msg.None? {
      return Err(Aead), ls;
    }
    ghost var run := Flushing(src, fout.fd, fout.written + msg.value);
    ls := ActWrite(c, fs0, ls, run, fout.disk.fs, fout.disk.schedule(fout.disk.clock));
    var ok := fout.WriteAll(msg.value);
    return if ok then Ok(()) else Err(Io), ls;
  }

  /** The lookahead loop: a chunk is opened as "next" once the read after it is done, and what a short
      read delivers is opened as the last segment. */
  method StreamToTemp(disk: Disk, cipher: Cipher, fin: Reader, fout: FileWriter, s: Session,
          ghost c: Config, ghost fs0: Fs, ghost ls0: seq<Label>, ghost src: nat)
    returns (r: Result<()>, ghost ls: seq<Label>)
    requires c.a == cipher.Ideal() && fout.disk == disk
    requires fin.Valid() && fin.pos == HEADER_LEN && fin.data == disk.fs.Data(src)
    requires fout.written == [] && src != fout.fd
    requires At(c, fs0, ls0, Streaming(src, s, fout.fd, Loop(HEADER_LEN, [], None, 0, [])), disk.fs)
    modifies disk, fin`pos, fin`calls, fout
    ensures r.Ok? ==> At(c, fs0, ls, Flushing(src, fout.fd, fout.written), disk.fs)
    ensures r.Err? ==> At(c, fs0, ls, Cleaning(r.error, Some(fout.fd), fout.written), disk.fs)
    ensures NoFailures(disk.schedule) && NoFailures(fin.schedule) && Fault !in ls0 ==> Fault !in ls
  {
    hide At, Cipher.Ideal, Fs.Data;
    var dec := new Decryptor(cipher, s.key, s.prefix);
    var buf := new Byte[CT_CHUNK](_ => 0);
    var pending: Option<Bytes> := None;
    ls := ls0;
    while true
      invariant fin.Valid() && fin.data == disk.fs.Data(src) && fresh(buf) && buf.Length == CT_CHUNK
      invariant dec.Valid() && fresh(dec) && dec.cipher == cipher && Session(dec.key, dec.prefix, s.aad) == s
      invariant At(c, fs0, ls, Streaming(src, s, fout.fd, Loop(fin.pos, [], pending, dec.position, fout.written)),
          disk.fs)
      invariant NoFailures(disk.schedule) && NoFailures(fin.schedule) && Fault !in ls0 ==> Fault !in ls
      decreases |fin.data| - fin.pos
    {
      ghost var l := Loop(fin.pos, [], pending, dec.position, fout.written);
      Act(c, fs0, ls, Streaming(src, s, fout.fd, l), disk.fs, Fault);
      var n := ReadFull(fin, buf);
      if n.Err? {
        return Err(n.error), ls + [Fault];
      }
      var got := buf[..n.value];
      ls := ActRead(c, fs0, ls, src, s, fout.fd, l, disk.fs, n.value);
      if pending.Some? {
        l := l.(offset := fin.pos, got := got);
        r, ls := WritePending(dec, fout, s.aad, pending.value, c, fs0, ls, src, l);
        if r.Err? {
          return;
        }
        pending := None;
      }
      l := Loop(fin.pos, got, None, dec.position, fout.written);
      if n.value < CT_CHUNK {
        r, ls := WriteFinal(dec, fout, s.aad, got, c, fs0, ls, src, l);
        return;
      }
      ActHold(c, fs0, ls, src, s, fout.fd, l, disk.fs);
      ls := ls + [Advance(0)];
      pending := Some(got);
    }
  }

  /** Flush, fsync, close, rename. */
  method PublishTemp(disk: Disk, fout: FileWriter, tmp: Path, output: Path,
          ghost c: Config, ghost fs0: Fs, ghost ls0: seq<Label>, ghost src: nat)
    returns (r: Result<()>, ghost ls: seq<Label>)
    requires Layout([c], fs0) && c.Temp() == Ok(tmp) && c.output == output && fout.disk == disk
    requires At(c, fs0, ls0, Flushing(src, fout.fd, fout.written), disk.fs)
    modifies disk
    ensures r.Ok? ==> At(c, fs0, ls, Published(src, fout.fd, fout.written), disk.fs)
    ensures r.Err? ==> At(c, fs0, ls, Cleaning(r.error, Some(fout.fd), fout.written), disk.fs)
    ensures NoFailures(disk.schedule) && Fault !in ls0 ==> Fault !in ls
  {
    hide At;
    ghost var fd, msg := fout.fd, fout.written;
    ls := ls0;
    ghost var run, fs, choice := Flushing(src, fd, msg), disk.fs, disk.schedule(disk.clock);
    Act(c, fs0, ls, run, fs, Advance(0));
    if choice.Fails? {
      ls := ActWrite(c, fs0, ls, run, fs, choice);
    } else {
      ls := ls + [Advance(0)];
    }
    var ok := fout.Flush();
    if !ok {
      return Err(Io), ls;
    }
    Act(c, fs0, ls, Syncing(src, fd, msg), disk.fs, Advance(0));
    Act(c, fs0, ls, Syncing(src, fd, msg), disk.fs, Fault);
    ok := fout.SyncAll();
    if !ok {
      return Err(Io), ls + [Fault];
    }
    ls := ls + [Advance(0)];
    NothingBuffered(c, fs0, ls, Renaming(src, fd, msg), disk.fs, disk.schedule(disk.clock).n);
    fout.Drop();
    Act(c, fs0, ls, Renaming(src, fd, msg), disk.fs, Advance(0));
    Act(c, fs0, ls, Renaming(src, fd, msg), disk.fs, Fault);
    ok := disk.Rename(tmp, output);
    if !ok {
      return Err(Io), ls + [Fault];
    }
    return Ok(()), ls + [Advance(0)];
  }

  /** After flush and fsync the writer has nothing left to write. */
  lemma {:induction false} NothingBuffered(c: Config, fs0: Fs, ls: seq<Label>, run: Run, fs: Fs, k: nat)
    requires Layout([c], fs0) && run.Renaming? && At(c, fs0, ls, run, fs)
    ensures fs.Drain(run.fd, run.msg, k) == fs
  {
    hide Perform, Inv, Exec;
    PerformKeeps(c, ls, fs0);
  }

  /** The whole call. It takes the actions `ls` of the process; what it has done when it returns, and
      what it returns when no I/O operation fails, follows from these. */
  method DecryptFile(disk: Disk, cipher: Cipher, input: Path, output: Path, wk: Key, id: Bytes, suffix: Option<Suffix>)
    returns (r: Result<()>, ghost ls: seq<Label>)
    requires Layout([Config(cipher.Ideal(), wk, id, input, output, suffix)], disk.fs)
    modifies disk
    // its actions
    ensures var y := Perform(Config(cipher.Ideal(), wk, id, input, output, suffix), ls, Begin(old(disk.fs)));
            y.fs == disk.fs && (if r.Ok? then y.run.Published? else y.run == Failed(r.error))
    ensures NoFailures(disk.schedule) && NoFailures(disk.readSchedule) ==> Fault !in ls
    // what they amount to
    ensures var c, fs0 := Config(cipher.Ideal(), wk, id, input, output, suffix), old(disk.fs);
            && (r.Ok? ==> Expected(c, fs0).Ok? && Succeeded(c, fs0, disk.fs))
            && (r.Err? ==> LeftAlone(c, fs0, disk.fs))
            && (r.Err? ==> r == Err(Io) || Expected(c, fs0) == Err(r.error))
            && (HasTemp(c, disk.fs) ==> r.Err? && RemovalWasLast(disk))
            && (NoFailures(disk.schedule) && NoFailures(disk.readSchedule) ==>
                  if Expected(c, fs0).Ok? then r.Ok?
                  else r == Err(Expected(c, fs0).error) && disk.fs.dir == fs0.dir)
  {
    hide Exec, Layout, Expected, LeftAlone, Fs.Remove;
    ghost var c, fs0 := Config(cipher.Ideal(), wk, id, input, output, suffix), disk.fs;
    r, ls := RunCall(disk, cipher, input, output, wk, id, suffix, c);
    FinishedRun(c, ls, fs0);
  }

  /** The last operation on the disk, the removal by `TempCleanup` if there was one, failed. */
  ghost predicate RemovalWasLast(disk: Disk)
    reads disk
  {
    disk.clock > 0 && disk.schedule(disk.clock - 1).Fails?
  }

  method RunCall(disk: Disk, cipher: Cipher, input: Path, output: Path, wk: Key, id: Bytes, suffix: Option<Suffix>,
          ghost c: Config)
    returns (r: Result<()>, ghost ls: seq<Label>)
    requires c == Config(cipher.Ideal(), wk, id, input, output, suffix) && Layout([c], disk.fs)
    modifies disk
    ensures r.Err? ==> At(c, old(disk.fs), ls, Failed(r.error), disk.fs)
    ensures r.Ok? ==> At(c, old(disk.fs), ls, Perform(c, ls, Begin(old(disk.fs))).run, disk.fs)
                      && Perform(c, ls, Begin(old(disk.fs))).run.Published?
    ensures r.Err? && HasTemp(c, disk.fs) ==> RemovalWasLast(disk)
    ensures NoFailures(disk.schedule) && NoFailures(disk.readSchedule) ==> Fault !in ls
  {
    ghost var fs0 := disk.fs;
    assert [c][0] == c;
    var begun;
    begun, ls := OpenInput(disk, cipher, input, output, wk, id, suffix, c);
    if begun.Err? {
      return Err(begun.error), ls;
    }
    var (fin, s, tmp) := begun.value;
    var cleanup := new TempCleanup(tmp);
    r, ls := FillAndPublish(disk, cipher, fin, s, tmp, output, c, fs0, ls, fs0.dir[input], cleanup);
    if r.Err? {
      ghost var y := Perform(c, ls, Begin(fs0));
      Act(c, fs0, ls, y.run, y.fs, Advance(0));
      Act(c, fs0, ls, y.run, y.fs, Fault);
      ls := ls + [if disk.schedule(disk.clock).Goes? then Advance(0) else Fault];
    }
    cleanup.Drop(disk);
  }

  /** From the creation of the temp file to its renaming; on failure the writer goes out of scope. */
  method FillAndPublish(disk: Disk, cipher: Cipher, fin: Reader, s: Session, tmp: Path, output: Path,
          ghost c: Config, ghost fs0: Fs, ghost ls0: seq<Label>, ghost src: nat, cleanup: TempCleanup)
    returns (r: Result<()>, ghost ls: seq<Label>)
    requires c.a == cipher.Ideal() && c.Temp() == Ok(tmp) && c.output == output && Layout([c], fs0)
    requires disk.fs.WellFormed() && src in disk.fs.nodes && tmp !in disk.fs.dir
    requires fin.Valid() && fin.pos == HEADER_LEN && fin.data == disk.fs.Data(src)
    requires cleanup.armed
    requires At(c, fs0, ls0, Armed(src, s), disk.fs)
    modifies disk, fin`pos, fin`calls, cleanup
    ensures cleanup.armed == r.Err?
    ensures var y := Perform(c, ls, Begin(fs0));
            && y.fs == disk.fs
            && (if r.Ok? then y.run.Published? else y.run.Cleaning? && y.run.error == r.error)
    ensures NoFailures(disk.schedule) && NoFailures(fin.schedule) && Fault !in ls0 ==> Fault !in ls
  {
    Act(c, fs0, ls0, Armed(src, s), disk.fs, Advance(0));
    Act(c, fs0, ls0, Armed(src, s), disk.fs, Fault);
    var w := disk.Create(tmp);
    if w.Err? {
      return Err(w.error), ls0 + [Fault];
    }
    var fout := w.value;
    r, ls := StreamToTemp(disk, cipher, fin, fout, s, c, fs0, ls0 + [Advance(0)], src);
    if r.Ok? {
      r, ls := PublishTemp(disk, fout, tmp, output, c, fs0, ls, src);
      if r.Ok? {
        cleanup.armed := false;
        return;
      }
    }
    ghost var k := disk.schedule(disk.clock).n;
    Act(c, fs0, ls, Cleaning(r.error, Some(fout.fd), fout.written), disk.fs, Drain(k));
    ls := ls + [Drain(k)];
    fout.Drop();
  }
}
