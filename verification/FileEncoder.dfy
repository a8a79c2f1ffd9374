/** `encrypt_file_chunked`: the streaming encoder writes what the in-memory encoder returns. */
module FileEncoder {
  import opened ByteStrings
  import opened Gcm
  import opened Stream
  import opened Segments
  import opened Blob
  import opened Files

  /** Since `before`, only the contents of file `fd` changed, to a beginning of what was written. */
  ghost predicate OnlyWrote(before: Fs, fs: Fs, fd: nat, written: Bytes) {
    && fs.dir == before.dir && fs.next == before.next && fs.nodes.Keys == before.nodes.Keys
    && fd in fs.nodes && fs.nodes[fd].data <= written
    && forall n :: n in fs.nodes && n != fd ==> fs.nodes[n] == before.nodes[n]
  }

  lemma {:induction false} DrainOnlyWrites(before: Fs, fs: Fs, fd: nat, written: Bytes, more: Bytes, k: nat)
    requires OnlyWrote(before, fs, fd, written)
    ensures OnlyWrote(before, fs.Drain(fd, written + more, k), fd, written + more)
    ensures k == |written + more| ==> fs.Drain(fd, written + more, k).Data(fd) == written + more
  {
    assert written <= written + more;
  }

  /** The two paths do not name one file. */
  ghost predicate Apart(fs: Fs, p: Path, q: Path) {
    p != q && (p in fs.dir && q in fs.dir ==> fs.dir[p] != fs.dir[q])
  }

  /** An encryption added to the log a beginning of these sealings. */
  ghost predicate LogGrew(before: seq<Sealed>, log: seq<Sealed>, records: seq<Sealed>) {
    before <= log <= before + records
  }

  lemma {:induction false} KeptAtFirst(fs: Fs, output: Path)
    ensures OthersKept(fs, fs, output)
  {
  }

  lemma {:induction false} CreatedEmpty(fs0: Fs, p: Path)
    requires fs0.WellFormed()
    ensures OnlyWrote(fs0.Create(p), fs0.Create(p), fs0.CreatedAs(p), [])
  {
  }

  lemma {:induction false} GrownAfter(before: seq<Sealed>, first: seq<Sealed>, log: seq<Sealed>, records: seq<Sealed>)
    requires LogGrew(before + first, log, records)
    ensures LogGrew(before, log, first + records)
    ensures log == before + first + records ==> log == before + (first + records)
  {
    assert before + first + records == before + (first + records);
  }

  /** Every path but `output` and its aliases still names a file with the same contents. */
  ghost predicate OthersKept(fs0: Fs, fs: Fs, output: Path) {
    && (forall p :: p in fs0.dir && Apart(fs0, p, output) ==>
          p in fs.dir && fs.Data(fs.dir[p]) == fs0.Data(fs0.dir[p]))
    && (forall p :: p in fs.dir && p != output ==> p in fs0.dir)
  }

  /** What `File::create` and writing to the new file leave of everything else. */
  lemma {:induction false} OthersAreKept(fs0: Fs, fs: Fs, output: Path, written: Bytes)
    requires fs0.WellFormed()
    requires OnlyWrote(fs0.Create(output), fs, fs0.CreatedAs(output), written)
    ensures output in fs.dir && fs.dir[output] == fs0.CreatedAs(output)
    ensures OthersKept(fs0, fs, output) && fs.WellFormed()
  {
  }

  method EncryptFile(disk: Disk, cipher: Cipher, input: Path, output: Path, wk: Key, id: Bytes, e: Entropy)
    returns (r: Result<()>)
    requires disk.fs.WellFormed() && Apart(disk.fs, input, output)
    modifies disk, cipher
    // the result, the output file and the sealings made
    ensures var enc := EncodeBlob(cipher.aead, old(disk.fs).Content(input), wk, id, e);
            && LogGrew(old(cipher.log), cipher.log, enc.records)
            && (r.Ok? ==> input in old(disk.fs).dir && enc.result.Ok? && output in disk.fs.dir
                          && disk.fs.Content(output) == enc.result.value
                          && cipher.log == old(cipher.log) + enc.records)
            && (NoFailures(disk.schedule) && NoFailures(disk.readSchedule) && input in old(disk.fs).dir ==>
                  if enc.result.Ok? then r.Ok? else r == Err(enc.result.error))
            && (r.Err? ==> r == Err(Io) || enc.result == Err(r.error))
    // a failure leaves the output as it was, or a beginning of the blob there
    ensures r.Err? && disk.fs != old(disk.fs) ==>
              var start := StartBlob(cipher.aead, wk, id, e);
              && start.session.Ok?
              && disk.fs.Content(output)
                 <= start.header + Cts(SealBody(cipher.aead, start.session.value, 0,
                     old(disk.fs).Content(input)).records)
    // nothing else changes
    ensures OthersKept(old(disk.fs), disk.fs, output) && disk.fs.WellFormed()
    // before anything is created
    ensures var session := StartBlob(cipher.aead, wk, id, e).session;
            && (session.Err? ==> r == Err(session.error) && disk.fs == old(disk.fs))
            && (session.Ok? && input !in old(disk.fs).dir ==> r == Err(Io) && disk.fs == old(disk.fs))
  {
    KeptAtFirst(disk.fs, output);
    hide SealBody, StartBlob, OnlyWrote, OthersKept, Fs.Drain, Fs.Create;
    var session, wrapped := BeginBlob(cipher, wk, id, e);
    if session.Err? {
      return Err(session.error);
    }
    ghost var fs0, start := disk.fs, StartBlob(cipher.aead, wk, id, e);
    var fin := disk.Open(input);
    if fin.Err? {
      return Err(fin.error);
    }
    var w := disk.Create(output);
    if w.Err? {
      return Err(w.error);
    }
    var fout := w.value;
    CreatedEmpty(fs0, output);
    var header := WriteHeader([], wrapped, session.value.prefix);
    assert header == start.header;
    r := EncryptStream(disk, cipher, fin.value, fout, session.value, header, disk.fs);
    GrownAfter(old(cipher.log), start.records, cipher.log, SealBody(cipher.aead, session.value, 0,
        fin.value.data).records);
    if r.Err? {
      DrainOnlyWrites(fs0.Create(output), disk.fs, fout.fd, fout.written, [], disk.schedule(disk.clock).n);
      assert fout.written + [] == fout.written;
      fout.Drop();
    }
    OthersAreKept(fs0, disk.fs, output, fout.written);
  }

  /** Header and loop: a chunk is sealed as "next" once the read after it is done, and what a short
      read delivers is sealed as the last segment. */
  method EncryptStream(disk: Disk, cipher: Cipher, fin: Reader, fout: FileWriter, s: Session, header: Bytes,
          ghost created: Fs)
    returns (r: Result<()>)
    requires fin.Valid() && fin.pos == 0 && fout.disk == disk && fout.written == []
    requires OnlyWrote(created, disk.fs, fout.fd, [])
    modifies disk, cipher, fin`pos, fin`calls, fout
    ensures OnlyWrote(created, disk.fs, fout.fd, fout.written)
    ensures var body := SealBody(cipher.aead, s, 0, fin.data);
            && LogGrew(old(cipher.log), cipher.log, body.records)
            && fout.written <= header + Cts(body.records)
            && (r.Ok? ==> body.complete && fout.written == header + Cts(body.records)
                          && disk.fs.Data(fout.fd) == fout.written
                          && cipher.log == old(cipher.log) + body.records)
            && (NoFailures(disk.schedule) && NoFailures(fin.schedule) ==>
                  if body.complete then r.Ok? else r == Err(Aead))
            && (r.Err? ==> r == Err(Io) || (r == Err(Aead) && !body.complete))
  {
    hide SealBody, SegmentNonce, OnlyWrote, Fs.Drain;
    DrainOnlyWrites(created, disk.fs, fout.fd, [], header, disk.schedule(disk.clock).n);
    assert [] + header == header;
    var ok := fout.WriteAll(header);
    if !ok {
      return Err(Io);
    }
    var enc := new Encryptor(cipher, s.key, s.prefix);
    ghost var done;
    r, done := EncryptLoop(fin, fout, enc, s, created);
    Grown(old(cipher.log), done, SealBody(cipher.aead, s, 0, fin.data).records);
    CtsOfPrefix(done, SealBody(cipher.aead, s, 0, fin.data).records);
    if r.Err? {
      return;
    }
    DrainOnlyWrites(created, disk.fs, fout.fd, fout.written, [], |fout.written|);
    DrainOnlyWrites(created, disk.fs, fout.fd, fout.written, [], disk.schedule(disk.clock).n);
    assert fout.written + [] == fout.written;
    ok := fout.Flush();
    if !ok {
      return Err(Io);
    }
  }

  lemma {:induction false} Grown(log: seq<Sealed>, done: seq<Sealed>, records: seq<Sealed>)
    requires done <= records
    ensures LogGrew(log, log + done, records)
  {
    assert log + records == log + done + records[|done|..];
  }

  lemma {:induction false} CtsOfPrefix(done: seq<Sealed>, records: seq<Sealed>)
    requires done <= records
    ensures Cts(done) <= Cts(records)
  {
    CtsAppend(done, records[|done|..]);
    assert records == done + records[|done|..];
  }

  method EncryptLoop(fin: Reader, fout: FileWriter, enc: Encryptor, s: Session, ghost created: Fs)
    returns (r: Result<()>, ghost done: seq<Sealed>)
    requires fin.Valid() && fin.pos == 0 && enc.Valid() && enc.position == 0
    requires Session(enc.key, enc.prefix, s.aad) == s
    requires OnlyWrote(created, fout.disk.fs, fout.fd, fout.written)
    modifies fout.disk, enc, enc.cipher, fin`pos, fin`calls, fout
    ensures OnlyWrote(created, fout.disk.fs, fout.fd, fout.written)
    ensures enc.cipher.log == old(enc.cipher.log) + done && fout.written == old(fout.written) + Cts(done)
    ensures done <= SealBody(enc.cipher.aead, s, 0, fin.data).records
    ensures r.Ok? ==> SealBody(enc.cipher.aead, s, 0, fin.data) == Sealing(true, done)
    ensures NoFailures(fout.disk.schedule) && NoFailures(fin.schedule) && r.Err?
            ==> r == Err(Aead)
    ensures r.Err? ==> r == Err(Io) || (r == Err(Aead) && !SealBody(enc.cipher.aead, s, 0, fin.data).complete)
  {
    hide SealBody, SegmentNonce, OnlyWrote, Fs.Drain, Sent;
    ghost var a, m, whole := enc.cipher.aead, fin.data, SealBody(enc.cipher.aead, s, 0, fin.data);
    ghost var log, out := enc.cipher.log, fout.written;
    var buf := new Byte[CHUNK_SIZE](_ => 0);
    var pending: Option<Bytes> := None;
    ghost var sealedTo: nat := 0;
    done := [];
    SentNothing(a, s, m, log, out);
    assert m[0..] == m;
    while true
      invariant fin.Valid() && enc.Valid() && fresh(buf) && buf.Length == CHUNK_SIZE
      invariant sealedTo <= fin.pos && fin.pos == sealedTo + if pending.Some? then CHUNK_SIZE else 0
      invariant pending.Some? ==> pending.value == m[sealedTo..fin.pos]
      invariant Sent(whole, a, s, m[sealedTo..], enc.position, done, log, enc.cipher.log, out, fout.written)
      invariant OnlyWrote(created, fout.disk.fs, fout.fd, fout.written)
      decreases |m| - fin.pos
    {
      SentSoFar(whole, a, s, m[sealedTo..], enc.position, done, log, enc.cipher.log, out, fout.written);
      var n := ReadFull(fin, buf);
      if n.Err? {
        return Err(n.error), done;
      }
      var got := buf[..n.value];
      if pending.Some? {
        ghost var position := enc.position;
        NextChunk(m, sealedTo);
        SentNext(whole, a, s, m[sealedTo..], position, done, log, enc.cipher.log, out, fout.written);
        var wrote, ct := WriteNext(enc, fout, s.aad, pending.value, created);
        if ct.None? {
          return wrote, done;
        }
        done := done + [s.Record(position, false, pending.value, ct.value)];
        sealedTo := sealedTo + CHUNK_SIZE;
        SentSoFar(whole, a, s, m[sealedTo..], enc.position, done, log, enc.cipher.log, out, fout.written);
        if wrote.Err? {
          return wrote, done;
        }
        pending := None;
      }
      if n.value < CHUNK_SIZE {
        assert got == m[sealedTo..];
        SentLast(whole, a, s, got, enc.position, done, log, enc.cipher.log, out, fout.written);
        var wrote, ct := WriteLast(enc, fout, s.aad, got, created);
        if ct.Some? {
          done := done + [s.Record(enc.position, true, got, ct.value)];
        }
        return wrote, done;
      }
      pending := Some(got);
    }
  }

  /** Seals a chunk as "next" and hands its ciphertext to the writer. */
  method WriteNext(enc: Encryptor, fout: FileWriter, aad: Bytes, chunk: Bytes, ghost created: Fs)
    returns (r: Result<()>, ct: Option<Bytes>)
    requires enc.Valid() && OnlyWrote(created, fout.disk.fs, fout.fd, fout.written)
    modifies enc`position, enc.cipher, fout, fout.disk
    ensures enc.Valid() && OnlyWrote(created, fout.disk.fs, fout.fd, fout.written)
    ensures ct == Session(enc.key, enc.prefix, aad).SealAt(enc.cipher.aead, old(enc.position), false, chunk)
    ensures if ct.None? then
              r == Err(Aead) && enc.cipher.log == old(enc.cipher.log) && fout.written == old(fout.written)
            else
              && enc.position == old(enc.position) + 1
              && enc.cipher.log == old(enc.cipher.log)
                   + [Session(enc.key, enc.prefix, aad).Record(old(enc.position), false, chunk, ct.value)]
              && fout.written == old(fout.written) + ct.value
              && r == if fout.disk.schedule(old(fout.disk.clock)).Goes? then Ok(()) else Err(Io)
  {
    ct := enc.EncryptNext(chunk, aad);
    if ct.None? {
      return Err(Aead), ct;
    }
    DrainOnlyWrites(created, fout.disk.fs, fout.fd, fout.written, ct.value, fout.disk.schedule(fout.disk.clock).n);
    var ok := fout.WriteAll(ct.value);
    r := if ok then Ok(()) else Err(Io);
  }

  /** Seals the last segment and hands its ciphertext to the writer. */
  method WriteLast(enc: Encryptor, fout: FileWriter, aad: Bytes, chunk: Bytes, ghost created: Fs)
    returns (r: Result<()>, ct: Option<Bytes>)
    requires enc.Valid() && OnlyWrote(created, fout.disk.fs, fout.fd, fout.written)
    modifies enc`live, enc.cipher, fout, fout.disk
    ensures OnlyWrote(created, fout.disk.fs, fout.fd, fout.written)
    ensures ct == Session(enc.key, enc.prefix, aad).SealAt(enc.cipher.aead, old(enc.position), true, chunk)
    ensures if ct.None? then
              r == Err(Aead) && enc.cipher.log == old(enc.cipher.log) && fout.written == old(fout.written)
            else
              && enc.cipher.log == old(enc.cipher.log)
                   + [Session(enc.key, enc.prefix, aad).Record(old(enc.position), true, chunk, ct.value)]
              && fout.written == old(fout.written) + ct.value
              && r == if fout.disk.schedule(old(fout.disk.clock)).Goes? then Ok(()) else Err(Io)
  {
    ct := enc.EncryptLast(chunk, aad);
    if ct.None? {
      return Err(Aead), ct;
    }
    DrainOnlyWrites(created, fout.disk.fs, fout.fd, fout.written, ct.value, fout.disk.schedule(fout.disk.clock).n);
    var ok := fout.WriteAll(ct.value);
    r := if ok then Ok(()) else Err(Io);
  }
}
