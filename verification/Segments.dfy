/** The body of a blob: what the encoder seals, and what each of the two decoders makes of a
    byte string. */
module Segments {
  import opened ByteStrings
  import opened Gcm
  import opened Stream

  // ---------- sealing ----------

  /** The sealings made, in order, and whether the last segment was reached. */
  datatype Sealing = Sealing(complete: bool, records: seq<Sealed>) {
    function After(done: seq<Sealed>): Sealing {
      Sealing(complete, done + records)
    }
  }

  function SealBody(a: Scheme, s: Session, position: nat, msg: Bytes): Sealing
    requires position <= COUNTER_MAX
    decreases |msg|
  {
    if |msg| < CHUNK_SIZE then
      match s.SealAt(a, position, true, msg)
      case None => Sealing(false, [])
      case Some(ct) => Sealing(true, [s.Record(position, true, msg, ct)])
    else
      var chunk := msg[..CHUNK_SIZE];
      match s.SealAt(a, position, false, chunk)
      case None => Sealing(false, [])
      case Some(ct) =>
        var rest := SealBody(a, s, position + 1, msg[CHUNK_SIZE..]);
        Sealing(rest.complete, [s.Record(position, false, chunk, ct)] + rest.records)
  }

  function Cts(records: seq<Sealed>): Bytes {
    if records == [] then [] else records[0].ct + Cts(records[1..])
  }

  function Msgs(records: seq<Sealed>): Bytes {
    if records == [] then [] else records[0].msg + Msgs(records[1..])
  }

  lemma {:induction false} CtsAppend(rs: seq<Sealed>, ts: seq<Sealed>)
    ensures Cts(rs + ts) == Cts(rs) + Cts(ts)
  {
    if rs == [] {
      assert rs + ts == ts;
    } else {
      assert (rs + ts)[1..] == rs[1..] + ts;
      CtsAppend(rs[1..], ts);
    }
  }

  // ---------- the state of an encoder's loop ----------

  /** With `rest` still to be sealed from `position` on, the sealings `done` were made: they are in
      the log, their ciphertexts are in the output, and the rest completes the whole. */
  ghost predicate Sent(whole: Sealing, a: Scheme, s: Session, rest: Bytes, position: nat, done: seq<Sealed>,
          log0: seq<Sealed>, log: seq<Sealed>, out0: Bytes, out: Bytes)
  {
    && position <= COUNTER_MAX
    && whole == SealBody(a, s, position, rest).After(done)
    && log == log0 + done && out == out0 + Cts(done)
  }

  lemma {:induction false} SentNothing(a: Scheme, s: Session, msg: Bytes, log: seq<Sealed>, out: Bytes)
    ensures Sent(SealBody(a, s, 0, msg), a, s, msg, 0, [], log, log, out, out)
  {
  }

  lemma {:induction false} SentSoFar(whole: Sealing, a: Scheme, s: Session, rest: Bytes, position: nat,
          done: seq<Sealed>, log0: seq<Sealed>, log: seq<Sealed>, out0: Bytes, out: Bytes)
    requires Sent(whole, a, s, rest, position, done, log0, log, out0, out)
    ensures done <= whole.records && log == log0 + done && out == out0 + Cts(done)
  {
  }

  lemma {:induction false} SentNext(whole: Sealing, a: Scheme, s: Session, rest: Bytes, position: nat,
          done: seq<Sealed>, log0: seq<Sealed>, log: seq<Sealed>, out0: Bytes, out: Bytes)
    requires Sent(whole, a, s, rest, position, done, log0, log, out0, out) && |rest| >= CHUNK_SIZE
    ensures var ct := s.SealAt(a, position, false, rest[..CHUNK_SIZE]);
            if ct.None? then whole == Sealing(false, done)
            else
              var r := s.Record(position, false, rest[..CHUNK_SIZE], ct.value);
              && position < COUNTER_MAX
              && Sent(whole, a, s, rest[CHUNK_SIZE..], position + 1, done + [r], log0, log + [r], out0, out + ct.value)
  {
    var ct := s.SealAt(a, position, false, rest[..CHUNK_SIZE]);
    if ct.Some? {
      var r := s.Record(position, false, rest[..CHUNK_SIZE], ct.value);
      CtsSnoc(done, r);
      var tail := SealBody(a, s, position + 1, rest[CHUNK_SIZE..]);
      assert done + ([r] + tail.records) == done + [r] + tail.records;
    }
  }

  lemma {:induction false} SentLast(whole: Sealing, a: Scheme, s: Session, rest: Bytes, position: nat,
          done: seq<Sealed>, log0: seq<Sealed>, log: seq<Sealed>, out0: Bytes, out: Bytes)
    requires Sent(whole, a, s, rest, position, done, log0, log, out0, out) && |rest| < CHUNK_SIZE
    ensures var ct := s.SealAt(a, position, true, rest);
            if ct.None? then whole == Sealing(false, done)
            else
              var r := s.Record(position, true, rest, ct.value);
              && whole == Sealing(true, done + [r])
              && log + [r] == log0 + (done + [r]) && out + ct.value == out0 + Cts(done + [r])
  {
    var ct := s.SealAt(a, position, true, rest);
    if ct.Some? {
      CtsSnoc(done, s.Record(position, true, rest, ct.value));
    }
  }

  lemma {:induction false} CtsSnoc(done: seq<Sealed>, r: Sealed)
    ensures Cts(done + [r]) == Cts(done) + r.ct
  {
    CtsAppend(done, [r]);
    assert Cts([r]) == r.ct + Cts([]) == r.ct;
  }

  // ---------- opening ----------

  /** How a decoder recognizes the last segment: the slice decoder sees that nothing follows,
      the file decoder that fewer bytes than a full chunk were left. */
  datatype Mode = Slices | Lookahead {
    predicate Final(body: Bytes) {
      match this
      case Slices => |body| <= CT_CHUNK
      case Lookahead => |body| < CT_CHUNK
    }
  }

  function OpenBody(a: Scheme, mode: Mode, s: Session, position: nat, body: Bytes): Option<Bytes>
    requires position <= COUNTER_MAX
    decreases |body|
  {
    if mode.Final(body) then
      s.OpenAt(a, position, true, body)
    else
      match s.OpenAt(a, position, false, body[..CT_CHUNK])
      case None => None
      case Some(msg) =>
        match OpenBody(a, mode, s, position + 1, body[CT_CHUNK..])
        case None => None
        case Some(rest) => Some(msg + rest)
  }

  // ---------- the shape of a sealed body ----------

  /** Number of segments of a message: its full chunks and one last segment, which is empty when
      the message ends on a chunk boundary. */
  function SegmentCount(n: nat): nat {
    n / CHUNK_SIZE + 1
  }

  /** Segment `i` of a message, cut out by index. */
  function SegmentOf(msg: Bytes, i: nat): Bytes
    requires i < SegmentCount(|msg|)
  {
    if i < |msg| / CHUNK_SIZE then msg[i * CHUNK_SIZE..(i + 1) * CHUNK_SIZE] else msg[i * CHUNK_SIZE..]
  }

  lemma {:induction false} SegmentOfTail(msg: Bytes, i: nat)
    requires |msg| >= CHUNK_SIZE && 0 < i < SegmentCount(|msg|)
    ensures i - 1 < SegmentCount(|msg[CHUNK_SIZE..]|)
    ensures i == |msg| / CHUNK_SIZE <==> i - 1 == |msg[CHUNK_SIZE..]| / CHUNK_SIZE
    ensures SegmentOf(msg[CHUNK_SIZE..], i - 1) == SegmentOf(msg, i)
  {
    var tail := msg[CHUNK_SIZE..];
    assert |tail| / CHUNK_SIZE == |msg| / CHUNK_SIZE - 1;
    assert (i - 1) * CHUNK_SIZE + CHUNK_SIZE == i * CHUNK_SIZE;
  }

  lemma {:induction false} SealBodyCapacity(a: Scheme, s: Session, position: nat, msg: Bytes)
    requires a.Lawful() && position <= COUNTER_MAX
    ensures SealBody(a, s, position, msg).complete <==> position + |msg| / CHUNK_SIZE <= COUNTER_MAX
    decreases |msg|
  {
    if |msg| >= CHUNK_SIZE && position < COUNTER_MAX {
      SealBodyCapacity(a, s, position + 1, msg[CHUNK_SIZE..]);
    }
  }

  /** One step of the encoder's loop over full chunks. */
  lemma {:induction false} SealBodyStep(a: Scheme, s: Session, position: nat, msg: Bytes)
    requires position <= COUNTER_MAX && |msg| >= CHUNK_SIZE
    requires SealBody(a, s, position, msg).records != []
    ensures position < COUNTER_MAX
    ensures var sealing, rest := SealBody(a, s, position, msg), SealBody(a, s, position + 1, msg[CHUNK_SIZE..]);
            && sealing.complete == rest.complete
            && sealing.records == [sealing.records[0]] + rest.records
            && sealing.records[0] == s.Record(position, false, msg[..CHUNK_SIZE], sealing.records[0].ct)
            && sealing.records[0].From(a)
  {
  }

  lemma {:induction false} SealBodyCount(a: Scheme, s: Session, position: nat, msg: Bytes)
    requires position <= COUNTER_MAX
    ensures |SealBody(a, s, position, msg).records| <= SegmentCount(|msg|)
    ensures SealBody(a, s, position, msg).complete
            <==> |SealBody(a, s, position, msg).records| == SegmentCount(|msg|)
    decreases |msg|
  {
    if |msg| >= CHUNK_SIZE && SealBody(a, s, position, msg).records != [] {
      SealBodyStep(a, s, position, msg);
      SealBodyCount(a, s, position + 1, msg[CHUNK_SIZE..]);
    }
  }

  /** Every sealing made is that of the segment at its index, under the nonce of its index; the
      last flag is set on the terminal segment of a complete body and nowhere else. */
  lemma {:induction false} SealBodyAt(a: Scheme, s: Session, position: nat, msg: Bytes, i: nat)
    requires position <= COUNTER_MAX
    requires i < |SealBody(a, s, position, msg).records|
    ensures i < SegmentCount(|msg|) && position + i <= COUNTER_MAX
    ensures var r := SealBody(a, s, position, msg).records[i];
            r.From(a) && r == s.Record(position + i, i == |msg| / CHUNK_SIZE, SegmentOf(msg, i), r.ct)
    decreases |msg|
  {
    hide SegmentNonce;
    if |msg| >= CHUNK_SIZE {
      hide SealBody;
      SealBodyStep(a, s, position, msg);
      if i > 0 {
        hide SegmentOf;
        SealBodyAt(a, s, position + 1, msg[CHUNK_SIZE..], i - 1);
        SegmentOfTail(msg, i);
      }
    }
  }

  lemma {:induction false} MsgsOfSealBody(a: Scheme, s: Session, position: nat, msg: Bytes)
    requires position <= COUNTER_MAX
    ensures Msgs(SealBody(a, s, position, msg).records) <= msg
    ensures SealBody(a, s, position, msg).complete
            ==> Msgs(SealBody(a, s, position, msg).records) == msg
    decreases |msg|
  {
    var rs := SealBody(a, s, position, msg).records;
    if rs != [] && |msg| >= CHUNK_SIZE {
      MsgsOfSealBody(a, s, position + 1, msg[CHUNK_SIZE..]);
      assert rs[1..] == SealBody(a, s, position + 1, msg[CHUNK_SIZE..]).records;
      assert msg == msg[..CHUNK_SIZE] + msg[CHUNK_SIZE..];
    }
  }

  /** Length of a complete sealed body. */
  lemma {:induction false} SealBodyLength(a: Scheme, s: Session, position: nat, msg: Bytes)
    requires a.Lawful() && position <= COUNTER_MAX
    requires SealBody(a, s, position, msg).complete
    ensures |Cts(SealBody(a, s, position, msg).records)| == |msg| + TAG_LEN * SegmentCount(|msg|)
    decreases |msg|
  {
    var rs := SealBody(a, s, position, msg).records;
    if |msg| >= CHUNK_SIZE {
      SealBodyLength(a, s, position + 1, msg[CHUNK_SIZE..]);
      assert rs[1..] == SealBody(a, s, position + 1, msg[CHUNK_SIZE..]).records;
      assert |msg[CHUNK_SIZE..]| / CHUNK_SIZE == |msg| / CHUNK_SIZE - 1;
    } else {
      assert rs[1..] == [];
    }
  }

  // ---------- round trip ----------

  /** `b` opens each of these sealings. */
  ghost predicate OpensAll(b: Scheme, records: seq<Sealed>) {
    forall r :: r in records ==> b.open(r.key, r.nonce, r.aad, r.ct) == Some(r.msg)
  }

  /** One step of either decoder's loop over a body that does not end with its first chunk. */
  lemma {:induction false} OpenBodyStep(a: Scheme, mode: Mode, s: Session, position: nat, ct: Bytes, rest: Bytes)
    requires position < COUNTER_MAX && |ct| == CT_CHUNK && rest != []
    ensures OpenBody(a, mode, s, position, ct + rest) ==
            match s.OpenAt(a, position, false, ct)
            case None => None
            case Some(m) =>
              match OpenBody(a, mode, s, position + 1, rest)
              case None => None
              case Some(n) => Some(m + n)
  {
    assert (ct + rest)[..CT_CHUNK] == ct && (ct + rest)[CT_CHUNK..] == rest;
  }

  lemma {:induction false} OpenSealedLast(a: Scheme, b: Scheme, mode: Mode, s: Session, position: nat, msg: Bytes)
    requires a.Lawful() && position <= COUNTER_MAX && |msg| < CHUNK_SIZE
    requires OpensAll(b, SealBody(a, s, position, msg).records)
    ensures OpenBody(b, mode, s, position, Cts(SealBody(a, s, position, msg).records)) == Some(msg)
  {
    var rs := SealBody(a, s, position, msg).records;
    assert rs[0] in rs && |rs[0].ct| < CT_CHUNK;
    assert rs[1..] == [] && Cts(rs) == rs[0].ct + [] == rs[0].ct;
  }

  /** Both decoders undo the encoder. */
  lemma {:induction false} OpenSealed(a: Scheme, b: Scheme, mode: Mode, s: Session, position: nat, msg: Bytes)
    requires a.Lawful() && position <= COUNTER_MAX
    requires SealBody(a, s, position, msg).complete
    requires OpensAll(b, SealBody(a, s, position, msg).records)
    ensures OpenBody(b, mode, s, position, Cts(SealBody(a, s, position, msg).records)) == Some(msg)
    decreases |msg|
  {
    hide SealBody, OpenBody, SegmentNonce;
    if |msg| < CHUNK_SIZE {
      OpenSealedLast(a, b, mode, s, position, msg);
    } else {
      var rs := SealBody(a, s, position, msg).records;
      var tail := msg[CHUNK_SIZE..];
      SealBodyCount(a, s, position, msg);
      SealBodyStep(a, s, position, msg);
      SealedLength(a, rs[0]);
      hide a.Lawful;
      assert rs[1..] == SealBody(a, s, position + 1, tail).records;
      OpenSealed(a, b, mode, s, position + 1, tail);
      SealBodyLength(a, s, position + 1, tail);
      OpenBodyStep(b, mode, s, position, rs[0].ct, Cts(rs[1..]));
      assert rs[0] in rs && msg == msg[..CHUNK_SIZE] + tail;
    }
  }

  /** The file decoder accepts nothing but sealed bodies: opening and sealing again gives
      the same bytes. */
  lemma {:induction false} SealOpened(a: Scheme, s: Session, position: nat, body: Bytes)
    requires a.Lawful() && position <= COUNTER_MAX
    requires OpenBody(a, Lookahead, s, position, body).Some?
    ensures var sealing := SealBody(a, s, position, OpenBody(a, Lookahead, s, position, body).value);
            sealing.complete && Cts(sealing.records) == body
    decreases |body|
  {
    var msg := OpenBody(a, Lookahead, s, position, body).value;
    if |body| < CT_CHUNK {
      assert s.SealAt(a, position, true, msg) == Some(body);
      assert SealBody(a, s, position, msg).records == [s.Record(position, true, msg, body)];
    } else {
      var chunk := s.OpenAt(a, position, false, body[..CT_CHUNK]).value;
      assert s.SealAt(a, position, false, chunk) == Some(body[..CT_CHUNK]);
      SealOpened(a, s, position + 1, body[CT_CHUNK..]);
      assert msg[..CHUNK_SIZE] == chunk;
      assert msg[CHUNK_SIZE..] == OpenBody(a, Lookahead, s, position + 1, body[CT_CHUNK..]).value;
      var rs := SealBody(a, s, position, msg).records;
      assert rs[1..] == SealBody(a, s, position + 1, msg[CHUNK_SIZE..]).records;
      assert body == body[..CT_CHUNK] + body[CT_CHUNK..];
    }
  }

  // ---------- the two decoders ----------

  lemma {:induction false} OneChunkLess(n: nat)
    requires n >= CT_CHUNK
    ensures (n - CT_CHUNK) % CT_CHUNK == n % CT_CHUNK
  {
  }

  /** Off the multiples of a full ciphertext chunk the decoders agree, whatever the cipher. */
  lemma {:induction false} DecodersAgree(a: Scheme, s: Session, position: nat, body: Bytes)
    requires position <= COUNTER_MAX
    requires |body| % CT_CHUNK != 0
    ensures OpenBody(a, Slices, s, position, body) == OpenBody(a, Lookahead, s, position, body)
    decreases |body|
  {
    hide SegmentNonce;
    if |body| > CT_CHUNK && position < COUNTER_MAX {
      OneChunkLess(|body|);
      DecodersAgree(a, s, position + 1, body[CT_CHUNK..]);
    }
  }

  /** A cipher for which anything shorter than a tag is not a ciphertext. */
  ghost predicate TagRequired(a: Scheme) {
    forall k: Key, n: Nonce, ad: Bytes, c: Bytes :: |c| < TAG_LEN ==> a.open(k, n, ad, c).None?
  }

  /** On the multiples the file decoder is left with an empty last segment and fails. */
  lemma {:induction false} LookaheadFailsOnMultiples(a: Scheme, s: Session, position: nat, body: Bytes)
    requires TagRequired(a) && position <= COUNTER_MAX
    requires |body| % CT_CHUNK == 0
    ensures OpenBody(a, Lookahead, s, position, body).None?
    decreases |body|
  {
    hide SegmentNonce;
    if |body| > 0 && position < COUNTER_MAX {
      OneChunkLess(|body|);
      LookaheadFailsOnMultiples(a, s, position + 1, body[CT_CHUNK..]);
    }
  }

  /** Full ciphertext chunk `i` of a body. */
  function FullChunk(body: Bytes, i: nat): Bytes
    requires (i + 1) * CT_CHUNK <= |body|
  {
    body[i * CT_CHUNK..(i + 1) * CT_CHUNK]
  }

  /** Chunk `i` of a body of `n + 1` full chunks opens at its place: the final one as "last", the
      others as "next". */
  predicate OpensInPlace(a: Scheme, s: Session, position: nat, body: Bytes, n: nat, i: nat)
    requires |body| == (n + 1) * CT_CHUNK && i <= n
  {
    position + i <= COUNTER_MAX && s.OpenAt(a, position + i, i == n, FullChunk(body, i)).Some?
  }

  /** On the multiples the slice decoder accepts iff the final full segment opens as the last one
      and every earlier segment opens. */
  lemma {:induction false} SlicesOnMultiples(a: Scheme, s: Session, position: nat, body: Bytes, n: nat)
    requires position <= COUNTER_MAX && |body| == (n + 1) * CT_CHUNK
    ensures OpenBody(a, Slices, s, position, body).Some?
            <==> forall i :: 0 <= i <= n ==> OpensInPlace(a, s, position, body, n, i)
    decreases n
  {
    hide SegmentNonce;
    assert FullChunk(body, 0) == body[..CT_CHUNK];
    if n == 0 {
      assert body[..CT_CHUNK] == body;
      assert OpenBody(a, Slices, s, position, body).Some? <==> OpensInPlace(a, s, position, body, n, 0);
    } else if OpensInPlace(a, s, position, body, n, 0) {
      var p', tail, n' := position + 1, body[CT_CHUNK..], n - 1;
      SlicesOnMultiples(a, s, p', tail, n');
      forall i | 0 < i <= n
        ensures OpensInPlace(a, s, p', tail, n', i - 1) <==> OpensInPlace(a, s, position, body, n, i)
      {
        assert FullChunk(tail, i - 1) == FullChunk(body, i);
      }
      if OpenBody(a, Slices, s, position, body).None? {
        var i :| 0 <= i <= n' && !OpensInPlace(a, s, p', tail, n', i);
        assert !OpensInPlace(a, s, position, body, n, i + 1);
      }
    }
  }

  // ---------- the state of the file decoder's loop ----------

  /** The first `n` full chunks of a body, opened as "next" segments. */
  function OpenPrefix(a: Scheme, s: Session, body: Bytes, n: nat): Option<Bytes>
    requires n * CT_CHUNK <= |body| && n <= COUNTER_MAX
  {
    if n == 0 then Some([])
    else
      match OpenPrefix(a, s, body, n - 1)
      case None => None
      case Some(msg) =>
        match s.OpenAt(a, n - 1, false, FullChunk(body, n - 1))
        case None => None
        case Some(m) => Some(msg + m)
  }

  /** Opening goes on where the opened prefix ends. */
  lemma {:induction false} OpenAfterPrefix(a: Scheme, s: Session, body: Bytes, n: nat)
    requires n * CT_CHUNK <= |body| && n <= COUNTER_MAX
    requires OpenPrefix(a, s, body, n).Some?
    ensures OpenBody(a, Lookahead, s, 0, body) ==
            match OpenBody(a, Lookahead, s, n, body[n * CT_CHUNK..])
            case None => None
            case Some(rest) => Some(OpenPrefix(a, s, body, n).value + rest)
  {
    if n == 0 {
      assert body[0 * CT_CHUNK..] == body;
      var whole := OpenBody(a, Lookahead, s, 0, body);
      if whole.Some? {
        assert [] + whole.value == whole.value;
      }
    } else {
      hide SegmentNonce;
      OpenAfterPrefix(a, s, body, n - 1);
      var rest := body[(n - 1) * CT_CHUNK..];
      assert rest[..CT_CHUNK] == FullChunk(body, n - 1) && rest[CT_CHUNK..] == body[n * CT_CHUNK..];
      var p, m := OpenPrefix(a, s, body, n - 1).value, s.OpenAt(a, n - 1, false, FullChunk(body, n - 1)).value;
      var tail := OpenBody(a, Lookahead, s, n, body[n * CT_CHUNK..]);
      if tail.Some? {
        assert p + (m + tail.value) == p + m + tail.value;
      }
    }
  }

  // ---------- integrity of one body ----------

  /** In the log, everything under the session's key, prefix and AAD is among `records`. */
  ghost predicate Owns(s: Session, records: seq<Sealed>, log: seq<Sealed>) {
    forall r :: r in log && r.key == s.key && r.aad == s.aad && r.nonce[..7] == s.prefix ==> r in records
  }

  /** If of all sealings under this session only `records`, a beginning of one body's sealing, were
      made, then whatever is opened from `position` on is the original from there on, bit for bit, and
      the original was sealed to its end. Dropping, repeating, reordering, cutting or appending
      segments is covered: `body` is any byte string. */
  lemma {:induction false} OnlyTheOriginalOpens(a: Scheme, log: seq<Sealed>, records: seq<Sealed>,
          s: Session, msg: Bytes, mode: Mode, position: nat, body: Bytes)
    requires a.Lawful() && position <= COUNTER_MAX
    requires records <= SealBody(a, s, 0, msg).records && Owns(s, records, log)
    requires OpenBody(a.Guarded(log), mode, s, position, body).Some?
    ensures SealBody(a, s, 0, msg) == Sealing(true, records)
    ensures position < |records| && body == Cts(records[position..])
    ensures OpenBody(a.Guarded(log), mode, s, position, body) == Some(Msgs(records[position..]))
    decreases |body|
  {
    var last := mode.Final(body);
    var ct := if last then body else body[..CT_CHUNK];
    var m := s.OpenAt(a.Guarded(log), position, last, ct).value;
    var r := s.Record(position, last, m, ct);
    assert r in log && r.nonce[..7] == s.prefix;
    OpenedIsAtItsPlace(a, records, s, msg, position, last, m, ct);
    assert records[position..][0] == r;
    assert records[position..][1..] == records[position + 1..];
    if last {
      SealBodyCount(a, s, 0, msg);
      assert records[position + 1..] == [];
      assert Msgs(records[position..]) == m + [] == m;
      assert Cts(records[position..]) == ct + [] == ct;
    } else {
      OnlyTheOriginalOpens(a, log, records, s, msg, mode, position + 1, body[CT_CHUNK..]);
      assert body == ct + body[CT_CHUNK..];
    }
  }

  lemma {:induction false} OpenedIsAtItsPlace(a: Scheme, records: seq<Sealed>, s: Session, msg: Bytes,
          position: nat, last: bool, m: Bytes, ct: Bytes)
    requires position <= COUNTER_MAX
    requires records <= SealBody(a, s, 0, msg).records
    requires s.Record(position, last, m, ct) in records
    ensures position < |records| && records[position] == s.Record(position, last, m, ct)
    ensures last <==> position == |msg| / CHUNK_SIZE
    ensures last ==> SealBody(a, s, 0, msg) == Sealing(true, records)
  {
    hide SealBody, SegmentNonce, SegmentOf;
    var i :| 0 <= i < |records| && records[i] == s.Record(position, last, m, ct);
    SealBodyAt(a, s, 0, msg, i);
    SealBodyCount(a, s, 0, msg);
    SegmentNonceInjective(s.prefix, position, last, s.prefix, i, i == |msg| / CHUNK_SIZE);
  }

  // ---------- nonces ----------

  /** No key and nonce are used twice. */
  ghost predicate DistinctNonces(log: seq<Sealed>) {
    forall i, j :: 0 <= i < j < |log| ==> log[i].key != log[j].key || log[i].nonce != log[j].nonce
  }

  lemma {:induction false} SealBodyNonces(a: Scheme, s: Session, msg: Bytes)
    ensures DistinctNonces(SealBody(a, s, 0, msg).records)
  {
    hide SealBody, SegmentNonce, SegmentOf;
    var rs := SealBody(a, s, 0, msg).records;
    forall i, j | 0 <= i < j < |rs|
      ensures rs[i].nonce != rs[j].nonce
    {
      SealBodyAt(a, s, 0, msg, i);
      SealBodyAt(a, s, 0, msg, j);
      SegmentNonceInjective(s.prefix, i, i == |msg| / CHUNK_SIZE, s.prefix, j, j == |msg| / CHUNK_SIZE);
    }
  }
}
