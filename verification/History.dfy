/** Histories of encryptions under any number of keys, and what they leave to be opened. */
module History {
  import opened ByteStrings
  import opened Context
  import opened Gcm
  import opened Stream
  import opened Segments
  import opened Blob
  import opened CodecLaws
  import opened Metadata

  /** One encryption. A blob encryption may have been cut short by an I/O failure after `seals`
      sealings; its message is then what the whole input would have been. */
  datatype Event =
    | BlobEvent(wk: Key, id: Bytes, msg: Bytes, e: Entropy, seals: nat)
    | FieldEvent(mk: Key, record: Bytes, field: Bytes, msg: Bytes, iv: Option<Nonce>)
  {
    /** The sealings this encryption made. */
    function Records(a: Scheme): seq<Sealed> {
      match this
      case BlobEvent(wk, id, msg, e, seals) =>
        var records := EncodeBlob(a, msg, wk, id, e).records;
        if seals < |records| then records[..seals] else records
      case FieldEvent(mk, record, field, msg, iv) =>
        EncodeField(a, msg, mk, record, field, iv).records
    }

    /** This encryption ran to its end and `framed` is the blob it made of `msg` for `wk` and `id`. */
    predicate Wrote(a: Scheme, framed: Bytes, msg: Bytes, wk: Key, id: Bytes) {
      && BlobEvent? && this.wk == wk && this.id == id && this.msg == msg
      && EncodeBlob(a, msg, wk, id, e).result == Ok(framed)
      && |EncodeBlob(a, msg, wk, id, e).records| <= seals
    }

    predicate WroteField(a: Scheme, f: EncryptedField, msg: Bytes, mk: Key, record: Bytes, field: Bytes) {
      && FieldEvent? && this.mk == mk && this.record == record && this.field == field && this.msg == msg
      && EncodeField(a, msg, mk, record, field, iv).result == Ok(f)
    }
  }

  function LogOf(a: Scheme, h: seq<Event>): seq<Sealed> {
    if h == [] then [] else LogOf(a, h[..|h| - 1]) + h[|h| - 1].Records(a)
  }

  /** Two blob encryptions drew the same data key and the same nonce prefix. */
  predicate SameDraws(x: Event, y: Event) {
    && x.BlobEvent? && y.BlobEvent? && x.e.dataKey.Some? && x.e.prefix.Some?
    && x.e.dataKey == y.e.dataKey && x.e.prefix == y.e.prefix
  }

  /** No pair of data key and nonce prefix is drawn twice for one id. */
  ghost predicate FreshSessions(h: seq<Event>) {
    forall i, j :: 0 <= i < |h| && 0 <= j < |h| && i != j && SameDraws(h[i], h[j]) ==> h[i].id != h[j].id
  }

  // ---------- where a log entry comes from ----------

  lemma {:induction false} LogOrigin(a: Scheme, h: seq<Event>, r: Sealed)
    ensures r in LogOf(a, h) <==> exists i :: 0 <= i < |h| && r in h[i].Records(a)
  {
    hide Event.Records;
    if h != [] {
      var n := |h| - 1;
      LogOrigin(a, h[..n], r);
      assert r in LogOf(a, h) <==> r in LogOf(a, h[..n]) || r in h[n].Records(a);
      if i :| 0 <= i < n && r in h[i].Records(a) {
        assert r in h[..n][i].Records(a);
      }
    }
  }

  lemma {:induction false} RecordsFrom(a: Scheme, ev: Event)
    ensures AllFrom(a, ev.Records(a))
  {
    if ev.BlobEvent? {
      EncodingFrom(a, ev.msg, ev.wk, ev.id, ev.e);
    }
  }

  lemma {:induction false} LogFrom(a: Scheme, h: seq<Event>)
    ensures AllFrom(a, LogOf(a, h))
  {
    forall r | r in LogOf(a, h)
      ensures r.From(a)
    {
      LogOrigin(a, h, r);
      var i :| 0 <= i < |h| && r in h[i].Records(a);
      RecordsFrom(a, h[i]);
    }
  }

  /** The sealings of a blob: the key wrap, then segments under the session. */
  lemma {:induction false} BlobRecord(a: Scheme, ev: Event, r: Sealed)
    requires a.Lawful() && ev.BlobEvent? && r in ev.Records(a)
    ensures var start := StartBlob(a, ev.wk, ev.id, ev.e);
            && start.session.Ok?
            && ev.Records(a)[0] == start.records[0]
            && ev.Records(a)[1..] <= SealBody(a, start.session.value, 0, ev.msg).records
            && (r == start.records[0] || r in ev.Records(a)[1..])
  {
  }

  lemma {:induction false} SegmentRecord(a: Scheme, s: Session, msg: Bytes, r: Sealed)
    requires r in SealBody(a, s, 0, msg).records
    ensures r.key == s.key && r.aad == s.aad && r.nonce[..7] == s.prefix
  {
    hide SealBody, SegmentOf;
    var rs := SealBody(a, s, 0, msg).records;
    var i :| 0 <= i < |rs| && rs[i] == r;
    SealBodyAt(a, s, 0, msg, i);
  }

  /** A sealing under a wrap AAD is the key wrap of a blob with that id and nonce prefix. */
  lemma {:induction false} WrapOrigin(a: Scheme, ev: Event, r: Sealed, id: Bytes, prefix: Prefix)
    requires a.Lawful() && Bindable(id)
    requires r in ev.Records(a) && r.aad == HeaderAad(id, prefix).value
    ensures ev.BlobEvent? && ev.id == id && ev.wk == r.key
    ensures var start := StartBlob(a, ev.wk, ev.id, ev.e);
            && |r.msg| == 32 && start.session == Ok(Session(r.msg, prefix, SegmentAad(id).value))
            && start.records == [r] && ev.Records(a)[0] == r
            && start.header == Header(r.nonce + r.ct, prefix)
  {
    match ev
    case FieldEvent(_, record, field, _, _) =>
      KindsAreDisjoint(id, id, VERSION, prefix, Be32(CHUNK_SIZE), record, field);
      assert false;
    case BlobEvent(_, id', msg, e, _) =>
      BlobRecord(a, ev, r);
      var start := StartBlob(a, ev.wk, id', e);
      if r in ev.Records(a)[1..] {
        SegmentRecord(a, start.session.value, msg, r);
        KindsAreDisjoint(id', id, VERSION, prefix, Be32(CHUNK_SIZE), id, id);
        assert false;
      }
      WrapAadInjective(id, VERSION, prefix, Be32(CHUNK_SIZE), id', VERSION, e.prefix.value, Be32(CHUNK_SIZE));
  }

  /** A sealing under a segment AAD is a segment of a blob with that id. */
  lemma {:induction false} SegmentOrigin(a: Scheme, ev: Event, r: Sealed, id: Bytes)
    requires a.Lawful() && Bindable(id)
    requires r in ev.Records(a) && r.aad == SegmentAad(id).value
    ensures ev.BlobEvent? && ev.id == id && ev.e.dataKey == Some(r.key) && ev.e.prefix == Some(r.nonce[..7])
    ensures r in ev.Records(a)[1..]
  {
    match ev
    case FieldEvent(_, record, field, _, _) =>
      KindsAreDisjoint(id, id, VERSION, [0, 0, 0, 0, 0, 0, 0], Be32(CHUNK_SIZE), record, field);
      assert false;
    case BlobEvent(_, id', msg, e, _) =>
      BlobRecord(a, ev, r);
      var start := StartBlob(a, ev.wk, id', e);
      if r == start.records[0] {
        KindsAreDisjoint(id, id', VERSION, e.prefix.value, Be32(CHUNK_SIZE), id, id);
        assert false;
      }
      SegmentRecord(a, start.session.value, msg, r);
      SegmentAadsArePrefixFree(id, id');
  }

  // ---------- integrity ----------

  /** With fresh sessions, all that was sealed under a session is one event's. */
  lemma {:induction false} SessionHasOneOwner(a: Scheme, h: seq<Event>, i: nat, s: Session, id: Bytes)
    requires a.Lawful() && FreshSessions(h) && Bindable(id) && s.aad == SegmentAad(id).value
    requires i < |h| && h[i].BlobEvent? && h[i].id == id && h[i].Records(a) != []
    requires h[i].e.dataKey == Some(s.key) && h[i].e.prefix == Some(s.prefix)
    ensures Owns(s, h[i].Records(a)[1..], LogOf(a, h))
  {
    forall t | t in LogOf(a, h) && t.key == s.key && t.aad == s.aad && t.nonce[..7] == s.prefix
      ensures t in h[i].Records(a)[1..]
    {
      LogOrigin(a, h, t);
      var j :| 0 <= j < |h| && t in h[j].Records(a);
      SegmentOrigin(a, h[j], t, id);
      assert j == i;
    }
  }

  /** The event whose key wrap opens the header. */
  lemma {:induction false} HeaderOrigin(a: Scheme, h: seq<Event>, header: Bytes, wk: Key, id: Bytes) returns (i: nat)
    requires a.Lawful() && |header| == HEADER_LEN
    requires UnlockHeader(a.Guarded(LogOf(a, h)), header, wk, id).Ok?
    ensures i < |h| && h[i].BlobEvent? && h[i].wk == wk && h[i].id == id && h[i].Records(a) != []
    ensures var start := StartBlob(a, wk, id, h[i].e);
            && start.header == header && |start.records| == 1
            && start.session == UnlockHeader(a.Guarded(LogOf(a, h)), header, wk, id)
            && h[i].Records(a)[1..] <= SealBody(a, start.session.value, 0, h[i].msg).records
  {
    var s := UnlockHeader(a.Guarded(LogOf(a, h)), header, wk, id).value;
    var r := Sealed(wk, header[1..13], HeaderAad(id, s.prefix).value, s.key, header[13..61]);
    assert r in LogOf(a, h);
    LogOrigin(a, h, r);
    i :| 0 <= i < |h| && r in h[i].Records(a);
    hide SealBody, EncodeBlob, EncodeField;
    WrapOrigin(a, h[i], r, id, s.prefix);
    BlobRecord(a, h[i], r);
    HeaderParts(header);
  }

  /** After any history with fresh sessions, a byte string is accepted by either decoder under a
      wrapping key and a blob id, with some plaintext, iff it is, byte for byte, a blob that the
      history completed under that key and id from that plaintext. */
  lemma {:induction false} BlobIntegrity(a: Scheme, h: seq<Event>, mode: Mode, framed: Bytes, msg: Bytes, wk: Key,
          id: Bytes)
    requires a.Lawful() && FreshSessions(h)
    ensures DecodeBlob(a.Guarded(LogOf(a, h)), mode, framed, wk, id) == Ok(msg)
            <==> exists i :: 0 <= i < |h| && h[i].Wrote(a, framed, msg, wk, id)
  {
    if DecodeBlob(a.Guarded(LogOf(a, h)), mode, framed, wk, id) == Ok(msg) {
      AcceptedWasWritten(a, h, mode, framed, msg, wk, id);
    }
    if i :| 0 <= i < |h| && h[i].Wrote(a, framed, msg, wk, id) {
      WrittenIsAccepted(a, h, mode, framed, msg, wk, id, i);
    }
  }

  lemma {:induction false} AcceptedWasWritten(a: Scheme, h: seq<Event>, mode: Mode, framed: Bytes, msg: Bytes,
          wk: Key, id: Bytes)
    requires a.Lawful() && FreshSessions(h)
    requires DecodeBlob(a.Guarded(LogOf(a, h)), mode, framed, wk, id) == Ok(msg)
    ensures exists i :: 0 <= i < |h| && h[i].Wrote(a, framed, msg, wk, id)
  {
    hide OpenBody, SealBody, UnlockHeader, Owns, LogOf;
    var log, header, body := LogOf(a, h), framed[..HEADER_LEN], framed[HEADER_LEN..];
    var i := HeaderOrigin(a, h, header, wk, id);
    var records := h[i].Records(a)[1..];
    var start := StartBlob(a, wk, id, h[i].e);
    SessionHasOneOwner(a, h, i, start.session.value, id);
    OnlyTheOriginalOpens(a, log, records, start.session.value, h[i].msg, mode, 0, body);
    MsgsOfSealBody(a, start.session.value, 0, h[i].msg);
    assert records[0..] == records && framed == header + body;
    assert h[i].Wrote(a, framed, msg, wk, id);
  }

  lemma {:induction false} WrittenIsAccepted(a: Scheme, h: seq<Event>, mode: Mode, framed: Bytes, msg: Bytes,
          wk: Key, id: Bytes, i: nat)
    requires a.Lawful()
    requires i < |h| && h[i].Wrote(a, framed, msg, wk, id)
    ensures DecodeBlob(a.Guarded(LogOf(a, h)), mode, framed, wk, id) == Ok(msg)
  {
    var records := h[i].Records(a);
    RecordsFrom(a, h[i]);
    forall r | r in records
      ensures r in LogOf(a, h)
    {
      LogOrigin(a, h, r);
    }
    OwnSealingsOpen(a, records, LogOf(a, h));
    RoundTrip(a, a.Guarded(LogOf(a, h)), mode, msg, wk, id, h[i].e);
  }

  /** Rigidity of one blob: behind its header, the only body that is accepted is its own. In particular
      no selection of its own segments, dropped, repeated, reordered, cut or appended, is accepted
      unless it spells the original body. */
  lemma {:induction false} BodyIsRigid(a: Scheme, h: seq<Event>, mode: Mode, i: nat, framed: Bytes, body: Bytes)
    requires a.Lawful() && FreshSessions(h)
    requires i < |h| && h[i].BlobEvent? && h[i].Wrote(a, framed, h[i].msg, h[i].wk, h[i].id)
    ensures |framed| >= HEADER_LEN
    ensures DecodeBlob(a.Guarded(LogOf(a, h)), mode, framed[..HEADER_LEN] + body, h[i].wk, h[i].id).Ok?
            <==> body == framed[HEADER_LEN..]
  {
    hide OpenBody, SealBody;
    var wk, id, header, g := h[i].wk, h[i].id, framed[..HEADER_LEN], a.Guarded(LogOf(a, h));
    WrittenIsAccepted(a, h, mode, framed, h[i].msg, wk, id, i);
    var forged := header + body;
    assert framed == header + framed[HEADER_LEN..];
    var r := DecodeBlob(g, mode, forged, wk, id);
    if r.Ok? {
      AcceptedWasWritten(a, h, mode, forged, r.value, wk, id);
      var j :| 0 <= j < |h| && h[j].Wrote(a, forged, r.value, wk, id);
      SessionInHeader(a, h, i, framed);
      SessionInHeader(a, h, j, forged);
      assert forged[..HEADER_LEN] == header;
      assert i == j;
    }
  }

  /** The header of a completed blob unlocks, after the history, to the session of its event. */
  lemma {:induction false} SessionInHeader(a: Scheme, h: seq<Event>, i: nat, framed: Bytes)
    requires a.Lawful()
    requires i < |h| && h[i].BlobEvent? && h[i].Wrote(a, framed, h[i].msg, h[i].wk, h[i].id)
    ensures |framed| >= HEADER_LEN
    ensures var s := UnlockHeader(a.Guarded(LogOf(a, h)), framed[..HEADER_LEN], h[i].wk, h[i].id);
            s.Ok? && h[i].e.dataKey == Some(s.value.key) && h[i].e.prefix == Some(s.value.prefix)
  {
    hide SealBody, UnlockHeader, SegmentNonce;
    var start, records := StartBlob(a, h[i].wk, h[i].id, h[i].e), h[i].Records(a);
    RecordsFrom(a, h[i]);
    forall r | r in records
      ensures r in LogOf(a, h)
    {
      LogOrigin(a, h, r);
    }
    assert forall r :: r in start.records ==> r in records;
    OwnSealingsOpen(a, records, LogOf(a, h));
    HeaderUnlocks(a, a.Guarded(LogOf(a, h)), h[i].wk, h[i].id, h[i].e);
    assert framed[..HEADER_LEN] == start.header;
  }

  /** A field opens under a key, record and name iff it was produced under just these. Nothing about
      the history is assumed. */
  lemma {:induction false} FieldIntegrity(a: Scheme, h: seq<Event>, f: EncryptedField, msg: Bytes, mk: Key,
          record: Bytes, field: Bytes)
    requires a.Lawful()
    ensures DecodeField(a.Guarded(LogOf(a, h)), f, mk, record, field) == Ok(msg)
            <==> exists i :: 0 <= i < |h| && h[i].WroteField(a, f, msg, mk, record, field)
  {
    if Bindable(record) && Bindable(field) {
      var r := Sealed(mk, f.iv, FieldAad(record, field).value, msg, f.ciphertext);
      LogOrigin(a, h, r);
      LogFrom(a, h);
      GuardedOpens(a, LogOf(a, h), r);
      if i :| 0 <= i < |h| && r in h[i].Records(a) {
        FieldOrigin(a, h[i], r, record, field);
      }
      if i :| 0 <= i < |h| && h[i].WroteField(a, f, msg, mk, record, field) {
        assert r in h[i].Records(a);
      }
    }
  }

  lemma {:induction false} FieldOrigin(a: Scheme, ev: Event, r: Sealed, record: Bytes, field: Bytes)
    requires a.Lawful() && Bindable(record) && Bindable(field)
    requires r in ev.Records(a) && r.aad == FieldAad(record, field).value
    ensures ev.WroteField(a, EncryptedField(r.ct, r.nonce), r.msg, r.key, record, field)
  {
    match ev
    case FieldEvent(_, record', field', _, _) =>
      FieldAadMarksItsEnd(record, field, record', field', [], []);
    case BlobEvent(_, id, msg, e, _) =>
      BlobRecord(a, ev, r);
      var start := StartBlob(a, ev.wk, id, e);
      KindsAreDisjoint(id, id, VERSION, e.prefix.value, Be32(CHUNK_SIZE), record, field);
      if r in ev.Records(a)[1..] {
        SegmentRecord(a, start.session.value, msg, r);
      }
      assert false;
  }

  // ---------- nonces over a whole history ----------

  /** The use an event makes of a long-lived key: key and IV. */
  function LongTermUse(ev: Event): (Key, Option<Nonce>) {
    match ev
    case BlobEvent(wk, _, _, e, _) => (wk, e.wrapIv)
    case FieldEvent(mk, _, _, _, iv) => (mk, iv)
  }

  /** What the draws must not do: an IV drawn twice for one long-lived key; a data key and nonce prefix
      drawn twice; a data key that is a long-lived key, with the beginning of one of its IVs as prefix. */
  ghost predicate FreshDraws(h: seq<Event>) {
    && (forall i, j :: 0 <= i < j < |h| && LongTermUse(h[i]).1.Some? ==> LongTermUse(h[i]) != LongTermUse(h[j]))
    && (forall i, j :: 0 <= i < |h| && 0 <= j < |h| && h[i].BlobEvent? && LongTermUse(h[j]).1.Some?
          && h[i].e.dataKey == Some(LongTermUse(h[j]).0)
          ==> h[i].e.prefix != Some(LongTermUse(h[j]).1.value[..7]))
    && (forall i, j :: 0 <= i < |h| && 0 <= j < |h| && i != j ==> !SameDraws(h[i], h[j]))
  }

  /** Every sealing is the event's use of its long-lived key, or is made in the event's session. */
  lemma {:induction false} KeyOfRecord(a: Scheme, ev: Event, r: Sealed)
    requires a.Lawful() && r in ev.Records(a)
    ensures || LongTermUse(ev) == (r.key, Some(r.nonce))
            || (ev.BlobEvent? && ev.e.dataKey == Some(r.key) && ev.e.prefix == Some(r.nonce[..7]))
  {
    if ev.BlobEvent? {
      BlobRecord(a, ev, r);
      hide Event.Records, SealBody;
      if r in ev.Records(a)[1..] {
        SegmentRecord(a, StartBlob(a, ev.wk, ev.id, ev.e).session.value, ev.msg, r);
      }
    }
  }

  lemma {:induction false} EventNonces(a: Scheme, ev: Event)
    requires a.Lawful() && FreshDraws([ev])
    ensures DistinctNonces(ev.Records(a))
  {
    var rs := ev.Records(a);
    if ev.BlobEvent? && rs != [] {
      assert [ev][0] == ev;
      BlobRecord(a, ev, rs[0]);
      var s := StartBlob(a, ev.wk, ev.id, ev.e).session.value;
      var body := SealBody(a, s, 0, ev.msg).records;
      SealBodyNonces(a, s, ev.msg);
      forall i, j | 0 <= i < j < |rs|
        ensures rs[i].key != rs[j].key || rs[i].nonce != rs[j].nonce
      {
        assert rs[j] == rs[1..][j - 1] == body[j - 1];
        SegmentRecord(a, s, ev.msg, rs[j]);
        if i > 0 {
          assert rs[i] == rs[1..][i - 1] == body[i - 1];
        }
      }
    }
  }

  /** With fresh draws no key and nonce are ever used twice, in blobs, wraps and fields together. */
  lemma {:induction false} HistoryNonces(a: Scheme, h: seq<Event>)
    requires a.Lawful() && FreshDraws(h)
    ensures DistinctNonces(LogOf(a, h))
  {
    hide FreshDraws, Event.Records, Scheme.Lawful, DistinctNonces;
    if h == [] {
      NoNonces();
    } else {
      var n := |h| - 1;
      var old', new' := LogOf(a, h[..n]), h[n].Records(a);
      FreshDrawsOfParts(h);
      HistoryNonces(a, h[..n]);
      EventNonces(a, h[n]);
      forall i, j | 0 <= i < |old'| && 0 <= j < |new'|
        ensures old'[i].key != new'[j].key || old'[i].nonce != new'[j].nonce
      {
        LogOrigin(a, h[..n], old'[i]);
        var k :| 0 <= k < n && old'[i] in h[..n][k].Records(a);
        EventsApart(a, h, k, n, old'[i], new'[j]);
      }
      DistinctAppend(old', new');
    }
  }

  lemma {:induction false} NoNonces()
    ensures DistinctNonces([])
  {
  }

  lemma {:induction false} FreshDrawsOfParts(h: seq<Event>)
    requires FreshDraws(h) && h != []
    ensures FreshDraws(h[..|h| - 1]) && FreshDraws([h[|h| - 1]])
  {
  }

  lemma {:induction false} DistinctAppend(rs: seq<Sealed>, ts: seq<Sealed>)
    requires DistinctNonces(rs) && DistinctNonces(ts)
    requires forall i, j :: 0 <= i < |rs| && 0 <= j < |ts| ==> rs[i].key != ts[j].key || rs[i].nonce != ts[j].nonce
    ensures DistinctNonces(rs + ts)
  {
  }

  lemma {:induction false} EventsApart(a: Scheme, h: seq<Event>, i: nat, j: nat, r: Sealed, t: Sealed)
    requires a.Lawful() && FreshDraws(h) && i < j < |h|
    requires r in h[i].Records(a) && t in h[j].Records(a)
    ensures r.key != t.key || r.nonce != t.nonce
  {
    hide Event.Records, Scheme.Lawful;
    KeyOfRecord(a, h[i], r);
    KeyOfRecord(a, h[j], t);
  }
}
