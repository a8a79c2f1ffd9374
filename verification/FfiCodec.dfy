/** The converters of the committed Swift bindings: length-prefixed byte strings, read from a buffer
    with an advancing offset and appended to a growing one. */
module FfiCodec {
  import opened ByteStrings
  import opened Utf8

  datatype FfiError = BufferOverflow | IncompleteData

  /** A Swift call returns, throws, or stops the program (a failed conversion, range or unwrapping). */
  datatype Outcome<+T> = Done(value: T) | Thrown(error: FfiError) | Trapped

  type Int32 = i: int | -0x8000_0000 <= i < 0x8000_0000

  /** A string, as its UTF-8 bytes; the FFI struct of `EncryptedField`; `DeviceSignature`. */
  datatype Field = Field(ciphertext: Bytes, iv: Bytes)
  datatype Signature = Signature(bytes: Bytes)

  /** What a reader found, and where it stopped. */
  datatype Parsed<+T> = Parsed(value: T, end: nat)

  // ---------- integers ----------

  /** Big-endian two's complement. */
  function PrintInt32(i: Int32): (b: Bytes)
    ensures |b| == 4
  {
    BigEndian(if i < 0 then i + U32_SIZE else i, 4)
  }

  function ParseInt32(data: Bytes, offset: nat): Outcome<Parsed<Int32>> {
    if |data| < offset + 4 then Thrown(BufferOverflow)
    else
      Power256Of4();
      BigEndianOfFromBigEndian(data[offset..offset + 4]);
      var n := FromBigEndian(data[offset..offset + 4]);
      Done(Parsed(if n >= 0x8000_0000 then n - U32_SIZE else n, offset + 4))
  }

  /** Two's complement in four bytes, most significant first. */
  lemma {:induction false} Int32Bytes(i: Int32)
    ensures Holds32(PrintInt32(i), if i < 0 then i + 0x1_0000_0000 else i)
  {
    Be32Bytes(if i < 0 then i + U32_SIZE else i);
  }

  lemma {:induction false} ParsePrintedInt32(prefix: Bytes, i: Int32, rest: Bytes)
    ensures ParseInt32(prefix + PrintInt32(i) + rest, |prefix|) == Done(Parsed(i, |prefix| + 4))
  {
    var data, n := prefix + PrintInt32(i) + rest, if i < 0 then i + U32_SIZE else i;
    assert data[|prefix|..|prefix| + 4] == PrintInt32(i);
    Power256Of4();
    FromBigEndianOfBigEndian(n, 4);
  }

  lemma {:induction false} PrintParsedInt32(data: Bytes, offset: nat)
    ensures ParseInt32(data, offset).Done?
            ==> data[offset..offset + 4] == PrintInt32(ParseInt32(data, offset).value.value)
  {
    if |data| >= offset + 4 {
      Power256Of4();
      BigEndianOfFromBigEndian(data[offset..offset + 4]);
    }
  }

  // ---------- length-prefixed bytes: Data and [UInt8] ----------

  /** The length must fit an `Int32`. */
  function PrintBytes(v: Bytes): Outcome<Bytes> {
    if |v| < 0x8000_0000 then Done(PrintInt32(|v|) + v) else Trapped
  }

  /** `readBytes`: a negative count makes an ill-formed range. */
  function TakeBytes(data: Bytes, offset: nat, count: int): Outcome<Parsed<Bytes>> {
    if count < 0 then Trapped
    else if |data| < offset + count then Thrown(BufferOverflow)
    else Done(Parsed(data[offset..offset + count], offset + count))
  }

  function ParseBytes(data: Bytes, offset: nat): Outcome<Parsed<Bytes>> {
    match ParseInt32(data, offset)
    case Thrown(e) => Thrown(e)
    case Trapped => Trapped
    case Done(len) => TakeBytes(data, len.end, len.value)
  }

  /** Wherever a printed value stands, reading it gives it back and stops behind it. */
  lemma {:induction false} ParsePrintedBytes(prefix: Bytes, v: Bytes, rest: Bytes)
    requires PrintBytes(v).Done?
    ensures var b := PrintBytes(v).value;
            ParseBytes(prefix + b + rest, |prefix|) == Done(Parsed(v, |prefix| + |b|))
  {
    var b := PrintBytes(v).value;
    var data := prefix + b + rest;
    assert data == prefix + PrintInt32(|v|) + (v + rest);
    ParsePrintedInt32(prefix, |v|, v + rest);
    assert data[|prefix| + 4..|prefix| + 4 + |v|] == v;
  }

  /** What is read is what printing the value would have written. */
  lemma {:induction false} PrintParsedBytes(data: Bytes, offset: nat)
    requires ParseBytes(data, offset).Done?
    ensures var r := ParseBytes(data, offset).value;
            offset <= r.end <= |data| && PrintBytes(r.value) == Done(data[offset..r.end])
  {
    PrintParsedInt32(data, offset);
    var r := ParseBytes(data, offset).value;
    assert data[offset..r.end] == data[offset..offset + 4] + data[offset + 4..r.end];
  }

  /** Printed data is its length in four bytes, then the data; a length beyond `Int32` traps. */
  lemma {:induction false} PrintedBytes(v: Bytes)
    ensures if |v| < 0x8000_0000
            then PrintBytes(v).Done? && |PrintBytes(v).value| == 4 + |v|
                 && Holds32(PrintBytes(v).value[..4], |v|) && PrintBytes(v).value[4..] == v
            else PrintBytes(v) == Trapped
  {
    if |v| < 0x8000_0000 {
      Int32Bytes(|v|);
      hide PrintInt32;
      assert PrintBytes(v).value[..4] == PrintInt32(|v|);
    }
  }

  /** Reading data, case by case: too few bytes for the length or for the data make it throw, a length
      with its sign bit set traps. */
  lemma {:induction false} ParseBytesCases(data: Bytes, offset: nat, n: nat)
    requires offset + 4 <= |data| ==> Holds32(data[offset..offset + 4], n)
    ensures ParseBytes(data, offset) ==
            if |data| < offset + 4 then Thrown(BufferOverflow)
            else if n >= 0x8000_0000 then Trapped
            else if |data| < offset + 4 + n then Thrown(BufferOverflow)
            else Done(Parsed(data[offset + 4..offset + 4 + n], offset + 4 + n))
  {
    if offset + 4 <= |data| {
      Power256Of4();
      Be32Bytes(n);
      FromBigEndianOfBigEndian(n, 4);
      BigEndianOfFromBigEndian(data[offset..offset + 4]);
    }
  }

  // ---------- strings ----------

  /** `String(bytes:encoding:)!` */
  function AsString(r: Outcome<Parsed<Bytes>>): Outcome<Parsed<Bytes>> {
    if r.Done? && !ValidUtf8(r.value.value) then Trapped else r
  }

  function ParseString(data: Bytes, offset: nat): Outcome<Parsed<Bytes>> {
    AsString(ParseBytes(data, offset))
  }

  /** Every Swift string is text, and is read back; nothing else is ever read as a string. */
  lemma {:induction false} ParsePrintedString(prefix: Bytes, v: Bytes, rest: Bytes)
    requires PrintBytes(v).Done?
    ensures var b := PrintBytes(v).value;
            ParseString(prefix + b + rest, |prefix|) == if IsText(v) then Done(Parsed(v, |prefix| + |b|)) else Trapped
  {
    ParsePrintedBytes(prefix, v, rest);
    ValidIffText(v);
  }

  /** In terms of scalar values: any sequence of them is written and read back. */
  lemma {:induction false} ParsePrintedScalars(prefix: Bytes, s: seq<Scalar>, rest: Bytes)
    requires |EncodeAll(s)| < 0x8000_0000
    ensures var b := PrintBytes(EncodeAll(s));
            && b.Done? && LowerString(EncodeAll(s)) == Done(EncodeAll(s))
            && ParseString(prefix + b.value + rest, |prefix|) == Done(Parsed(EncodeAll(s), |prefix| + |b.value|))
            && LiftString(Some(EncodeAll(s))) == Done(EncodeAll(s))
  {
    ParsePrintedString(prefix, EncodeAll(s), rest);
    EncodedIsValid(s);
  }

  /** Reading a string is reading data that must be text. */
  lemma {:induction false} ParseStringCases(data: Bytes, offset: nat)
    ensures var r := ParseBytes(data, offset);
            ParseString(data, offset) == if r.Done? && !IsText(r.value.value) then Trapped else r
  {
    if ParseBytes(data, offset).Done? {
      ValidIffText(ParseBytes(data, offset).value.value);
    }
  }

  // ---------- records ----------

  function PrintField(f: Field): Outcome<Bytes> {
    match (PrintBytes(f.ciphertext), PrintBytes(f.iv))
    case (Done(c), Done(i)) => Done(c + i)
    case _ => Trapped
  }

  function ParseField(data: Bytes, offset: nat): Outcome<Parsed<Field>> {
    match ParseBytes(data, offset)
    case Thrown(e) => Thrown(e)
    case Trapped => Trapped
    case Done(c) =>
      match ParseBytes(data, c.end)
      case Thrown(e) => Thrown(e)
      case Trapped => Trapped
      case Done(i) => Done(Parsed(Field(c.value, i.value), i.end))
  }

  /** Ciphertext first, then IV, each behind its length. */
  lemma {:induction false} PrintedField(f: Field)
    ensures var n, m := |f.ciphertext|, |f.iv|;
            if n < 0x8000_0000 && m < 0x8000_0000 then
              && PrintField(f).Done? && |PrintField(f).value| == 8 + n + m
              && var b := PrintField(f).value;
                 && Holds32(b[..4], n) && b[4..4 + n] == f.ciphertext
                 && Holds32(b[4 + n..8 + n], m) && b[8 + n..] == f.iv
            else PrintField(f) == Trapped
  {
    PrintedBytes(f.ciphertext);
    PrintedBytes(f.iv);
    hide PrintBytes, Holds32;
    if PrintField(f).Done? {
      var b, c, i, n := PrintField(f).value, PrintBytes(f.ciphertext).value, PrintBytes(f.iv).value, |f.ciphertext|;
      assert c == c[..4] + f.ciphertext && i == i[..4] + f.iv;
      assert b == c[..4] + f.ciphertext + i[..4] + f.iv;
      assert b[..4] == c[..4] && b[4..4 + n] == f.ciphertext && b[4 + n..8 + n] == i[..4] && b[8 + n..] == f.iv;
    }
  }

  /** Reading a record stops at the first part that throws or traps. */
  lemma {:induction false} ParseFieldCases(data: Bytes, offset: nat)
    ensures var c, r := ParseBytes(data, offset), ParseField(data, offset);
            if c.Thrown? then r == Thrown(c.error)
            else if c.Trapped? then r == Trapped
            else
              var i := ParseBytes(data, c.value.end);
              if i.Thrown? then r == Thrown(i.error)
              else if i.Trapped? then r == Trapped
              else r == Done(Parsed(Field(c.value.value, i.value.value), i.value.end))
  {
  }

  lemma {:induction false} ParsePrintedField(prefix: Bytes, f: Field, rest: Bytes)
    requires PrintField(f).Done?
    ensures var b := PrintField(f).value;
            ParseField(prefix + b + rest, |prefix|) == Done(Parsed(f, |prefix| + |b|))
  {
    var c, i := PrintBytes(f.ciphertext).value, PrintBytes(f.iv).value;
    assert prefix + (c + i) + rest == prefix + c + (i + rest) == prefix + c + i + rest;
    ParsePrintedBytes(prefix, f.ciphertext, i + rest);
    ParsePrintedBytes(prefix + c, f.iv, rest);
  }

  lemma {:induction false} PrintParsedField(data: Bytes, offset: nat)
    requires ParseField(data, offset).Done?
    ensures var r := ParseField(data, offset).value;
            offset <= r.end <= |data| && PrintField(r.value) == Done(data[offset..r.end])
  {
    var c := ParseBytes(data, offset).value;
    var r := ParseField(data, offset).value;
    PrintParsedBytes(data, offset);
    PrintParsedBytes(data, c.end);
    assert data[offset..r.end] == data[offset..c.end] + data[c.end..r.end];
  }

  // ---------- lift and lower ----------

  /** `lift` of a value with the given reader: the whole buffer must be used; a buffer without data
      cannot be read. */
  function Whole<T>(r: Outcome<Parsed<T>>, length: nat): Outcome<T> {
    match r
    case Thrown(e) => Thrown(e)
    case Trapped => Trapped
    case Done(p) => if p.end < length then Thrown(IncompleteData) else Done(p.value)
  }

  function LiftBytes(buf: Option<Bytes>): Outcome<Bytes> {
    if buf.None? then Trapped else Whole(ParseBytes(buf.value, 0), |buf.value|)
  }

  function LiftField(buf: Option<Bytes>): Outcome<Field> {
    if buf.None? then Trapped else Whole(ParseField(buf.value, 0), |buf.value|)
  }

  function LiftSignature(buf: Option<Bytes>): Outcome<Signature> {
    match LiftBytes(buf)
    case Thrown(e) => Thrown(e)
    case Trapped => Trapped
    case Done(b) => Done(Signature(b))
  }

  /** Strings cross without a length prefix, and a buffer without data is the empty string. */
  function LiftString(buf: Option<Bytes>): Outcome<Bytes> {
    if buf.None? then Done([]) else if ValidUtf8(buf.value) then Done(buf.value) else Trapped
  }

  /** A buffer is handed over with its length as an `Int32`. */
  function Handed(b: Bytes): Outcome<Bytes> {
    if |b| < 0x8000_0000 then Done(b) else Trapped
  }

  function LowerBytes(v: Bytes): Outcome<Bytes> {
    if PrintBytes(v).Done? then Handed(PrintBytes(v).value) else Trapped
  }

  function LowerField(f: Field): Outcome<Bytes> {
    if PrintField(f).Done? then Handed(PrintField(f).value) else Trapped
  }

  function LowerSignature(s: Signature): Outcome<Bytes> {
    LowerBytes(s.bytes)
  }

  function LowerString(utf8: Bytes): Outcome<Bytes> {
    Handed(utf8)
  }

  /** `lift` accepts exactly what printing makes, so every value has one form, and exactly what `lower`
      makes among the buffers that `lower` can hand over. */
  lemma {:induction false} LiftBytesInvertsLower(b: Bytes, v: Bytes)
    ensures LiftBytes(Some(b)) == Done(v) <==> PrintBytes(v) == Done(b)
    ensures LowerBytes(v) == Done(b) <==> LiftBytes(Some(b)) == Done(v) && |b| < 0x8000_0000
  {
    if PrintBytes(v) == Done(b) {
      ParsePrintedBytes([], v, []);
      assert [] + b + [] == b;
    }
    if LiftBytes(Some(b)) == Done(v) {
      PrintParsedBytes(b, 0);
      assert b[0..|b|] == b;
    }
  }

  lemma {:induction false} LiftFieldInvertsLower(b: Bytes, f: Field)
    ensures LiftField(Some(b)) == Done(f) <==> PrintField(f) == Done(b)
    ensures LowerField(f) == Done(b) <==> LiftField(Some(b)) == Done(f) && |b| < 0x8000_0000
  {
    if PrintField(f) == Done(b) {
      ParsePrintedField([], f, []);
      assert [] + b + [] == b;
    }
    if LiftField(Some(b)) == Done(f) {
      PrintParsedField(b, 0);
      assert b[0..|b|] == b;
    }
  }

  lemma {:induction false} LiftSignatureInvertsLower(b: Bytes, s: Signature)
    ensures LiftSignature(Some(b)) == Done(s) <==> PrintBytes(s.bytes) == Done(b)
    ensures LowerSignature(s) == Done(b) <==> LiftSignature(Some(b)) == Done(s) && |b| < 0x8000_0000
  {
    LiftBytesInvertsLower(b, s.bytes);
  }

  /** A buffer lifts to a string iff it is the string lowered, or has no data and the string is empty;
      and a buffer lifts to a string iff its bytes, once length-prefixed, are read as that string. */
  lemma {:induction false} LiftStringInvertsLower(buf: Option<Bytes>, v: Bytes)
    requires buf.Some? ==> |buf.value| < 0x8000_0000
    ensures LiftString(buf) == Done(v)
            <==> IsText(v) && if buf.Some? then LowerString(v) == Done(buf.value) else v == []
    ensures buf.Some? && !IsText(buf.value) ==> LiftString(buf) == Trapped
    ensures var b := PrintBytes(if buf.Some? then buf.value else []);
            b.Done? && (LiftString(buf) == Done(v) <==> ParseString(b.value, 0) == Done(Parsed(v, |b.value|)))
  {
    assert ValidUtf8([]);
    hide ValidUtf8, IsText, ParseString, PrintInt32;
    var bytes := if buf.Some? then buf.value else [];
    var b := PrintBytes(bytes).value;
    ParsePrintedString([], bytes, []);
    ValidIffText(v);
    ValidIffText(bytes);
    assert [] + b + [] == b;
  }

  /** Lifting, case by case: no data traps, what reading throws or traps on is passed on, and a value
      that ends before the buffer does is thrown away as incomplete. */
  lemma {:induction false} LiftCases(b: Bytes)
    ensures LiftBytes(None) == Trapped && LiftField(None) == Trapped && LiftSignature(None) == Trapped
    ensures var r, l := ParseBytes(b, 0), LiftBytes(Some(b));
            if r.Thrown? then l == Thrown(r.error)
            else if r.Trapped? then l == Trapped
            else l == if r.value.end < |b| then Thrown(IncompleteData) else Done(r.value.value)
    ensures var r, l := ParseField(b, 0), LiftField(Some(b));
            if r.Thrown? then l == Thrown(r.error)
            else if r.Trapped? then l == Trapped
            else l == if r.value.end < |b| then Thrown(IncompleteData) else Done(r.value.value)
    ensures var r, l := LiftBytes(Some(b)), LiftSignature(Some(b));
            if r.Done? then l == Done(Signature(r.value)) else l.Thrown? == r.Thrown? && l.Trapped? == r.Trapped?
                                                               && (r.Thrown? ==> l == Thrown(r.error))
  {
    hide ParseBytes, ParseField;
  }

  /** Trailing bytes are always rejected. */
  lemma {:induction false} LiftRejectsTrailing(f: Field, v: Bytes, junk: Bytes)
    requires junk != []
    ensures PrintField(f).Done? ==> LiftField(Some(PrintField(f).value + junk)) == Thrown(IncompleteData)
    ensures PrintBytes(v).Done? ==> LiftBytes(Some(PrintBytes(v).value + junk)) == Thrown(IncompleteData)
  {
    hide ParseField, ParseBytes, PrintField, PrintBytes;
    if PrintField(f).Done? {
      ParsePrintedField([], f, junk);
      assert [] + PrintField(f).value + junk == PrintField(f).value + junk;
    }
    if PrintBytes(v).Done? {
      ParsePrintedBytes([], v, junk);
      assert [] + PrintBytes(v).value + junk == PrintBytes(v).value + junk;
    }
  }

  // ---------- readers ----------

  class ByteReader {
    const data: Bytes
    var offset: nat

    constructor (data: Bytes)
      ensures this.data == data && offset == 0
    {
      this.data := data;
      offset := 0;
    }

    method ReadInt32() returns (r: Outcome<Int32>)
      modifies this`offset
      ensures var p := ParseInt32(data, old(offset));
              if p.Done? then r == Done(p.value.value) && offset == p.value.end
              else r == Thrown(BufferOverflow) && offset == old(offset)
    {
      Power256Of4();
      if |data| < offset + 4 {
        return Thrown(BufferOverflow);
      }
      BigEndianOfFromBigEndian(data[offset..offset + 4]);
      var n := FromBigEndian(data[offset..offset + 4]);
      r := Done(if n >= 0x8000_0000 then n - U32_SIZE else n);
      offset := offset + 4;
    }

    method ReadUInt8() returns (r: Outcome<Byte>)
      modifies this`offset
      ensures if old(offset) < |data| then r == Done(data[old(offset)]) && offset == old(offset) + 1
              else r == Thrown(BufferOverflow) && offset == old(offset)
    {
      if |data| < offset + 1 {
        return Thrown(BufferOverflow);
      }
      r := Done(data[offset]);
      offset := offset + 1;
    }

    method ReadBytes(count: int) returns (r: Outcome<Bytes>)
      modifies this`offset
      ensures var p := TakeBytes(data, old(offset), count);
              if p.Done? then r == Done(p.value.value) && offset == p.value.end
              else offset == old(offset) && r == if p.Trapped? then Trapped else Thrown(p.error)
    {
      if count < 0 {
        return Trapped;
      }
      if |data| < offset + count {
        return Thrown(BufferOverflow);
      }
      r := Done(data[offset..offset + count]);
      offset := offset + count;
    }

    method ReadData() returns (r: Outcome<Bytes>)
      modifies this`offset
      ensures Reads(r, ParseBytes(data, old(offset)))
    {
      var len := ReadInt32();
      if len.Thrown? {
        return Thrown(len.error);
      }
      r := ReadBytes(len.value);
    }

    method ReadString() returns (r: Outcome<Bytes>)
      modifies this`offset
      ensures Reads(r, ParseString(data, old(offset)))
      ensures var p := ParseBytes(data, old(offset));
              p.Done? ==> r == if IsText(p.value.value) then Done(p.value.value) else Trapped
    {
      ParseStringCases(data, offset);
      r := ReadData();
      if r.Done? && !ValidUtf8(r.value) {
        r := Trapped;
      }
    }

    /** `[UInt8]` is read element by element. */
    method ReadSequence() returns (r: Outcome<Bytes>)
      modifies this`offset
      ensures Reads(r, ParseBytes(data, old(offset)))
    {
      var len := ReadInt32();
      if len.Thrown? {
        return Thrown(len.error);
      }
      if len.value < 0 {
        return Trapped;
      }
      var start := offset;
      var items: Bytes := [];
      for i := 0 to len.value
        invariant offset == start + i && start + i <= |data| && items == data[start..start + i]
      {
        var item := ReadUInt8();
        if item.Thrown? {
          return Thrown(item.error);
        }
        items := items + [item.value];
      }
      return Done(items);
    }

    method ReadField() returns (r: Outcome<Field>)
      modifies this`offset
      ensures var p := ParseField(data, old(offset));
              match p
              case Done(q) => r == Done(q.value) && offset == q.end
              case Thrown(e) => r == Thrown(e)
              case Trapped => r == Trapped
    {
      var c := ReadData();
      if c.Trapped? {
        return Trapped;
      }
      if c.Thrown? {
        return Thrown(c.error);
      }
      var iv := ReadData();
      match iv
      case Trapped => return Trapped;
      case Thrown(e) => return Thrown(e);
      case Done(i) => return Done(Field(c.value, i));
    }

    /** A method that reads gives what the parser finds and has moved behind it. */
    ghost predicate Reads(r: Outcome<Bytes>, p: Outcome<Parsed<Bytes>>)
      reads this
    {
      match p
      case Done(q) => r == Done(q.value) && offset == q.end
      case Thrown(e) => r == Thrown(e)
      case Trapped => r == Trapped
    }
  }

  // ---------- writers ----------

  /** The growing output; a writer that returns false has stopped the program. */
  class ByteWriter {
    var bytes: Bytes

    constructor ()
      ensures bytes == []
    {
      bytes := [];
    }

    method WriteInt32(value: Int32)
      modifies this
      ensures bytes == old(bytes) + PrintInt32(value)
    {
      bytes := bytes + BigEndian(if value < 0 then value + U32_SIZE else value, 4);
    }

    method WriteUInt8(value: Byte)
      modifies this
      ensures bytes == old(bytes) + [value]
    {
      bytes := bytes + [value];
    }

    method WriteData(value: Bytes) returns (ok: bool)
      modifies this
      ensures ok == PrintBytes(value).Done?
      ensures ok ==> bytes == old(bytes) + PrintBytes(value).value
    {
      if |value| >= 0x8000_0000 {
        return false;
      }
      WriteInt32(|value|);
      bytes := bytes + value;
      return true;
    }

    method WriteString(utf8: Bytes) returns (ok: bool)
      modifies this
      ensures ok == PrintBytes(utf8).Done?
      ensures ok ==> bytes == old(bytes) + PrintBytes(utf8).value
    {
      if |utf8| >= 0x8000_0000 {
        return false;
      }
      WriteInt32(|utf8|);
      bytes := bytes + utf8;
      return true;
    }

    /** `[UInt8]` is written element by element, to the same bytes. */
    method WriteSequence(value: Bytes) returns (ok: bool)
      modifies this
      ensures ok == PrintBytes(value).Done?
      ensures ok ==> bytes == old(bytes) + PrintBytes(value).value
    {
      if |value| >= 0x8000_0000 {
        return false;
      }
      WriteInt32(|value|);
      for i := 0 to |value|
        invariant bytes == old(bytes) + PrintInt32(|value|) + value[..i]
      {
        WriteUInt8(value[i]);
      }
      return true;
    }

    method WriteField(value: Field) returns (ok: bool)
      modifies this
      ensures ok == PrintField(value).Done?
      ensures ok ==> bytes == old(bytes) + PrintField(value).value
    {
      ok := WriteData(value.ciphertext);
      if ok {
        ok := WriteData(value.iv);
      }
    }
  }

  method LowerFieldTo(value: Field) returns (r: Outcome<Bytes>)
    ensures r == LowerField(value)
  {
    var w := new ByteWriter();
    var ok := w.WriteField(value);
    if !ok {
      return Trapped;
    }
    assert w.bytes == [] + PrintField(value).value == PrintField(value).value;
    return Handed(w.bytes);
  }

  method LiftFieldFrom(buf: Option<Bytes>) returns (r: Outcome<Field>)
    ensures r == LiftField(buf)
  {
    if buf.None? {
      return Trapped;
    }
    var reader := new ByteReader(buf.value);
    r := reader.ReadField();
    if r.Done? && reader.offset < |reader.data| {
      r := Thrown(IncompleteData);
    }
  }
}
