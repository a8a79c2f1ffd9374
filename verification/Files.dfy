/** The operating system seen from the file codec: readers with short reads, buffered writers, and
    a file system with a volatile and a durable side. Every failure is decided by a schedule. */
module Files {
  import opened ByteStrings

  // ---------- paths ----------

  /** A path: its parent and, unless it ends in `..` or a root, its file name. */
  datatype Path = Path(parent: string, name: Option<string>)

  type Suffix = b: Bytes | |b| == 8 witness [0, 0, 0, 0, 0, 0, 0, 0]

  /** A digit of `0`-`9` or `a`-`f`. */
  function HexDigit(n: nat): char
    requires n < 16
  {
    if n < 10 then (48 + n) as char else (87 + n) as char
  }

  lemma {:induction false} HexDigitInjective(m: nat, n: nat)
    requires m < 16 && n < 16
    ensures HexDigit(m) == HexDigit(n) <==> m == n
  {
  }

  /** `{:016x}` of the big-endian integer: two digits for each byte. */
  function Hex(b: Bytes): (s: string)
    ensures |s| == 2 * |b|
  {
    if b == [] then "" else [HexDigit(b[0] / 16), HexDigit(b[0] % 16)] + Hex(b[1..])
  }

  function TempName(name: string, suffix: Suffix): string {
    name + "." + Hex(suffix) + ".part"
  }

  lemma {:induction false} HexInjective(b: Bytes, c: Bytes)
    requires Hex(b) == Hex(c)
    ensures b == c
  {
    if b != [] {
      assert Hex(b)[0] == Hex(c)[0] && Hex(b)[1] == Hex(c)[1];
      hide HexDigit;
      HexDigitInjective(b[0] / 16, c[0] / 16);
      HexDigitInjective(b[0] % 16, c[0] % 16);
      assert Hex(b)[2..] == Hex(b[1..]) && Hex(c)[2..] == Hex(c[1..]);
      HexInjective(b[1..], c[1..]);
    }
  }

  lemma {:induction false} TempNameInjective(m: string, x: Suffix, n: string, y: Suffix)
    requires TempName(m, x) == TempName(n, y)
    ensures m == n && x == y
  {
    SplitEqual(m + "." + Hex(x), n + "." + Hex(y), ".part", ".part");
    SplitEqual(m + ".", n + ".", Hex(x), Hex(y));
    SplitEqual(m, n, ".", ".");
    HexInjective(x, y);
  }

  /** `sibling_temp_path`: the suffix is drawn first, then the file name is needed. */
  function SiblingTemp(output: Path, suffix: Option<Suffix>): Result<Path> {
    if suffix.None? then Err(Randomness)
    else if output.name.None? then Err(Io)
    else Ok(output.(name := Some(TempName(output.name.value, suffix.value))))
  }

  /** The temp path is beside the output: same directory, and behind the output's name the sixteen
      lower-case hexadecimal digits of the suffix between "." and ".part". Without a suffix the error is
      `Randomness`, and then without a file name `Io`. */
  lemma {:induction false} TempIsSibling(output: Path, suffix: Option<Suffix>)
    ensures var t := SiblingTemp(output, suffix);
            if suffix.None? then t == Err(Randomness)
            else if output.name.None? then t == Err(Io)
            else
              && t.Ok? && t.value.parent == output.parent && t.value.name.Some?
              && exists digits: string ::
                   && t.value.name.value == output.name.value + "." + digits + ".part" && |digits| == 16
                   && forall k :: 0 <= k < 8 ==>
                        && digits[2 * k] == "0123456789abcdef"[suffix.value[k] / 16]
                        && digits[2 * k + 1] == "0123456789abcdef"[suffix.value[k] % 16]
  {
    if suffix.Some? && output.name.Some? {
      var digits := Hex(suffix.value);
      forall k | 0 <= k < 8
        ensures digits[2 * k] == "0123456789abcdef"[suffix.value[k] / 16]
        ensures digits[2 * k + 1] == "0123456789abcdef"[suffix.value[k] % 16]
      {
        HexAt(suffix.value, k);
        HexDigits(suffix.value[k] / 16);
        HexDigits(suffix.value[k] % 16);
      }
      assert SiblingTemp(output, suffix).value.name.value == output.name.value + "." + digits + ".part";
    }
  }

  lemma {:induction false} HexDigits(n: nat)
    requires n < 16
    ensures HexDigit(n) == "0123456789abcdef"[n]
  {
  }

  lemma {:induction false} HexAt(b: Bytes, k: nat)
    requires k < |b|
    ensures Hex(b)[2 * k] == HexDigit(b[k] / 16) && Hex(b)[2 * k + 1] == HexDigit(b[k] % 16)
  {
    hide HexDigit;
    if k > 0 {
      HexAt(b[1..], k - 1);
    }
  }

  /** Two calls get the same temp path only for the same output and suffix. */
  lemma {:induction false} SiblingTempInjective(o: Path, x: Option<Suffix>, o': Path, x': Option<Suffix>)
    requires SiblingTemp(o, x).Ok? && SiblingTemp(o', x').Ok?
    ensures SiblingTemp(o, x) == SiblingTemp(o', x') <==> o == o' && x == x'
  {
    if SiblingTemp(o, x) == SiblingTemp(o', x') {
      TempNameInjective(o.name.value, x.value, o'.name.value, x'.value);
    }
  }

  // ---------- the file system ----------

  /** A file: its contents, of which the first `durable` bytes are sure to survive a crash. */
  datatype Inode = Inode(data: Bytes, durable: nat)

  datatype Fs = Fs(dir: map<Path, nat>, nodes: map<nat, Inode>, next: nat) {
    /** Entries name existing files, and `next` is unused. */
    ghost predicate WellFormed() {
      && (forall p :: p in dir ==> dir[p] in nodes)
      && (forall n :: n in nodes ==> n < next)
    }

    function Data(n: nat): Bytes {
      if n in nodes then nodes[n].data else []
    }

    /** What reading the file at `p` yields, nothing if there is none. */
    function Content(p: Path): Bytes {
      if p in dir then Data(dir[p]) else []
    }

    /** The file that `File::create` opens: an existing one, or a new one. */
    function CreatedAs(p: Path): nat {
      if p in dir then dir[p] else next
    }

    /** `File::create`: the file at `p` is emptied, or made. */
    function Create(p: Path): Fs {
      if p in dir then this.(nodes := nodes[dir[p] := Inode([], 0)])
      else Fs(dir[p := next], nodes[next := Inode([], 0)], next + 1)
    }

    /** Of all that was handed to a buffered writer, at least `k` bytes have reached the file. */
    function Drain(n: nat, written: Bytes, k: nat): Fs {
      if n in nodes && |nodes[n].data| < k <= |written|
      then this.(nodes := nodes[n := nodes[n].(data := written[..k])])
      else this
    }

    function Sync(n: nat): Fs {
      if n in nodes then this.(nodes := nodes[n := nodes[n].(durable := |nodes[n].data|)]) else this
    }

    /** Atomic replacement of the entry `q` by the entry `p`. */
    function Rename(p: Path, q: Path): Fs {
      if p in dir then this.(dir := (dir - {p})[q := dir[p]]) else this
    }

    function Remove(p: Path): Fs {
      this.(dir := dir - {p})
    }
  }

  // ---------- reading ----------

  datatype Choice = Goes(n: nat) | Fails(n: nat)

  type Schedule = nat -> Choice

  ghost predicate NoFailures(s: Schedule) {
    forall t :: s(t).Goes?
  }

  function Min(x: int, y: int): int {
    if x < y then x else y
  }

  function Max(x: int, y: int): int {
    if x < y then y else x
  }

  /** An open file. A call to `read` may deliver any number of bytes from one up to what was asked
      and what is left; it delivers none only at the end; or it fails. */
  class Reader {
    const data: Bytes
    const schedule: Schedule
    var pos: nat
    var calls: nat

    ghost predicate Valid()
      reads this
    {
      pos <= |data|
    }

    constructor (data: Bytes, schedule: Schedule)
      ensures Valid() && pos == 0 && calls == 0 && this.data == data && this.schedule == schedule
    {
      this.data := data;
      this.schedule := schedule;
      pos := 0;
      calls := 0;
    }

    /** One `read` into the buffer from index `at` on. */
    method Read(buf: array<Byte>, at: nat) returns (r: Result<nat>)
      requires Valid() && at < buf.Length
      modifies this`pos, this`calls, buf
      ensures Valid() && calls == old(calls) + 1
      ensures r.Ok? <==> schedule(old(calls)).Goes?
      ensures r.Err? ==> r == Err(Io) && pos == old(pos) && buf[..] == old(buf[..])
      ensures r.Ok? ==>
                && r.value == Min(Max(schedule(old(calls)).n, 1), Min(buf.Length - at, |data| - old(pos)))
                && pos == old(pos) + r.value
                && buf[..at] == old(buf[..at]) && buf[at..at + r.value] == data[old(pos)..pos]
                && buf[at + r.value..] == old(buf[at + r.value..])
    {
      var c := schedule(calls);
      calls := calls + 1;
      if c.Fails? {
        return Err(Io);
      }
      var n := Min(Max(c.n, 1), Min(buf.Length - at, |data| - pos));
      forall i | 0 <= i < n {
        buf[at + i] := data[pos + i];
      }
      pos := pos + n;
      return Ok(n);
    }
  }

  /** `read_full`: whatever the schedule of short reads, the loop ends with the buffer full or the
      input at its end, and the front of the buffer is the next part of the input. */
  method ReadFull(r: Reader, buf: array<Byte>) returns (res: Result<nat>)
    requires r.Valid()
    modifies r`pos, r`calls, buf
    ensures r.Valid() && r.calls >= old(r.calls)
    ensures res.Ok? ==>
              && res.value == Min(buf.Length, |r.data| - old(r.pos))
              && r.pos == old(r.pos) + res.value
              && buf[..res.value] == r.data[old(r.pos)..r.pos]
    ensures res.Err? ==> res == Err(Io)
    ensures res.Ok? <==> forall t :: old(r.calls) <= t < r.calls ==> r.schedule(t).Goes?
  {
    var filled := 0;
    while filled < buf.Length
      invariant r.Valid() && r.calls >= old(r.calls) && filled <= buf.Length
      invariant r.pos == old(r.pos) + filled
      invariant buf[..filled] == r.data[old(r.pos)..r.pos]
      invariant forall t :: old(r.calls) <= t < r.calls ==> r.schedule(t).Goes?
      decreases buf.Length - filled
    {
      ghost var q := r.pos;
      var k := r.Read(buf, filled);
      if k.Err? {
        return Err(k.error);
      }
      if k.value == 0 {
        break;
      }
      assert buf[..filled + k.value] == buf[..filled] + buf[filled..filled + k.value];
      assert r.data[old(r.pos)..r.pos] == r.data[old(r.pos)..q] + r.data[q..r.pos];
      filled := filled + k.value;
    }
    return Ok(filled);
  }

  // ---------- writing ----------

  class Disk {
    var fs: Fs
    /** Decides every operation but reads, in turn. */
    const schedule: Schedule
    /** The schedule of the readers it hands out. */
    const readSchedule: Schedule
    var clock: nat

    constructor (fs: Fs, schedule: Schedule, readSchedule: Schedule)
      ensures this.fs == fs && this.schedule == schedule && this.readSchedule == readSchedule && clock == 0
    {
      this.fs := fs;
      this.schedule := schedule;
      this.readSchedule := readSchedule;
      clock := 0;
    }

    method Tick() returns (c: Choice)
      modifies this`clock
      ensures c == schedule(old(clock)) && clock == old(clock) + 1
    {
      c := schedule(clock);
      clock := clock + 1;
    }

    method Open(p: Path) returns (r: Result<Reader>)
      modifies this`clock
      ensures r.Ok? <==> schedule(old(clock)).Goes? && p in fs.dir
      ensures r.Ok? ==> fresh(r.value) && r.value.Valid() && r.value.pos == 0 && r.value.data == fs.Data(fs.dir[p])
                        && r.value.schedule == readSchedule
      ensures r.Err? ==> r == Err(Io)
    {
      var c := Tick();
      if c.Fails? || p !in fs.dir {
        return Err(Io);
      }
      var reader := new Reader(fs.Data(fs.dir[p]), readSchedule);
      return Ok(reader);
    }

    method Create(p: Path) returns (r: Result<FileWriter>)
      modifies this
      ensures r.Ok? <==> schedule(old(clock)).Goes?
      ensures r.Ok? ==> fresh(r.value) && r.value.disk == this && r.value.written == []
                        && r.value.fd == old(fs.CreatedAs(p)) && fs == old(fs.Create(p))
      ensures r.Err? ==> r == Err(Io) && fs == old(fs)
    {
      var c := Tick();
      if c.Fails? {
        return Err(Io);
      }
      var w := new FileWriter(this, fs.CreatedAs(p));
      fs := fs.Create(p);
      return Ok(w);
    }

    method Rename(p: Path, q: Path) returns (ok: bool)
      modifies this
      ensures ok == schedule(old(clock)).Goes?
      ensures fs == if ok then old(fs).Rename(p, q) else old(fs)
    {
      var c := Tick();
      ok := c.Goes?;
      if ok {
        fs := fs.Rename(p, q);
      }
    }

    method Remove(p: Path) returns (ok: bool)
      modifies this
      ensures clock == old(clock) + 1
      ensures ok == schedule(old(clock)).Goes?
      ensures fs == if ok then old(fs).Remove(p) else old(fs)
    {
      var c := Tick();
      ok := c.Goes?;
      if ok {
        fs := fs.Remove(p);
      }
    }
  }

  /** A `BufWriter` over a file: `written` is all it was given, some of which is still in memory. */
  class FileWriter {
    const disk: Disk
    const fd: nat
    var written: Bytes

    constructor (disk: Disk, fd: nat)
      ensures this.disk == disk && this.fd == fd && written == []
    {
      this.disk := disk;
      this.fd := fd;
      written := [];
    }

    /** An arbitrary part of the data reaches the file, even of a write that fails. */
    method WriteAll(data: Bytes) returns (ok: bool)
      modifies this, disk
      ensures ok == disk.schedule(old(disk.clock)).Goes?
      ensures written == old(written) + data
      ensures disk.fs == old(disk.fs).Drain(fd, written, disk.schedule(old(disk.clock)).n)
    {
      var c := disk.Tick();
      written := written + data;
      disk.fs := disk.fs.Drain(fd, written, c.n);
      ok := c.Goes?;
    }

    method Flush() returns (ok: bool)
      modifies disk
      ensures ok == disk.schedule(old(disk.clock)).Goes?
      ensures disk.fs == old(disk.fs).Drain(fd, written, if ok then |written| else disk.schedule(old(disk.clock)).n)
    {
      var c := disk.Tick();
      ok := c.Goes?;
      disk.fs := disk.fs.Drain(fd, written, if ok then |written| else c.n);
    }

    method SyncAll() returns (ok: bool)
      modifies disk
      ensures ok == disk.schedule(old(disk.clock)).Goes?
      ensures disk.fs == if ok then old(disk.fs).Sync(fd) else old(disk.fs)
    {
      var c := disk.Tick();
      ok := c.Goes?;
      if ok {
        disk.fs := disk.fs.Sync(fd);
      }
    }

    /** Going out of scope: a last attempt to write out the buffer, of unknown success. */
    method Drop()
      modifies disk
      ensures disk.fs == old(disk.fs).Drain(fd, written, disk.schedule(old(disk.clock)).n)
    {
      var c := disk.Tick();
      disk.fs := disk.fs.Drain(fd, written, c.n);
    }
  }
}
