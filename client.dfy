/** The `client` type: a connection to data block 1 of a LOGO! controller.

    The controller's block is modelled as the byte sequence `db`, which the
    block accesses `AGReadDB`/`AGWriteDB` copy from and replace; `log`
    records every such access, in order. The buffers the client allocates
    and fills (`make([]byte, size)`) are arrays. Each operation is proved to
    do to `db` and `log` exactly what its definition in `Effects` says. */
module Client {
  import opened Wrappers
  import opened DataTypes
  import opened Address
  import opened Codec
  import opened Effects

  /** `SetValueAt(buf[pos:], 0, v)` for a value whose image is `data`:
      Go's `copy` of the image into the slice from `pos` on. */
  method SetValueAt(buf: array<u8>, pos: nat, data: seq<u8>)
    requires pos <= buf.Length
    modifies buf
    ensures buf[..] == old(buf[..pos]) + CopyInto(old(buf[pos..]), data)
  {
    ghost var before := buf[..];
    var n := if |data| < buf.Length - pos then |data| else buf.Length - pos;
    forall j | 0 <= j < n {
      buf[pos + j] := data[j];
    }
    assert buf[..] == before[..pos] + CopyInto(before[pos..], data);
  }

  /** `make([]byte, n)`: a fresh buffer of `n` zero bytes. */
  method ZeroBuffer(n: nat) returns (buf: array<u8>)
    ensures fresh(buf) && buf[..] == Zeros(n)
  {
    buf := new u8[n](_ => 0);
    assert buf[..] == Zeros(n);
  }

  /** The `error` a Go call returns for an outcome: nil on success. */
  function ErrorOf<T>(r: Result<T>): (err: Option<Error>)
    ensures err.None? <==> r.Ok?
    ensures err.Some? ==> err.value == r.error
  {
    if r.Ok? then None else Some(r.error)
  }

  class Client {
    /** The `float32` conversions of the Real type. */
    const conv: RealConv
    /** Data block 1 of the controller. */
    var db: seq<u8>
    /** The block accesses made so far. */
    ghost var log: seq<Io>

    /** A client on a block with the given contents (the connection set-up
        of `NewClient` is not modelled). */
    constructor (contents: seq<u8>, conv: RealConv)
      ensures db == contents && log == [] && this.conv == conv
    {
      this.conv := conv;
      db := contents;
      log := [];
    }

    /** `AGReadDB(1, start, size, buf[at:])`: copies `size` bytes of the
        block at `start` into `buf` from `at` on; a range that leaves the
        block is refused and `buf` is left alone. */
    method ReadDB(start: nat, size: nat, buf: array<u8>, at: nat) returns (err: Option<Error>)
      requires at + size <= buf.Length
      modifies buf, this`log
      ensures log == old(log) + [ReadOp(start, size)]
      ensures var r := ReadBlock(db, start, size);
        && err == ErrorOf(r)
        && buf[..] == if r.Ok? then old(buf[..at]) + r.value + old(buf[at + size..]) else old(buf[..])
    {
      log := log + [ReadOp(start, size)];
      if start + size > |db| {
        return Some(OutOfBlock);
      }
      ghost var before := buf[..];
      forall j | 0 <= j < size {
        buf[at + j] := db[start + j];
      }
      assert buf[..] == before[..at] + db[start..start + size] + before[at + size..];
      err := None;
    }

    /** `AGWriteDB(1, start, len(buf), buf)`: stores all of `buf` in the
        block at `start`; a range that leaves the block is refused and the
        block is left alone. */
    method WriteDB(start: nat, buf: array<u8>) returns (err: Option<Error>)
      modifies this`db, this`log
      ensures log == old(log) + [WriteOp(start, buf[..])]
      ensures var r := WriteBlock(old(db), start, buf[..]);
        && err == ErrorOf(r)
        && db == if r.Ok? then r.value else old(db)
    {
      log := log + [WriteOp(start, buf[..])];
      if start + buf.Length > |db| {
        return Some(OutOfBlock);
      }
      db := db[..start] + buf[..] + db[start + buf.Length..];
      err := None;
    }

    /** `writeToBuffer(addr, buf[at:], value)`. */
    method WriteToBuffer(a: VmAddr, buf: array<u8>, at: nat, value: u32) returns (err: Option<Error>)
      requires at <= buf.Length
      requires a.dataType == Bit ==> at < buf.Length
      modifies buf, this`log
      ensures var p := BufferEffect(db, a, old(buf[at..]), value, conv);
        && log == old(log) + p.io
        && err == ErrorOf(p.result)
        && buf[..] == if p.result.Ok? then old(buf[..at]) + p.result.value else old(buf[..])
    {
      var t := a.dataType;
      if t == Bit {
        err := ReadDB(a.byte, 1, buf, at);
        if err.Some? {
          return;
        }
        buf[at] := SetBitAsWritten(buf[at], a.bit, value);
        assert buf[..] == old(buf[..at]) + ([SetBitAsWritten(db[a.byte], a.bit, value)] + old(buf[at..])[1..]);
      } else if IsKnown(t) {
        SetValueAt(buf, at, ValueBytes(t, value, conv));
        err := None;
      } else {
        err := Some(UnknownDataType);
      }
    }

    /** `Read(addr)`: one block read of the address's `Size` bytes, decoded. */
    method Read(a: VmAddr) returns (r: Result<u32>)
      modifies this`log
      ensures var e := ReadEffect(db, a, conv);
        r == e.result && log == old(log) + e.io
    {
      var size := Size(a.dataType);
      var buff := ZeroBuffer(size);
      var err := ReadDB(a.byte, size, buff, 0);
      if err.Some? {
        return Err(err.value);
      }
      assert buff[..] == db[a.byte..a.byte + size];
      r := Decode(a, buff[..], conv);
    }

    /** `Write(addr, value)`: fills a zeroed buffer of the address's `Size`
        bytes, then writes it to the block at the address. */
    method Write(a: VmAddr, value: u32) returns (err: Option<Error>)
      modifies this`db, this`log
      ensures var e := WriteEffect(old(db), a, value, conv);
        && log == old(log) + e.io
        && err == ErrorOf(e.result)
        && db == if e.result.Ok? then e.result.value else old(db)
    {
      var size := Size(a.dataType);
      var buff := ZeroBuffer(size);
      assert buff[..0] == [];
      ghost var p := BufferEffect(db, a, Zeros(size), value, conv);
      err := WriteToBuffer(a, buff, 0, value);
      if err.Some? {
        return;
      }
      assert buff[..] == p.result.value;
      AppendAssoc(old(log), p.io, [WriteOp(a.byte, p.result.value)]);
      err := WriteDB(a.byte, buff);
    }

    /** `WriteMany(args...)`: reads the window from the smallest to the
        largest offset, patches it entry by entry, and writes it back. */
    method WriteMany(args: seq<VmAddrValue>) returns (err: Option<Error>)
      modifies this`db, this`log
      ensures var e := WriteManyEffect(old(db), args, conv);
        && log == old(log) + e.io
        && err == ErrorOf(e.result)
        && db == if e.result.Ok? then e.result.value else old(db)
    {
      if |args| == 0 {
        return Some(EmptyArgs);
      }
      var minByte := MinByte(args);
      var maxByte := MaxByte(args);
      var size: nat := (maxByte - minByte) as nat + 1;
      assert minByte == MinByte(args) && size == WindowSize(args);
      err := WriteWindow(args, minByte, size);
    }

    /** The rest of `WriteMany` on the window of `size` bytes at `lo`: one
        block read of the window, the patches, one block write of it. */
    method WriteWindow(args: seq<VmAddrValue>, lo: nat, size: nat) returns (err: Option<Error>)
      requires InWindow(args, lo, size)
      modifies this`db, this`log
      ensures var e := Batch(old(db), args, lo, size, conv);
        && log == old(log) + e.io
        && err == ErrorOf(e.result)
        && db == if e.result.Ok? then e.result.value else old(db)
    {
      var buff := ZeroBuffer(size);
      assert buff[..0] == [] && buff[size..] == [];
      err := ReadDB(lo, size, buff, 0);
      if err.Some? {
        return;
      }
      assert buff[..] == db[lo..lo + size];
      ghost var window := buff[..];
      ghost var p := PatchAll(db, window, lo, args, conv);
      AppendAssoc(old(log), [ReadOp(lo, size)], p.io);
      err := PatchWindow(args, lo, buff);
      if err.Some? {
        return;
      }
      assert buff[..] == p.result.value;
      AppendAssoc(old(log), [ReadOp(lo, size)] + p.io, [WriteOp(lo, p.result.value)]);
      err := WriteDB(lo, buff);
    }

    /** The loop of `WriteMany`: `writeToBuffer(val.VmAddr, buff[offset:],
        val.Value)` for every entry in argument order, stopping at the
        first error. */
    method PatchWindow(args: seq<VmAddrValue>, lo: nat, buff: array<u8>) returns (err: Option<Error>)
      requires InWindow(args, lo, buff.Length)
      modifies buff, this`log
      ensures var p := PatchAll(db, old(buff[..]), lo, args, conv);
        && log == old(log) + p.io
        && err == ErrorOf(p.result)
        && (p.result.Ok? ==> buff[..] == p.result.value)
    {
      ghost var window := buff[..];
      assert args[..0] == [];
      var i := 0;
      while i < |args|
        invariant 0 <= i <= |args|
        invariant InWindow(args[..i], lo, buff.Length)
        invariant PatchAll(db, window, lo, args[..i], conv).result == Ok(buff[..])
        invariant log == old(log) + PatchAll(db, window, lo, args[..i], conv).io
      {
        PatchAllSnoc(db, window, lo, args, i, conv);
        ghost var prev := PatchAll(db, window, lo, args[..i], conv);
        ghost var q := PatchOne(db, prev.result.value, lo, args[i], conv);
        AppendAssoc(old(log), prev.io, q.io);
        err := PatchEntry(args[i], lo, buff);
        if err.Some? {
          PatchAllStops(db, window, lo, args, i + 1, conv);
          return;
        }
        i := i + 1;
      }
      assert args[..i] == args;
      err := None;
    }

    /** One turn of that loop: `writeToBuffer(val.VmAddr, buff[offset:],
        val.Value)` with the entry's offset in the window. */
    method PatchEntry(e: VmAddrValue, lo: nat, buff: array<u8>) returns (err: Option<Error>)
      requires lo <= e.addr.byte < lo + buff.Length
      modifies buff, this`log
      ensures var q := PatchOne(db, old(buff[..]), lo, e, conv);
        && log == old(log) + q.io
        && err == ErrorOf(q.result)
        && (q.result.Ok? ==> buff[..] == q.result.value)
    {
      var offset := e.addr.byte - lo;
      err := WriteToBuffer(e.addr, buff, offset, e.value);
    }
  }

  lemma AppendAssoc<T>(a: seq<T>, b: seq<T>, c: seq<T>)
    ensures a + (b + c) == a + b + c
  {
  }

  /** One more turn of the loop: entry `i` patches what the first `i`
      entries left. */
  lemma PatchAllSnoc(db: seq<u8>, buf: seq<u8>, lo: nat, args: seq<VmAddrValue>, i: nat, conv: RealConv)
    requires InWindow(args, lo, |buf|) && i < |args|
    requires InWindow(args[..i], lo, |buf|)
    requires PatchAll(db, buf, lo, args[..i], conv).result.Ok?
    ensures InWindow(args[..i + 1], lo, |buf|)
    ensures var prev := PatchAll(db, buf, lo, args[..i], conv);
      var q := PatchOne(db, prev.result.value, lo, args[i], conv);
      PatchAll(db, buf, lo, args[..i + 1], conv) == Traced(q.result, prev.io + q.io)
  {
    assert args[..i + 1][..i] == args[..i];
  }

  /** Once the loop has failed on a prefix, the rest of the batch changes
      nothing. */
  lemma {:induction false} PatchAllStops(db: seq<u8>, buf: seq<u8>, lo: nat, args: seq<VmAddrValue>, n: nat, conv: RealConv)
    requires InWindow(args, lo, |buf|) && n <= |args|
    requires PatchAll(db, buf, lo, args[..n], conv).result.Err?
    ensures PatchAll(db, buf, lo, args, conv) == PatchAll(db, buf, lo, args[..n], conv)
    decreases |args|
  {
    if n < |args| {
      var init := args[..|args| - 1];
      assert init[..n] == args[..n];
      PatchAllStops(db, buf, lo, init, n, conv);
    } else {
      assert args[..n] == args;
    }
  }
}
