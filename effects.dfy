/** What `Read`, `Write` and `WriteMany` do to data block 1, stated on
    values: the block is a byte sequence, and every operation returns its
    outcome together with the block accesses (`AGReadDB`/`AGWriteDB` calls)
    it issued, in order. The client class is proved to follow these
    definitions; the properties of the client are proved here. */
module Effects {
  import opened Wrappers
  import opened DataTypes
  import opened Address
  import opened Codec

  /** One block access: a read of `size` bytes or a write of `data`, both
      at byte `start` of DB 1. */
  datatype Io = ReadOp(start: nat, size: nat) | WriteOp(start: nat, data: seq<u8>)

  /** An outcome together with the block accesses made to reach it. */
  datatype Traced<T> = Traced(result: Result<T>, io: seq<Io>)

  /** `AGReadDB(1, start, size, buf)`: the bytes at `start`; a range that
      leaves the block is refused. */
  function ReadBlock(db: seq<u8>, start: nat, size: nat): (r: Result<seq<u8>>)
    ensures r.Ok? <==> start + size <= |db|
    ensures r.Ok? ==> |r.value| == size
    ensures r.Err? ==> r.error == OutOfBlock
  {
    if start + size <= |db| then Ok(db[start..start + size]) else Err(OutOfBlock)
  }

  /** `AGWriteDB(1, start, len(data), data)`: the block with `data` stored at
      `start`; a range that leaves the block is refused. */
  function WriteBlock(db: seq<u8>, start: nat, data: seq<u8>): (r: Result<seq<u8>>)
    ensures r.Ok? <==> start + |data| <= |db|
    ensures r.Ok? ==> |r.value| == |db|
    ensures r.Err? ==> r.error == OutOfBlock
  {
    if start + |data| <= |db| then Ok(db[..start] + data + db[start + |data|..]) else Err(OutOfBlock)
  }

  /** The bytes a successful read returns are the block's. */
  lemma ReadBlockBytes(db: seq<u8>, start: nat, size: nat)
    requires start + size <= |db|
    ensures forall j | 0 <= j < size :: ReadBlock(db, start, size).value[j] == db[start + j]
  {
  }

  /** A successful write stores `data` at `start` and keeps the rest. */
  lemma WriteBlockBytes(db: seq<u8>, start: nat, data: seq<u8>)
    requires start + |data| <= |db|
    ensures forall j | 0 <= j < |db| ::
      WriteBlock(db, start, data).value[j] == if start <= j < start + |data| then data[j - start] else db[j]
  {
  }

  function Zeros(n: nat): (z: seq<u8>)
    ensures |z| == n
  {
    seq(n, _ => 0)
  }

  /** What `writeToBuffer(addr, buf, value)` does: the new contents of the slice
      `buf`. A Bit address first reads its byte from the block into
      `buf[0]`, then ORs or clears the bit number in it; the other types
      copy their value's image to the front of `buf`; an unknown type is an
      error that leaves `buf` alone. */
  function BufferEffect(db: seq<u8>, a: VmAddr, buf: seq<u8>, value: u32, conv: RealConv): (r: Traced<seq<u8>>)
    requires a.dataType == Bit ==> |buf| >= 1
    ensures r.result.Ok? ==> |r.result.value| == |buf|
    ensures r.result.Err? <==> !IsKnown(a.dataType) || (a.dataType == Bit && a.byte >= |db|)
    ensures r.io == if a.dataType == Bit then [ReadOp(a.byte, 1)] else []
  {
    var t := a.dataType;
    if t == Bit then
      match ReadBlock(db, a.byte, 1)
      case Err(e) => Traced(Err(e), [ReadOp(a.byte, 1)])
      case Ok(cur) => Traced(Ok([SetBitAsWritten(cur[0], a.bit, value)] + buf[1..]), [ReadOp(a.byte, 1)])
    else if IsKnown(t) then Traced(Ok(CopyInto(buf, ValueBytes(t, value, conv))), [])
    else Traced(Err(UnknownDataType), [])
  }

  /** `Read(addr)`: one block read of `Size` bytes at the address, decoded. */
  function ReadEffect(db: seq<u8>, a: VmAddr, conv: RealConv): (r: Traced<u32>)
    ensures r.io == [ReadOp(a.byte, Size(a.dataType))]
    ensures r.result.Ok? <==> IsKnown(a.dataType) && a.byte + Size(a.dataType) <= |db|
  {
    var size := Size(a.dataType);
    match ReadBlock(db, a.byte, size)
    case Err(e) => Traced(Err(e), [ReadOp(a.byte, size)])
    case Ok(buff) => Traced(Decode(a, buff, conv), [ReadOp(a.byte, size)])
  }

  /** `Write(addr, value)`: fill a zeroed buffer of `Size` bytes, then one
      block write of it at the address. The result is the new block. */
  function WriteEffect(db: seq<u8>, a: VmAddr, value: u32, conv: RealConv): (r: Traced<seq<u8>>)
    ensures r.result.Ok? ==> |r.result.value| == |db|
  {
    var size := Size(a.dataType);
    var p := BufferEffect(db, a, Zeros(size), value, conv);
    if p.result.Err? then Traced(Err(p.result.error), p.io)
    else Traced(WriteBlock(db, a.byte, p.result.value), p.io + [WriteOp(a.byte, p.result.value)])
  }

  /** Writing a Byte, Word, Counter, Timer or DWord issues no read and one
      write of the value's `Size`-byte image at the address; it succeeds
      exactly when those bytes lie in the block, and reading the address
      afterwards gives the value modulo 2^(8 * Size). */
  lemma WriteThenRead(db: seq<u8>, a: VmAddr, value: u32, conv: RealConv)
    requires IsKnown(a.dataType) && a.dataType != Bit && a.dataType != Real
    ensures var w := WriteEffect(db, a, value, conv);
      && w.io == [WriteOp(a.byte, ValueBytes(a.dataType, value, conv))]
      && (w.result.Ok? <==> a.byte + Size(a.dataType) <= |db|)
      && (w.result.Ok? ==> ReadEffect(w.result.value, a, conv).result == Ok(value % Pow256(Size(a.dataType))))
  {
    var t := a.dataType;
    var size := Size(t);
    var b := ValueBytes(t, value, conv);
    assert CopyInto(Zeros(size), b) == b;
    var w := WriteEffect(db, a, value, conv);
    if w.result.Ok? {
      var db' := w.result.value;
      assert db'[a.byte..a.byte + size] == b;
      DecodeValueBytes(a, value, conv, []);
      assert b + [] == b;
    }
  }

  /** A block holding the image of a Byte, Word, Counter, Timer or DWord
      value at an address reads back, at that address, as the value modulo
      2^(8 * Size). */
  lemma ReadImage(db: seq<u8>, a: VmAddr, value: u32, conv: RealConv)
    requires IsKnown(a.dataType) && a.dataType != Bit && a.dataType != Real
    requires a.byte + Size(a.dataType) <= |db|
    requires forall m | 0 <= m < Size(a.dataType) :: db[a.byte + m] == ValueBytes(a.dataType, value, conv)[m]
    ensures ReadEffect(db, a, conv).result == Ok(value % Pow256(Size(a.dataType)))
  {
    var vb := ValueBytes(a.dataType, value, conv);
    assert db[a.byte..a.byte + Size(a.dataType)] == vb;
    DecodeValueBytes(a, value, conv, []);
    assert vb + [] == vb;
  }

  /** Reading a Bit address inside the block gives bit `bit` of the byte
      at the address (0 for a bit number of 8 or more). */
  lemma ReadBit(db: seq<u8>, a: VmAddr, conv: RealConv)
    requires a.dataType == Bit && a.byte < |db|
    ensures ReadEffect(db, a, conv).result == Ok(BitAt(db[a.byte], a.bit))
    ensures a.bit < 8 ==> (ReadEffect(db, a, conv).result.value == 1 <==> BitOf(db[a.byte], a.bit as bv8))
  {
    assert db[a.byte..a.byte + 1][0] == db[a.byte];
  }

  /** A Bit write reads the byte at the address, then writes back that byte
      with the bit number ORed in (value above 0) or cleared (value 0). */
  lemma BitWrite(db: seq<u8>, a: VmAddr, value: u32, conv: RealConv)
    requires a.dataType == Bit && a.byte < |db|
    ensures var b := SetBitAsWritten(db[a.byte], a.bit, value);
      WriteEffect(db, a, value, conv) == Traced(Ok(db[a.byte := b]), [ReadOp(a.byte, 1), WriteOp(a.byte, [b])])
  {
    var b := SetBitAsWritten(db[a.byte], a.bit, value);
    assert [b] + Zeros(1)[1..] == [b];
    var w := WriteEffect(db, a, value, conv);
    assert w.result.value == db[a.byte := b];
  }

  /** A write only changes the `Size` bytes at the address. */
  lemma WriteFrame(db: seq<u8>, a: VmAddr, value: u32, conv: RealConv)
    ensures var w := WriteEffect(db, a, value, conv);
      w.result.Ok? ==> forall j | 0 <= j < |db| && !(a.byte <= j < a.byte + Size(a.dataType)) ::
        w.result.value[j] == db[j]
  {
  }

  /** A write with an unknown type is refused before any block access. */
  lemma WriteUnknownType(db: seq<u8>, a: VmAddr, value: u32, conv: RealConv)
    requires !IsKnown(a.dataType)
    ensures WriteEffect(db, a, value, conv) == Traced(Err(UnknownDataType), [])
  {
  }

  /** As written, a bit write is not read back: writing 1 to `V2.4` of a
      zeroed block stores 0x04 (bit 2) at byte 2, and `V2.4` then reads 0. */
  lemma BitWriteNotReadBack(conv: RealConv)
    ensures var a := VmAddr(Bit, 2, 4);
      var w := WriteEffect([0, 0, 0], a, 1, conv);
      && w.result == Ok([0, 0, 4])
      && ReadEffect([0, 0, 4], a, conv).result == Ok(0)
  {
    BitWrite([0, 0, 0], VmAddr(Bit, 2, 4), 1, conv);
    assert SetBitAsWritten(0, 4, 1) == 4;
    assert [0, 0, 0][2 := 4] == [0, 0, 4];
    assert [0, 0, 4][2..3] == [4];
  }

  /** The smallest byte offset of a batch (`slices.MinFunc` by offset). */
  function MinByte(args: seq<VmAddrValue>): (m: u32)
    requires |args| > 0
    ensures forall i | 0 <= i < |args| :: m <= args[i].addr.byte
  {
    if |args| == 1 then args[0].addr.byte
    else
      var m := MinByte(args[..|args| - 1]);
      var b := args[|args| - 1].addr.byte;
      if b < m then b else m
  }

  /** The largest byte offset of a batch (`slices.MaxFunc` by offset). */
  function MaxByte(args: seq<VmAddrValue>): (m: u32)
    requires |args| > 0
    ensures forall i | 0 <= i < |args| :: args[i].addr.byte <= m
  {
    if |args| == 1 then args[0].addr.byte
    else
      var m := MaxByte(args[..|args| - 1]);
      var b := args[|args| - 1].addr.byte;
      if b > m then b else m
  }

  /** The window bounds are offsets of actual entries. */
  lemma {:induction false} WindowAttained(args: seq<VmAddrValue>)
    requires |args| > 0
    ensures exists i | 0 <= i < |args| :: args[i].addr.byte == MinByte(args)
    ensures exists i | 0 <= i < |args| :: args[i].addr.byte == MaxByte(args)
  {
    if |args| > 1 {
      var init := args[..|args| - 1];
      WindowAttained(init);
      var i :| 0 <= i < |init| && init[i].addr.byte == MinByte(init);
      var j :| 0 <= j < |init| && init[j].addr.byte == MaxByte(init);
      assert args[i] == init[i] && args[j] == init[j];
    } else {
      assert args[0].addr.byte == MinByte(args);
    }
  }

  /** Every entry starts inside the window of `size` bytes at `lo`. */
  predicate InWindow(args: seq<VmAddrValue>, lo: nat, size: nat) {
    forall i | 0 <= i < |args| :: lo <= args[i].addr.byte < lo + size
  }

  /** One turn of the loop of `WriteMany`: the entry patches the window
      buffer `buf` (which starts at byte `lo`) from its own offset on. */
  function PatchOne(db: seq<u8>, buf: seq<u8>, lo: nat, e: VmAddrValue, conv: RealConv): (r: Traced<seq<u8>>)
    requires lo <= e.addr.byte < lo + |buf|
    ensures r.result.Ok? ==> |r.result.value| == |buf|
  {
    var off := e.addr.byte - lo;
    var p := BufferEffect(db, e.addr, buf[off..], e.value, conv);
    if p.result.Err? then Traced(Err(p.result.error), p.io)
    else Traced(Ok(buf[..off] + p.result.value), p.io)
  }

  /** The loop of `WriteMany`: each entry, in argument order, patches the
      window buffer; the first error stops it. */
  function PatchAll(db: seq<u8>, buf: seq<u8>, lo: nat, args: seq<VmAddrValue>, conv: RealConv): (r: Traced<seq<u8>>)
    requires InWindow(args, lo, |buf|)
    ensures r.result.Ok? ==> |r.result.value| == |buf|
    decreases |args|
  {
    if args == [] then Traced(Ok(buf), [])
    else
      var prev := PatchAll(db, buf, lo, args[..|args| - 1], conv);
      if prev.result.Err? then prev
      else
        var q := PatchOne(db, prev.result.value, lo, args[|args| - 1], conv);
        Traced(q.result, prev.io + q.io)
  }

  /** One read of the window, the patches, one write of the window. */
  function Batch(db: seq<u8>, args: seq<VmAddrValue>, lo: nat, size: nat, conv: RealConv): (r: Traced<seq<u8>>)
    requires InWindow(args, lo, size)
    ensures r.result.Ok? ==> |r.result.value| == |db|
  {
    match ReadBlock(db, lo, size)
    case Err(e) => Traced(Err(e), [ReadOp(lo, size)])
    case Ok(window) =>
      var p := PatchAll(db, window, lo, args, conv);
      if p.result.Err? then Traced(Err(p.result.error), [ReadOp(lo, size)] + p.io)
      else Traced(WriteBlock(db, lo, p.result.value), [ReadOp(lo, size)] + p.io + [WriteOp(lo, p.result.value)])
  }

  /** `WriteMany(args...)` as written: the window runs from the smallest to
      the largest offset, `max - min + 1` bytes. */
  function WriteManyEffect(db: seq<u8>, args: seq<VmAddrValue>, conv: RealConv): (r: Traced<seq<u8>>)
    ensures args == [] ==> r == Traced(Err(EmptyArgs), [])
    ensures r.result.Ok? ==> |r.result.value| == |db|
  {
    if args == [] then Traced(Err(EmptyArgs), [])
    else Batch(db, args, MinByte(args), WindowSize(args), conv)
  }

  /** The block reads the patches issue: one 1-byte read per Bit entry. */
  function BitReads(args: seq<VmAddrValue>): (io: seq<Io>)
    ensures |io| <= |args|
    ensures forall k | 0 <= k < |io| :: io[k].ReadOp? && io[k].size == 1
  {
    if args == [] then []
    else
      var e := args[|args| - 1];
      BitReads(args[..|args| - 1]) + (if e.addr.dataType == Bit then [ReadOp(e.addr.byte, 1)] else [])
  }

  lemma {:induction false} PatchAllIo(db: seq<u8>, buf: seq<u8>, lo: nat, args: seq<VmAddrValue>, conv: RealConv)
    requires InWindow(args, lo, |buf|)
    ensures PatchAll(db, buf, lo, args, conv).result.Ok? ==> PatchAll(db, buf, lo, args, conv).io == BitReads(args)
    ensures forall k | 0 <= k < |PatchAll(db, buf, lo, args, conv).io| :: PatchAll(db, buf, lo, args, conv).io[k].ReadOp?
    decreases |args|
  {
    if args != [] {
      PatchAllIo(db, buf, lo, args[..|args| - 1], conv);
    }
  }

  /** A successful batch on the window of `size` bytes at `lo` issued one
      read of the window, one 1-byte read per Bit entry in argument order,
      and one write of the window's new contents. */
  predicate IoShape(r: Traced<seq<u8>>, lo: nat, size: nat, args: seq<VmAddrValue>) {
    r.result.Ok? ==>
      lo + size <= |r.result.value| &&
      r.io == [ReadOp(lo, size)] + BitReads(args) + [WriteOp(lo, r.result.value[lo..lo + size])]
  }

  lemma BatchIo(db: seq<u8>, args: seq<VmAddrValue>, lo: nat, size: nat, conv: RealConv)
    requires InWindow(args, lo, size)
    ensures IoShape(Batch(db, args, lo, size, conv), lo, size, args)
  {
    var r := Batch(db, args, lo, size, conv);
    if r.result.Ok? {
      var window := ReadBlock(db, lo, size).value;
      PatchAllIo(db, window, lo, args, conv);
      var w := PatchAll(db, window, lo, args, conv).result.value;
      assert r.result.value[lo..lo + size] == w;
    }
  }

  /** A batch that succeeds issues exactly: one read of the window, one
      1-byte read per Bit entry in argument order, and one write of the
      window's new contents. */
  lemma WriteManyIo(db: seq<u8>, args: seq<VmAddrValue>, conv: RealConv)
    requires args != []
    ensures IoShape(WriteManyEffect(db, args, conv), MinByte(args), WindowSize(args), args)
  {
    BatchIo(db, args, MinByte(args), WindowSize(args), conv);
  }

  /** A batch holding an entry of unknown type fails and issues no block
      write (only reads). */
  lemma WriteManyUnknownType(db: seq<u8>, args: seq<VmAddrValue>, i: nat, conv: RealConv)
    requires i < |args| && !IsKnown(args[i].addr.dataType)
    ensures var r := WriteManyEffect(db, args, conv);
      r.result.Err? && forall k | 0 <= k < |r.io| :: r.io[k].ReadOp?
  {
    BatchUnknown(db, args, MinByte(args), WindowSize(args), i, conv);
  }

  lemma {:induction false} PatchAllUnknown(db: seq<u8>, buf: seq<u8>, lo: nat, args: seq<VmAddrValue>, i: nat, conv: RealConv)
    requires InWindow(args, lo, |buf|)
    requires i < |args| && !IsKnown(args[i].addr.dataType)
    ensures PatchAll(db, buf, lo, args, conv).result.Err?
    decreases |args|
  {
    if i < |args| - 1 {
      PatchAllUnknown(db, buf, lo, args[..|args| - 1], i, conv);
    }
  }

  /** Every entry of a known type patches without error when the window
      lies in the block (a Bit entry's own byte is then in the block). */
  lemma {:induction false} PatchAllOk(db: seq<u8>, buf: seq<u8>, lo: nat, args: seq<VmAddrValue>, conv: RealConv)
    requires InWindow(args, lo, |buf|) && lo + |buf| <= |db|
    requires forall i | 0 <= i < |args| :: IsKnown(args[i].addr.dataType)
    ensures PatchAll(db, buf, lo, args, conv).result.Ok?
    decreases |args|
  {
    if args != [] {
      PatchAllOk(db, buf, lo, args[..|args| - 1], conv);
    }
  }

  /** `WriteMany` of a non-empty batch succeeds exactly when every entry has
      a known type and the window lies in the block. */
  lemma WriteManySucceeds(db: seq<u8>, args: seq<VmAddrValue>, conv: RealConv)
    requires args != []
    ensures WriteManyEffect(db, args, conv).result.Ok? <==>
      (forall i | 0 <= i < |args| :: IsKnown(args[i].addr.dataType)) &&
      MinByte(args) + WindowSize(args) <= |db|
  {
    BatchSucceeds(db, args, MinByte(args), WindowSize(args), conv);
  }

  /** A batch on a window holding every entry succeeds exactly when every
      entry has a known type and the window lies in the block. */
  lemma BatchSucceeds(db: seq<u8>, args: seq<VmAddrValue>, lo: nat, size: nat, conv: RealConv)
    requires InWindow(args, lo, size)
    ensures Batch(db, args, lo, size, conv).result.Ok? <==>
      (forall i | 0 <= i < |args| :: IsKnown(args[i].addr.dataType)) && lo + size <= |db|
  {
    if lo + size <= |db| {
      var window := db[lo..lo + size];
      if forall i | 0 <= i < |args| :: IsKnown(args[i].addr.dataType) {
        PatchAllOk(db, window, lo, args, conv);
      } else {
        var i :| 0 <= i < |args| && !IsKnown(args[i].addr.dataType);
        PatchAllUnknown(db, window, lo, args, i, conv);
      }
    }
  }

  /** Window position `k` is written when entry `e` is patched into a
      window of `size` bytes at `lo`: the entry's own byte for a Bit, the
      bytes of its image that fit in the window for the other named types,
      none for an unknown type. */
  predicate Covers(e: VmAddrValue, lo: nat, size: nat, k: nat) {
    var off := e.addr.byte - lo;
    if e.addr.dataType == Bit then k == off
    else IsKnown(e.addr.dataType) && off <= k < off + Size(e.addr.dataType) && k < size
  }

  /** The byte entry `e` leaves at covered window position `k`: for a Bit,
      the byte re-read from the block with the bit number applied; for the
      others, the matching byte of the value's image. */
  function PatchedByte(db: seq<u8>, lo: nat, e: VmAddrValue, k: nat, conv: RealConv): u8
    requires lo + k < |db|
    requires e.addr.dataType == Bit || (IsKnown(e.addr.dataType) && e.addr.byte - lo <= k < e.addr.byte - lo + Size(e.addr.dataType))
  {
    var t := e.addr.dataType;
    if t == Bit then SetBitAsWritten(db[lo + k], e.addr.bit, e.value)
    else ValueBytes(t, e.value, conv)[k - (e.addr.byte - lo)]
  }

  /** A successful patch run is a successful run on all entries but the
      last, followed by a successful patch of the last one. */
  lemma PatchAllStep(db: seq<u8>, buf: seq<u8>, lo: nat, args: seq<VmAddrValue>, conv: RealConv)
    requires InWindow(args, lo, |buf|) && args != []
    requires PatchAll(db, buf, lo, args, conv).result.Ok?
    ensures var prev := PatchAll(db, buf, lo, args[..|args| - 1], conv);
      && prev.result.Ok? && |prev.result.value| == |buf|
      && PatchAll(db, buf, lo, args, conv).result == PatchOne(db, prev.result.value, lo, args[|args| - 1], conv).result
  {
  }

  /** One patch leaves every position it does not cover as it was. */
  lemma PatchKeeps(db: seq<u8>, buf: seq<u8>, lo: nat, e: VmAddrValue, k: nat, conv: RealConv)
    requires lo <= e.addr.byte < lo + |buf| && k < |buf|
    requires !Covers(e, lo, |buf|, k)
    ensures var q := PatchOne(db, buf, lo, e, conv);
      q.result.Ok? ==> q.result.value[k] == buf[k]
  {
  }

  /** One patch sets every position it covers to the entry's byte. */
  lemma PatchSets(db: seq<u8>, buf: seq<u8>, lo: nat, e: VmAddrValue, k: nat, conv: RealConv)
    requires lo <= e.addr.byte < lo + |buf| && k < |buf| && lo + |buf| <= |db|
    requires Covers(e, lo, |buf|, k)
    ensures var q := PatchOne(db, buf, lo, e, conv);
      q.result.Ok? ==> q.result.value[k] == PatchedByte(db, lo, e, k, conv)
  {
    var off := e.addr.byte - lo;
    var q := PatchOne(db, buf, lo, e, conv);
    if q.result.Ok? {
      var p := BufferEffect(db, e.addr, buf[off..], e.value, conv);
      assert q.result.value == buf[..off] + p.result.value;
      assert q.result.value[k] == p.result.value[k - off];
      if e.addr.dataType != Bit {
        assert p.result.value == CopyInto(buf[off..], ValueBytes(e.addr.dataType, e.value, conv));
      }
    }
  }

  /** Window bytes that no entry covers are written back as they were. */
  lemma {:induction false} PatchAllUntouched(db: seq<u8>, buf: seq<u8>, lo: nat, args: seq<VmAddrValue>, k: nat, conv: RealConv)
    requires InWindow(args, lo, |buf|) && k < |buf|
    requires forall i | 0 <= i < |args| :: !Covers(args[i], lo, |buf|, k)
    ensures var r := PatchAll(db, buf, lo, args, conv);
      r.result.Ok? ==> r.result.value[k] == buf[k]
    decreases |args|
  {
    if args != [] && PatchAll(db, buf, lo, args, conv).result.Ok? {
      var n := |args| - 1;
      PatchAllStep(db, buf, lo, args, conv);
      var init := args[..n];
      assert forall i | 0 <= i < n :: init[i] == args[i];
      PatchAllUntouched(db, buf, lo, init, k, conv);
      PatchKeeps(db, PatchAll(db, buf, lo, init, conv).result.value, lo, args[n], k, conv);
    }
  }

  /** A window byte is the byte of the LAST entry that covers it: patches
      apply in argument order, and a Bit entry uses the block's byte, not
      what earlier entries put in the window. */
  lemma {:induction false} PatchAllLastWriter(db: seq<u8>, buf: seq<u8>, lo: nat, args: seq<VmAddrValue>, i: nat, k: nat, conv: RealConv)
    requires InWindow(args, lo, |buf|) && k < |buf| && lo + |buf| <= |db|
    requires i < |args| && Covers(args[i], lo, |buf|, k)
    requires forall j | i < j < |args| :: !Covers(args[j], lo, |buf|, k)
    ensures var r := PatchAll(db, buf, lo, args, conv);
      r.result.Ok? ==> r.result.value[k] == PatchedByte(db, lo, args[i], k, conv)
    decreases |args|
  {
    if PatchAll(db, buf, lo, args, conv).result.Ok? {
      var n := |args| - 1;
      if i == n {
        LastEntryWrites(db, buf, lo, args, k, conv);
      } else {
        var init := args[..n];
        assert forall j | 0 <= j < n :: init[j] == args[j];
        PatchAllLastWriter(db, buf, lo, init, i, k, conv);
        LastEntryKeeps(db, buf, lo, args, k, conv);
      }
    }
  }

  lemma LastEntryWrites(db: seq<u8>, buf: seq<u8>, lo: nat, args: seq<VmAddrValue>, k: nat, conv: RealConv)
    requires InWindow(args, lo, |buf|) && k < |buf| && lo + |buf| <= |db| && args != []
    requires Covers(args[|args| - 1], lo, |buf|, k)
    requires PatchAll(db, buf, lo, args, conv).result.Ok?
    ensures PatchAll(db, buf, lo, args, conv).result.value[k] == PatchedByte(db, lo, args[|args| - 1], k, conv)
  {
    PatchAllStep(db, buf, lo, args, conv);
    PatchSets(db, PatchAll(db, buf, lo, args[..|args| - 1], conv).result.value, lo, args[|args| - 1], k, conv);
  }

  lemma LastEntryKeeps(db: seq<u8>, buf: seq<u8>, lo: nat, args: seq<VmAddrValue>, k: nat, conv: RealConv)
    requires InWindow(args, lo, |buf|) && k < |buf| && args != []
    requires !Covers(args[|args| - 1], lo, |buf|, k)
    requires PatchAll(db, buf, lo, args, conv).result.Ok?
    ensures PatchAll(db, buf, lo, args[..|args| - 1], conv).result.Ok?
    ensures PatchAll(db, buf, lo, args, conv).result.value[k] == PatchAll(db, buf, lo, args[..|args| - 1], conv).result.value[k]
  {
    PatchAllStep(db, buf, lo, args, conv);
    PatchKeeps(db, PatchAll(db, buf, lo, args[..|args| - 1], conv).result.value, lo, args[|args| - 1], k, conv);
  }

  /** A successful batch writes back the patched window and nothing else. */
  lemma BatchWindow(db: seq<u8>, args: seq<VmAddrValue>, lo: nat, size: nat, conv: RealConv)
    requires InWindow(args, lo, size)
    requires Batch(db, args, lo, size, conv).result.Ok?
    ensures lo + size <= |db|
    ensures var db' := Batch(db, args, lo, size, conv).result.value;
      var p := PatchAll(db, db[lo..lo + size], lo, args, conv);
      && p.result.Ok?
      && |db'| == |db|
      && db'[lo..lo + size] == p.result.value
      && forall j | 0 <= j < |db| && !(lo <= j < lo + size) :: db'[j] == db[j]
  {
    var db' := Batch(db, args, lo, size, conv).result.value;
    var w := PatchAll(db, db[lo..lo + size], lo, args, conv).result.value;
    assert db'[lo..lo + size] == w;
  }

  /** The window of a batch as written starts at the smallest offset,
      `MinByte`, and is `max - min + 1` bytes long. */
  function WindowSize(args: seq<VmAddrValue>): (size: nat)
    requires args != []
    ensures InWindow(args, MinByte(args), size)
  {
    MaxByte(args) - MinByte(args) + 1
  }

  lemma BatchUntouched(db: seq<u8>, args: seq<VmAddrValue>, lo: nat, size: nat, k: nat, conv: RealConv)
    requires InWindow(args, lo, size) && k < size
    requires forall i | 0 <= i < |args| :: !Covers(args[i], lo, size, k)
    ensures var r := Batch(db, args, lo, size, conv);
      r.result.Ok? ==> lo + k < |db| && r.result.value[lo + k] == db[lo + k]
  {
    if Batch(db, args, lo, size, conv).result.Ok? {
      BatchWindow(db, args, lo, size, conv);
      PatchAllUntouched(db, db[lo..lo + size], lo, args, k, conv);
    }
  }

  lemma BatchLastWriter(db: seq<u8>, args: seq<VmAddrValue>, lo: nat, size: nat, i: nat, k: nat, conv: RealConv)
    requires InWindow(args, lo, size) && k < size
    requires i < |args| && Covers(args[i], lo, size, k)
    requires forall j | i < j < |args| :: !Covers(args[j], lo, size, k)
    ensures var r := Batch(db, args, lo, size, conv);
      r.result.Ok? ==> lo + k < |db| && r.result.value[lo + k] == PatchedByte(db, lo, args[i], k, conv)
  {
    if Batch(db, args, lo, size, conv).result.Ok? {
      BatchWindow(db, args, lo, size, conv);
      PatchAllLastWriter(db, db[lo..lo + size], lo, args, i, k, conv);
    }
  }

  /** `WriteMany` changes no byte outside its window. */
  lemma {:induction false} WriteManyFrame(db: seq<u8>, args: seq<VmAddrValue>, conv: RealConv)
    requires args != []
    ensures var r := WriteManyEffect(db, args, conv);
      var lo, size := MinByte(args), WindowSize(args);
      r.result.Ok? ==> forall j | 0 <= j < |db| && !(lo <= j < lo + size) :: r.result.value[j] == db[j]
  {
    if WriteManyEffect(db, args, conv).result.Ok? {
      BatchWindow(db, args, MinByte(args), WindowSize(args), conv);
    }
  }

  /** `WriteMany` writes back, as it read it, every window byte that no
      entry covers. */
  lemma {:induction false} WriteManyUntouched(db: seq<u8>, args: seq<VmAddrValue>, k: nat, conv: RealConv)
    requires args != [] && k < WindowSize(args)
    requires forall i | 0 <= i < |args| :: !Covers(args[i], MinByte(args), WindowSize(args), k)
    ensures var r := WriteManyEffect(db, args, conv);
      var lo := MinByte(args);
      r.result.Ok? ==> lo + k < |db| && r.result.value[lo + k] == db[lo + k]
  {
    BatchUntouched(db, args, MinByte(args), WindowSize(args), k, conv);
  }

  /** In `WriteMany` the last entry that covers a window byte decides it:
      entries apply in argument order, a later overlapping entry wins, and a
      Bit entry re-reads its byte from the block, discarding what earlier
      entries of the batch put there. */
  lemma {:induction false} WriteManyLastWriter(db: seq<u8>, args: seq<VmAddrValue>, i: nat, k: nat, conv: RealConv)
    requires i < |args| && k < WindowSize(args)
    requires Covers(args[i], MinByte(args), WindowSize(args), k)
    requires forall j | i < j < |args| :: !Covers(args[j], MinByte(args), WindowSize(args), k)
    ensures var r := WriteManyEffect(db, args, conv);
      var lo := MinByte(args);
      r.result.Ok? ==> lo + k < |db| && r.result.value[lo + k] == PatchedByte(db, lo, args[i], k, conv)
  {
    WriteManyIsBatch(db, args, conv);
    BatchLastWriter(db, args, MinByte(args), WindowSize(args), i, k, conv);
  }

  /** `WriteMany` of a non-empty batch is the batch on its window. */
  lemma WriteManyIsBatch(db: seq<u8>, args: seq<VmAddrValue>, conv: RealConv)
    requires args != []
    ensures WriteManyEffect(db, args, conv) == Batch(db, args, MinByte(args), WindowSize(args), conv)
  {
  }

  /** As written, a Byte, Word, Counter, Timer or DWord entry whose bytes
      all fall inside the `max - min + 1` window, and which no later entry
      overlaps, reads back after `WriteMany` as its value modulo
      2^(8 * Size). */
  lemma {:induction false} WriteManyReadBack(db: seq<u8>, args: seq<VmAddrValue>, i: nat, conv: RealConv)
    requires i < |args|
    requires IsKnown(args[i].addr.dataType) && args[i].addr.dataType != Bit && args[i].addr.dataType != Real
    requires args[i].addr.byte + Size(args[i].addr.dataType) <= MinByte(args) + WindowSize(args)
    requires forall j | i < j < |args| :: !Overlaps(args[j], args[i])
    ensures var r := WriteManyEffect(db, args, conv);
      var e := args[i];
      r.result.Ok? ==> ReadEffect(r.result.value, e.addr, conv).result == Ok(e.value % Pow256(Size(e.addr.dataType)))
  {
    var r := WriteManyEffect(db, args, conv);
    if r.result.Ok? {
      WriteManyImage(db, args, i, conv, r.result.value);
      ReadImage(r.result.value, args[i].addr, args[i].value, conv);
    }
  }

  /** All of such an entry's image is in the block after the batch. */
  lemma {:induction false} WriteManyImage(db: seq<u8>, args: seq<VmAddrValue>, i: nat, conv: RealConv, db': seq<u8>)
    requires i < |args|
    requires IsKnown(args[i].addr.dataType) && args[i].addr.dataType != Bit
    requires args[i].addr.byte + Size(args[i].addr.dataType) <= MinByte(args) + WindowSize(args)
    requires forall j | i < j < |args| :: !Overlaps(args[j], args[i])
    requires WriteManyEffect(db, args, conv).result == Ok(db')
    ensures var e := args[i];
      && e.addr.byte + Size(e.addr.dataType) <= |db'|
      && forall m | 0 <= m < Size(e.addr.dataType) :: db'[e.addr.byte + m] == ValueBytes(e.addr.dataType, e.value, conv)[m]
  {
    var e := args[i];
    forall m | 0 <= m < Size(e.addr.dataType)
      ensures e.addr.byte + m < |db'| && db'[e.addr.byte + m] == ValueBytes(e.addr.dataType, e.value, conv)[m]
    {
      BatchImageByte(db, args, MinByte(args), WindowSize(args), i, m, conv);
    }
    BatchImageByte(db, args, MinByte(args), WindowSize(args), i, Size(e.addr.dataType) - 1, conv);
  }

  /** The batch of the write-many test: `VD3`, `V2.4` (value 0), `V94` and
      `VW31`, in that order. */
  function TestBatch(vd: u32, vb: u32, vw: u32): (args: seq<VmAddrValue>)
    ensures |args| == 4
  {
    [VmAddrValue(VmAddr(DWord, 3, 0), vd), VmAddrValue(VmAddr(Bit, 2, 4), 0),
     VmAddrValue(VmAddr(Byte, 94, 0), vb), VmAddrValue(VmAddr(Word, 31, 0), vw)]
  }

  /** The test's window runs from byte 2 to byte 94. */
  lemma TestBatchWindow(vd: u32, vb: u32, vw: u32)
    ensures MinByte(TestBatch(vd, vb, vw)) == 2 && WindowSize(TestBatch(vd, vb, vw)) == 93
  {
    var args := TestBatch(vd, vb, vw);
    assert args[..1][..0] == [] && args[..2][..1] == args[..1] && args[..3][..2] == args[..2] && args[..3] == args[..|args| - 1];
    assert MinByte(args[..1]) == 3 && MaxByte(args[..1]) == 3;
    assert MinByte(args[..2]) == 2 && MaxByte(args[..2]) == 3;
    assert MinByte(args[..3]) == 2 && MaxByte(args[..3]) == 94;
  }

  /** As written, the test's batch has its window on bytes 2 to 94, which
      holds every entry, so after a successful `WriteMany` the double word,
      the byte and the word read back their values (the test's values are
      below 100). */
  lemma {:induction false} TestBatchReadBack(db: seq<u8>, vd: u32, vb: u32, vw: u32, conv: RealConv)
    requires vb < 0x100 && vw < 0x1_0000
    ensures var r := WriteManyEffect(db, TestBatch(vd, vb, vw), conv);
      r.result.Ok? ==>
        && ReadEffect(r.result.value, VmAddr(DWord, 3, 0), conv).result == Ok(vd)
        && ReadEffect(r.result.value, VmAddr(Byte, 94, 0), conv).result == Ok(vb)
        && ReadEffect(r.result.value, VmAddr(Word, 31, 0), conv).result == Ok(vw)
  {
    var args := TestBatch(vd, vb, vw);
    TestBatchWindow(vd, vb, vw);
    assert !Overlaps(args[1], args[0]) && !Overlaps(args[2], args[0]) && !Overlaps(args[3], args[0]);
    assert !Overlaps(args[3], args[2]);
    WriteManyReadBack(db, args, 0, conv);
    WriteManyReadBack(db, args, 2, conv);
    WriteManyReadBack(db, args, 3, conv);
    assert Pow256(1) == 0x100;
    assert Pow256(2) == 0x1_0000;
    assert Pow256(4) == 0x1_0000_0000 by {
      assert Pow256(3) == 0x100_0000;
    }
  }

  /** As written, the window is too short for a multi-byte entry at the
      largest offset: a batch of one Word at byte 0 has a 1-byte window, so
      only the high byte of 0x0102 is stored and the word reads back as
      0x0100. */
  lemma WindowTooShort(conv: RealConv)
    ensures var a := VmAddr(Word, 0, 0);
      var r := WriteManyEffect([0, 0], [VmAddrValue(a, 0x0102)], conv);
      && r.result == Ok([1, 0])
      && ReadEffect([1, 0], a, conv).result == Ok(0x0100)
  {
    ShortWindowWrite(conv);
    var a := VmAddr(Word, 0, 0);
    assert ReadBlock([1, 0], 0, 2) == Ok([1, 0]) by {
      assert [1, 0][0..2] == [1, 0];
    }
    assert FromBigEndian([1, 0]) == 0x0100 by {
      assert [1, 0][..1] == [1];
      assert [1][..0] == [];
    }
    assert [1, 0][..2] == [1, 0];
  }

  lemma ShortWindowWrite(conv: RealConv)
    ensures WriteManyEffect([0, 0], [VmAddrValue(VmAddr(Word, 0, 0), 0x0102)], conv).result == Ok([1, 0])
  {
    var args := [VmAddrValue(VmAddr(Word, 0, 0), 0x0102)];
    assert MinByte(args) == 0 && WindowSize(args) == 1;
    WriteManySucceeds([0, 0], args, conv);
    WriteManyLastWriter([0, 0], args, 0, 0, conv);
    WriteManyFrame([0, 0], args, conv);
    assert ValueBytes(Word, 0x0102, conv) == [1, 2] by {
      assert BigEndian(1, 1) == [1];
    }
    var db' := WriteManyEffect([0, 0], args, conv).result.value;
    assert db' == [1, 0];
  }

  /** As written, a Bit entry re-reads its byte from the block: after a Byte
      entry stores 0xFF at byte 0, a Bit entry on byte 0 with bit number 2
      starts again from the block's 0 and leaves 0x02. */
  lemma BitEntryDiscardsEarlierPatch(conv: RealConv)
    ensures var args := [VmAddrValue(VmAddr(Byte, 0, 0), 0xFF), VmAddrValue(VmAddr(Bit, 0, 2), 1)];
      WriteManyEffect([0], args, conv).result == Ok([2])
  {
    var args := [VmAddrValue(VmAddr(Byte, 0, 0), 0xFF), VmAddrValue(VmAddr(Bit, 0, 2), 1)];
    assert args[..1] == [args[0]];
    assert MinByte(args[..1]) == 0 && MaxByte(args[..1]) == 0;
    assert MinByte(args) == 0 && WindowSize(args) == 1;
    WriteManySucceeds([0], args, conv);
    WriteManyLastWriter([0], args, 1, 0, conv);
    assert SetBitAsWritten(0, 2, 1) == 2;
    var db' := WriteManyEffect([0], args, conv).result.value;
    assert db' == [2];
  }

  /** The bytes an entry is meant to occupy: from its offset, `Size` bytes
      (one for a tag with no size). */
  function Span(e: VmAddrValue): (end: nat)
    ensures e.addr.byte < end
  {
    e.addr.byte + (if Size(e.addr.dataType) > 0 then Size(e.addr.dataType) else 1)
  }

  /** The end of the last entry's bytes. */
  function EndByte(args: seq<VmAddrValue>): (m: nat)
    requires |args| > 0
    ensures forall i | 0 <= i < |args| :: Span(args[i]) <= m
  {
    if |args| == 1 then Span(args[0])
    else
      var m := EndByte(args[..|args| - 1]);
      var b := Span(args[|args| - 1]);
      if b > m then b else m
  }

  /** The end of the window is the end of an actual entry. */
  lemma {:induction false} EndByteAttained(args: seq<VmAddrValue>)
    requires |args| > 0
    ensures exists i | 0 <= i < |args| :: Span(args[i]) == EndByte(args)
  {
    if |args| > 1 {
      var init := args[..|args| - 1];
      EndByteAttained(init);
      var i :| 0 <= i < |init| && Span(init[i]) == EndByte(init);
      assert args[i] == init[i];
    } else {
      assert Span(args[0]) == EndByte(args);
    }
  }

  /** `WriteMany` with the window it evidently needs: from the smallest
      offset to the end of the entry that reaches furthest. */
  function WriteManyIntended(db: seq<u8>, args: seq<VmAddrValue>, conv: RealConv): (r: Traced<seq<u8>>)
    ensures args == [] ==> r == Traced(Err(EmptyArgs), [])
    ensures r.result.Ok? ==> |r.result.value| == |db|
  {
    if args == [] then Traced(Err(EmptyArgs), [])
    else
      var lo := MinByte(args);
      Batch(db, args, lo, EndByte(args) - lo, conv)
  }

  /** The corrected `WriteMany` of a non-empty batch succeeds exactly when
      every entry has a known type and every entry's bytes lie in the
      block. */
  lemma {:induction false} WriteManyIntendedSucceeds(db: seq<u8>, args: seq<VmAddrValue>, conv: RealConv)
    requires args != []
    ensures WriteManyIntended(db, args, conv).result.Ok? <==>
      (forall i | 0 <= i < |args| :: IsKnown(args[i].addr.dataType)) &&
      forall i | 0 <= i < |args| :: Span(args[i]) <= |db|
  {
    if forall i | 0 <= i < |args| :: Span(args[i]) <= |db| {
      EndByteAttained(args);
      var j :| 0 <= j < |args| && Span(args[j]) == EndByte(args);
      if forall i | 0 <= i < |args| :: IsKnown(args[i].addr.dataType) {
        IntendedOk(db, args, conv);
      } else {
        var i :| 0 <= i < |args| && !IsKnown(args[i].addr.dataType);
        IntendedUnknown(db, args, i, conv);
      }
    } else {
      var i :| 0 <= i < |args| && Span(args[i]) > |db|;
      IntendedOutOfBlock(db, args, conv);
    }
  }

  /** The corrected batch is the batch on the window from the smallest
      offset to `EndByte`, which holds every entry's offset. */
  lemma {:induction false} IntendedWindow(db: seq<u8>, args: seq<VmAddrValue>, conv: RealConv)
    requires args != []
    ensures MinByte(args) <= EndByte(args)
    ensures InWindow(args, MinByte(args), EndByte(args) - MinByte(args))
    ensures WriteManyIntended(db, args, conv) == Batch(db, args, MinByte(args), EndByte(args) - MinByte(args), conv)
  {
    assert MinByte(args) <= args[0].addr.byte < Span(args[0]) <= EndByte(args);
  }

  /** Known types and a window inside the block: the corrected batch succeeds. */
  lemma {:induction false} IntendedOk(db: seq<u8>, args: seq<VmAddrValue>, conv: RealConv)
    requires args != [] && EndByte(args) <= |db|
    requires forall i | 0 <= i < |args| :: IsKnown(args[i].addr.dataType)
    ensures WriteManyIntended(db, args, conv).result.Ok?
  {
    IntendedWindow(db, args, conv);
    var lo := MinByte(args);
    var size := EndByte(args) - lo;
    var window := db[lo..lo + size];
    assert ReadBlock(db, lo, size) == Ok(window);
    PatchAllOk(db, window, lo, args, conv);
  }

  /** An entry of unknown type makes the corrected batch fail. */
  lemma {:induction false} IntendedUnknown(db: seq<u8>, args: seq<VmAddrValue>, i: nat, conv: RealConv)
    requires i < |args| && !IsKnown(args[i].addr.dataType)
    ensures WriteManyIntended(db, args, conv).result.Err?
  {
    IntendedWindow(db, args, conv);
    BatchUnknown(db, args, MinByte(args), EndByte(args) - MinByte(args), i, conv);
  }

  /** A batch on any window that holds an entry of unknown type fails. */
  lemma {:induction false} BatchUnknown(db: seq<u8>, args: seq<VmAddrValue>, lo: nat, size: nat, i: nat, conv: RealConv)
    requires InWindow(args, lo, size)
    requires i < |args| && !IsKnown(args[i].addr.dataType)
    ensures var r := Batch(db, args, lo, size, conv);
      r.result.Err? && forall k | 0 <= k < |r.io| :: r.io[k].ReadOp?
  {
    if lo + size <= |db| {
      var window := db[lo..lo + size];
      PatchAllUnknown(db, window, lo, args, i, conv);
      PatchAllIo(db, window, lo, args, conv);
    }
  }

  /** An entry reaching past the block makes the corrected batch fail at its read. */
  lemma {:induction false} IntendedOutOfBlock(db: seq<u8>, args: seq<VmAddrValue>, conv: RealConv)
    requires args != [] && EndByte(args) > |db|
    ensures WriteManyIntended(db, args, conv).result == Err(OutOfBlock)
  {
    IntendedWindow(db, args, conv);
  }

  /** The batch of the short-window finding under the corrected window:
      one Word 0x0102 at byte 0 of a 2-byte block is stored whole and reads
      back as 0x0102. */
  lemma IntendedWordExample(conv: RealConv)
    ensures var a := VmAddr(Word, 0, 0);
      var r := WriteManyIntended([0, 0], [VmAddrValue(a, 0x0102)], conv);
      && r.result.Ok?
      && ReadEffect(r.result.value, a, conv).result == Ok(0x0102)
  {
    var a := VmAddr(Word, 0, 0);
    var args := [VmAddrValue(a, 0x0102)];
    assert Span(args[0]) == 2;
    WriteManyIntendedSucceeds([0, 0], args, conv);
    WriteManyIntendedReadBack([0, 0], args, 0, conv);
    assert Pow256(2) == 0x1_0000 by {
      assert Pow256(1) == 0x100;
    }
  }

  /** Two entries share a byte. */
  predicate Overlaps(e: VmAddrValue, f: VmAddrValue) {
    e.addr.byte < Span(f) && f.addr.byte < Span(e)
  }

  /** With the intended window every Byte, Word, Counter, Timer and DWord
      entry that no later entry overlaps reads back as its value modulo
      2^(8 * Size). */
  lemma WriteManyIntendedReadBack(db: seq<u8>, args: seq<VmAddrValue>, i: nat, conv: RealConv)
    requires i < |args|
    requires IsKnown(args[i].addr.dataType) && args[i].addr.dataType != Bit && args[i].addr.dataType != Real
    requires forall j | i < j < |args| :: !Overlaps(args[j], args[i])
    ensures var r := WriteManyIntended(db, args, conv);
      var e := args[i];
      r.result.Ok? ==> ReadEffect(r.result.value, e.addr, conv).result == Ok(e.value % Pow256(Size(e.addr.dataType)))
  {
    var r := WriteManyIntended(db, args, conv);
    if r.result.Ok? {
      IntendedImage(db, args, i, conv, r.result.value);
      ReadImage(r.result.value, args[i].addr, args[i].value, conv);
    }
  }

  /** All of such an entry's image is in the block after the batch. */
  lemma IntendedImage(db: seq<u8>, args: seq<VmAddrValue>, i: nat, conv: RealConv, db': seq<u8>)
    requires i < |args|
    requires IsKnown(args[i].addr.dataType) && args[i].addr.dataType != Bit
    requires forall j | i < j < |args| :: !Overlaps(args[j], args[i])
    requires WriteManyIntended(db, args, conv).result == Ok(db')
    ensures var e := args[i];
      && e.addr.byte + Size(e.addr.dataType) <= |db'|
      && forall m | 0 <= m < Size(e.addr.dataType) :: db'[e.addr.byte + m] == ValueBytes(e.addr.dataType, e.value, conv)[m]
  {
    var e := args[i];
    forall m | 0 <= m < Size(e.addr.dataType)
      ensures e.addr.byte + m < |db'| && db'[e.addr.byte + m] == ValueBytes(e.addr.dataType, e.value, conv)[m]
    {
      IntendedByte(db, args, i, m, conv);
    }
    IntendedByte(db, args, i, Size(e.addr.dataType) - 1, conv);
  }

  /** Byte `m` of such an entry's image is in the block after the batch. */
  lemma IntendedByte(db: seq<u8>, args: seq<VmAddrValue>, i: nat, m: nat, conv: RealConv)
    requires i < |args|
    requires IsKnown(args[i].addr.dataType) && args[i].addr.dataType != Bit
    requires forall j | i < j < |args| :: !Overlaps(args[j], args[i])
    requires m < Size(args[i].addr.dataType)
    ensures var r := WriteManyIntended(db, args, conv);
      var e := args[i];
      r.result.Ok? ==>
        e.addr.byte + m < |r.result.value| &&
        r.result.value[e.addr.byte + m] == ValueBytes(e.addr.dataType, e.value, conv)[m]
  {
    var lo := MinByte(args);
    BatchImageByte(db, args, lo, EndByte(args) - lo, i, m, conv);
  }

  /** In a batch whose window holds all of entry `i`'s bytes, byte `m` of
      its image survives when no later entry overlaps it. */
  lemma BatchImageByte(db: seq<u8>, args: seq<VmAddrValue>, lo: nat, size: nat, i: nat, m: nat, conv: RealConv)
    requires InWindow(args, lo, size)
    requires i < |args|
    requires IsKnown(args[i].addr.dataType) && args[i].addr.dataType != Bit
    requires args[i].addr.byte + Size(args[i].addr.dataType) <= lo + size
    requires forall j | i < j < |args| :: !Overlaps(args[j], args[i])
    requires m < Size(args[i].addr.dataType)
    ensures var r := Batch(db, args, lo, size, conv);
      var e := args[i];
      r.result.Ok? ==>
        e.addr.byte + m < |r.result.value| &&
        r.result.value[e.addr.byte + m] == ValueBytes(e.addr.dataType, e.value, conv)[m]
  {
    var e := args[i];
    var k := e.addr.byte - lo + m;
    assert Covers(e, lo, size, k);
    forall j | i < j < |args| ensures !Covers(args[j], lo, size, k) {
      if Covers(args[j], lo, size, k) {
        CoversWithinSpan(args[j], lo, size, k);
      }
    }
    BatchLastWriter(db, args, lo, size, i, k, conv);
  }

  /** A covered window position lies within the entry's bytes. */
  lemma CoversWithinSpan(e: VmAddrValue, lo: nat, size: nat, k: nat)
    requires lo <= e.addr.byte
    requires Covers(e, lo, size, k)
    ensures e.addr.byte <= lo + k < Span(e)
  {
  }
}
