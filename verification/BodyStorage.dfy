/**
 Request bodies kept in memory or on disk behind one seekable interface
 (common/body_storage.go), the global counters they share
 (common/disk_cache_config.go), and the storage cached on a request
 (common/gin.go, lines 36-106).

 Files are byte sequences with a position; a failing file or network operation
 is a parameter.  The globals of the package are the fields of Cache, and the
 ghost sets openMemory and openDisk are the storages not yet closed.
 */
module BodyStorage {
  import opened Numbers
  import opened Wrappers

  // ---------------------------------------------------------------- the abstract buffer

  /** What a storage is to its user. */
  datatype Buffer = Buffer(data: seq<Byte>, pos: nat, closed: bool)

  datatype Op = Read(n: nat) | Seek(offset: int, whence: int) | Bytes | Close

  datatype Answer = Got(bytes: seq<Byte>) | EndOfData | At(pos: nat) | BadSeek | StorageClosed | Ok

  datatype Step = Step(buffer: Buffer, answer: Answer)

  /** Where a seek would go, if it names a place. */
  function Target(size: nat, pos: nat, offset: int, whence: int): Option<nat> {
    if whence == 0 && offset >= 0 then Some(offset)
    else if whence == 1 && pos + offset >= 0 then Some(pos + offset)
    else if whence == 2 && size + offset >= 0 then Some(size + offset)
    else None
  }

  /** One operation on a buffer.  emptyReadEnds says whether reading no bytes at
      the end reports the end of the data; the two implementations differ there. */
  function Do(b: Buffer, op: Op, emptyReadEnds: bool): Step {
    match op
    case Close => Step(b.(closed := true), Ok)
    case Read(n) =>
      if b.closed then Step(b, StorageClosed)
      else if b.pos >= |b.data| then Step(b, if n > 0 || emptyReadEnds then EndOfData else Got([]))
      else
        var end := Min(b.pos + n, |b.data|);
        Step(b.(pos := end), Got(b.data[b.pos..end]))
    case Seek(offset, whence) =>
      if b.closed then Step(b, StorageClosed)
      else (match Target(|b.data|, b.pos, offset, whence)
            case None => Step(b, BadSeek)
            case Some(p) => Step(b.(pos := p), At(p)))
    case Bytes => if b.closed then Step(b, StorageClosed) else Step(b, Got(b.data))
  }

  // ---------------------------------------------------------------- the counters

  datatype Fixed = Fixed(enabled: bool, thresholdMB: nat, maxSizeMB: nat, diskCacheHits: int, memoryCacheHits: int)

  class Cache {
    // configuration
    var enabled: bool
    var thresholdMB: nat
    var maxSizeMB: nat
    // statistics
    var activeDiskFiles: int
    var currentDiskUsageBytes: int
    var activeMemoryBuffers: int
    var currentMemoryUsageBytes: int
    var diskCacheHits: int
    var memoryCacheHits: int
    // the storages that are open
    ghost var openMemory: set<MemoryStorage>
    ghost var openDisk: set<DiskStorage>

    /** The counters are the number and the total size of the open storages. */
    ghost predicate Valid()
      reads this, openMemory, openDisk
    {
      && activeMemoryBuffers == |openMemory| && currentMemoryUsageBytes == TotalOf(openMemory, MemorySize)
      && activeDiskFiles == |openDisk| && currentDiskUsageBytes == TotalOf(openDisk, DiskSize)
      && (forall m :: m in openMemory ==> !m.closed && m.cache == this)
      && (forall d :: d in openDisk ==> !d.closed && d.cache == this)
    }

    constructor (enabled: bool, thresholdMB: nat, maxSizeMB: nat)
      ensures Valid() && openMemory == {} && openDisk == {}
      ensures diskCacheHits == memoryCacheHits == 0
      ensures this.enabled == enabled && this.thresholdMB == thresholdMB && this.maxSizeMB == maxSizeMB
    {
      this.enabled, this.thresholdMB, this.maxSizeMB := enabled, thresholdMB, maxSizeMB;
      activeDiskFiles, currentDiskUsageBytes := 0, 0;
      activeMemoryBuffers, currentMemoryUsageBytes := 0, 0;
      diskCacheHits, memoryCacheHits := 0, 0;
      openMemory, openDisk := {}, {};
    }

    method IncrementDiskFiles(size: int)
      modifies this`activeDiskFiles, this`currentDiskUsageBytes
      ensures activeDiskFiles == old(activeDiskFiles) + 1
      ensures currentDiskUsageBytes == old(currentDiskUsageBytes) + size
    {
      activeDiskFiles := activeDiskFiles + 1;
      currentDiskUsageBytes := currentDiskUsageBytes + size;
    }

    method DecrementDiskFiles(size: int)
      modifies this`activeDiskFiles, this`currentDiskUsageBytes
      ensures activeDiskFiles == if old(activeDiskFiles) < 1 then 0 else old(activeDiskFiles) - 1
      ensures currentDiskUsageBytes
           == if old(currentDiskUsageBytes) < size then 0 else old(currentDiskUsageBytes) - size
    {
      activeDiskFiles := activeDiskFiles - 1;
      if activeDiskFiles < 0 {
        activeDiskFiles := 0;
      }
      currentDiskUsageBytes := currentDiskUsageBytes - size;
      if currentDiskUsageBytes < 0 {
        currentDiskUsageBytes := 0;
      }
    }

    method IncrementMemoryBuffers(size: int)
      modifies this`activeMemoryBuffers, this`currentMemoryUsageBytes
      ensures activeMemoryBuffers == old(activeMemoryBuffers) + 1
      ensures currentMemoryUsageBytes == old(currentMemoryUsageBytes) + size
    {
      activeMemoryBuffers := activeMemoryBuffers + 1;
      currentMemoryUsageBytes := currentMemoryUsageBytes + size;
    }

    method DecrementMemoryBuffers(size: int)
      modifies this`activeMemoryBuffers, this`currentMemoryUsageBytes
      ensures activeMemoryBuffers == old(activeMemoryBuffers) - 1
      ensures currentMemoryUsageBytes == old(currentMemoryUsageBytes) - size
    {
      activeMemoryBuffers := activeMemoryBuffers - 1;
      currentMemoryUsageBytes := currentMemoryUsageBytes - size;
    }

    /** What opening and closing storages leaves alone. */
    ghost function Apart(): Fixed
      reads this
    {
      Fixed(enabled, thresholdMB, maxSizeMB, diskCacheHits, memoryCacheHits)
    }

    /** Counts a storage that was just created. */
    method CountDisk(d: DiskStorage)
      requires Valid() && d !in openDisk && !d.closed && d.cache == this
      modifies this`activeDiskFiles, this`currentDiskUsageBytes, this`openDisk
      ensures Valid() && openDisk == old(openDisk) + {d}
      ensures currentDiskUsageBytes == old(currentDiskUsageBytes) + d.size
    {
      TotalOfWithout(openDisk + {d}, d, DiskSize);
      assert openDisk + {d} - {d} == openDisk;
      IncrementDiskFiles(d.size);
      openDisk := openDisk + {d};
    }

    method CountMemory(m: MemoryStorage)
      requires Valid() && m !in openMemory && !m.closed && m.cache == this
      modifies this`activeMemoryBuffers, this`currentMemoryUsageBytes, this`openMemory
      ensures Valid() && openMemory == old(openMemory) + {m}
    {
      TotalOfWithout(openMemory + {m}, m, MemorySize);
      assert openMemory + {m} - {m} == openMemory;
      IncrementMemoryBuffers(m.size);
      openMemory := openMemory + {m};
    }

    method IncrementDiskCacheHits()
      requires Valid()
      modifies this`diskCacheHits
      ensures Valid() && diskCacheHits == old(diskCacheHits) + 1
    {
      diskCacheHits := diskCacheHits + 1;
    }

    method IncrementMemoryCacheHits()
      requires Valid()
      modifies this`memoryCacheHits
      ensures Valid() && memoryCacheHits == old(memoryCacheHits) + 1
    {
      memoryCacheHits := memoryCacheHits + 1;
    }

    function ThresholdBytes(): nat
      reads this
    {
      thresholdMB * 0x10_0000
    }

    function MaxSizeBytes(): nat
      reads this
    {
      maxSizeMB * 0x10_0000
    }

    /** Room for requestSize more bytes on disk. */
    predicate DiskCacheAvailable(requestSize: int)
      reads this
    {
      enabled && currentDiskUsageBytes + requestSize <= MaxSizeBytes()
    }
  }

  function MemorySize(m: MemoryStorage): nat {
    m.size
  }

  function DiskSize(d: DiskStorage): nat {
    d.size
  }

  // ---------------------------------------------------------------- the storages

  class MemoryStorage {
    const cache: Cache
    const data: seq<Byte>
    const size: nat
    var readerPos: nat
    var closed: bool

    ghost predicate Valid()
      reads this, cache
    {
      size == |data| && (!closed <==> this in cache.openMemory)
    }

    ghost function View(): Buffer
      reads this
    {
      Buffer(data, readerPos, closed)
    }

    constructor (cache: Cache, data: seq<Byte>)
      requires cache.Valid()
      modifies cache`activeMemoryBuffers, cache`currentMemoryUsageBytes, cache`openMemory
      ensures cache.Valid() && Valid() && this.cache == cache
      ensures cache.openMemory == old(cache.openMemory) + {this}
      ensures View() == Buffer(data, 0, false)
    {
      this.cache, this.data, this.size := cache, data, |data|;
      readerPos, closed := 0, false;
      new;
      cache.CountMemory(this);
    }

    method Read(n: nat) returns (r: Answer)
      modifies this`readerPos
      ensures Step(View(), r) == Do(old(View()), Op.Read(n), true)
    {
      if closed {
        return StorageClosed;
      }
      if readerPos >= |data| {
        return EndOfData;
      }
      var end := Min(readerPos + n, |data|);
      r := Got(data[readerPos..end]);
      readerPos := end;
    }

    method Seek(offset: int, whence: int) returns (r: Answer)
      modifies this`readerPos
      ensures Step(View(), r) == Do(old(View()), Op.Seek(offset, whence), true)
    {
      if closed {
        return StorageClosed;
      }
      var abs := 0;
      if whence == 0 {
        abs := offset;
      } else if whence == 1 {
        abs := readerPos + offset;
      } else if whence == 2 {
        abs := |data| + offset;
      } else {
        return BadSeek;
      }
      if abs < 0 {
        return BadSeek;
      }
      readerPos := abs;
      return At(abs);
    }

    method Bytes() returns (r: Answer)
      ensures Step(View(), r) == Do(View(), Op.Bytes, true)
    {
      if closed {
        return StorageClosed;
      }
      return Got(data);
    }

    method Close() returns (r: Answer)
      requires cache.Valid() && Valid()
      modifies this`closed, cache`activeMemoryBuffers, cache`currentMemoryUsageBytes, cache`openMemory
      ensures cache.Valid() && Valid()
      ensures Step(View(), r) == Do(old(View()), Op.Close, true)
      ensures cache.openMemory == old(cache.openMemory) - {this}
    {
      if !closed {
        TotalOfWithout(cache.openMemory, this, MemorySize);
        closed := true;
        cache.DecrementMemoryBuffers(size);
        cache.openMemory := cache.openMemory - {this};
      }
      return Ok;
    }
  }

  /** An open temporary file. */
  class File {
    const contents: seq<Byte>
    var pos: nat

    constructor (contents: seq<Byte>)
      ensures this.contents == contents && pos == 0
    {
      this.contents, this.pos := contents, 0;
    }

    method Read(n: nat) returns (r: Answer)
      modifies this
      ensures Step(Buffer(contents, pos, false), r) == Do(old(Buffer(contents, pos, false)), Op.Read(n), false)
    {
      if n == 0 {
        assert pos < |contents| ==> contents[pos..pos] == [];
        return Got([]);
      }
      if pos >= |contents| {
        return EndOfData;
      }
      var end := Min(pos + n, |contents|);
      r := Got(contents[pos..end]);
      pos := end;
    }

    method Seek(offset: int, whence: int) returns (r: Answer)
      modifies this
      ensures Step(Buffer(contents, pos, false), r)
           == Do(old(Buffer(contents, pos, false)), Op.Seek(offset, whence), false)
    {
      var target := Target(|contents|, pos, offset, whence);
      if target.None? {
        return BadSeek;
      }
      pos := target.value;
      return At(pos);
    }
  }

  class DiskStorage {
    const cache: Cache
    const file: File
    const size: nat
    var closed: bool

    ghost predicate Valid()
      reads this, cache
    {
      size == |file.contents| && (!closed <==> this in cache.openDisk)
    }

    ghost function View(): Buffer
      reads this, file
    {
      Buffer(file.contents, file.pos, closed)
    }

    constructor (cache: Cache, data: seq<Byte>)
      requires cache.Valid()
      modifies cache`activeDiskFiles, cache`currentDiskUsageBytes, cache`openDisk
      ensures cache.Valid() && Valid() && this.cache == cache && fresh(file)
      ensures cache.openDisk == old(cache.openDisk) + {this}
      ensures cache.currentDiskUsageBytes == old(cache.currentDiskUsageBytes) + |data|
      ensures View() == Buffer(data, 0, false)
    {
      this.cache, this.size, this.closed := cache, |data|, false;
      this.file := new File(data);
      new;
      cache.CountDisk(this);
    }

    method Read(n: nat) returns (r: Answer)
      modifies file
      ensures Step(View(), r) == Do(old(View()), Op.Read(n), false)
    {
      if closed {
        return StorageClosed;
      }
      r := file.Read(n);
    }

    method Seek(offset: int, whence: int) returns (r: Answer)
      modifies file
      ensures Step(View(), r) == Do(old(View()), Op.Seek(offset, whence), false)
    {
      if closed {
        return StorageClosed;
      }
      r := file.Seek(offset, whence);
    }

    /** Reads the whole file from the start and puts the position back. */
    method Bytes() returns (r: Answer)
      requires Valid()
      modifies file
      ensures Step(View(), r) == Do(old(View()), Op.Bytes, false)
    {
      if closed {
        return StorageClosed;
      }
      var current := file.Seek(0, 1);
      var _ := file.Seek(0, 0);
      r := Got([]);
      if size > 0 {
        r := file.Read(size);
        assert r == Got(file.contents[0..|file.contents|]);
      }
      var _ := file.Seek(current.pos, 0);
    }

    method Close() returns (r: Answer)
      requires cache.Valid() && Valid()
      modifies this`closed, cache`activeDiskFiles, cache`currentDiskUsageBytes, cache`openDisk
      ensures cache.Valid() && Valid()
      ensures Step(View(), r) == Do(old(View()), Op.Close, false)
      ensures cache.openDisk == old(cache.openDisk) - {this}
      // the counters go down by this storage, and never below zero: no clamp fires
      ensures cache.activeDiskFiles == old(cache.activeDiskFiles) - (if old(closed) then 0 else 1) >= 0
      ensures cache.currentDiskUsageBytes == old(cache.currentDiskUsageBytes) - (if old(closed) then 0 else size)
    {
      if !closed {
        TotalOfWithout(cache.openDisk, this, DiskSize);
        closed := true;
        cache.DecrementDiskFiles(size);
        cache.openDisk := cache.openDisk - {this};
      }
      return Ok;
    }
  }

  /** The BodyStorage interface: one of the two implementations. */
  datatype Storage = InMemory(m: MemoryStorage) | OnDisk(d: DiskStorage) {

    ghost predicate Valid()
      reads Parts(), Owner()
    {
      if InMemory? then m.Valid() else d.Valid()
    }

    ghost function Owner(): Cache {
      if InMemory? then m.cache else d.cache
    }

    ghost function Parts(): set<object> {
      if InMemory? then {m} else {d, d.file}
    }

    ghost function View(): Buffer
      reads Parts()
    {
      if InMemory? then m.View() else d.View()
    }

    method Read(n: nat) returns (r: Answer)
      requires Owner().Valid() && Valid()
      modifies Parts()
      ensures Owner().Valid() && Valid()
      ensures Step(View(), r) == Do(old(View()), Op.Read(n), InMemory?)
    {
      match this {
        case InMemory(m) => r := m.Read(n);
        case OnDisk(d) => r := d.Read(n);
      }
    }

    method Seek(offset: int, whence: int) returns (r: Answer)
      requires Owner().Valid() && Valid()
      modifies Parts()
      ensures Owner().Valid() && Valid()
      ensures Step(View(), r) == Do(old(View()), Op.Seek(offset, whence), InMemory?)
    {
      match this {
        case InMemory(m) => r := m.Seek(offset, whence);
        case OnDisk(d) => r := d.Seek(offset, whence);
      }
    }

    method Bytes() returns (r: Answer)
      requires Owner().Valid() && Valid()
      modifies Parts()
      ensures Owner().Valid() && Valid()
      ensures Step(View(), r) == Do(old(View()), Op.Bytes, InMemory?)
    {
      match this {
        case InMemory(m) => r := m.Bytes();
        case OnDisk(d) => r := d.Bytes();
      }
    }

    method Close() returns (r: Answer)
      requires Owner().Valid() && Valid()
      modifies Parts(), Owner()
      ensures Owner().Valid() && Valid()
      ensures Step(View(), r) == Do(old(View()), Op.Close, InMemory?)
      ensures InMemory? ==> Owner().openMemory == old(Owner().openMemory) - {m}
      ensures InMemory? ==> Owner().openDisk == old(Owner().openDisk)
      ensures OnDisk? ==> Owner().openDisk == old(Owner().openDisk) - {d}
      ensures OnDisk? ==> Owner().openMemory == old(Owner().openMemory)
      ensures Owner().Apart() == old(Owner().Apart())
    {
      hide Cache.Valid;
      match this {
        case InMemory(m) => r := m.Close();
        case OnDisk(d) => r := d.Close();
      }
    }

    method Perform(op: Op) returns (r: Answer)
      requires Owner().Valid() && Valid()
      modifies Parts(), Owner()
      ensures Owner().Valid() && Valid()
      ensures Step(View(), r) == Do(old(View()), op, InMemory?)
    {
      hide Cache.Valid;
      match op {
        case Read(n) => r := Read(n);
        case Seek(offset, whence) => r := Seek(offset, whence);
        case Bytes => r := Bytes();
        case Close => r := Close();
      }
    }

    /** Any sequence of operations. */
    method Replay(ops: seq<Op>) returns (answers: seq<Answer>)
      requires Owner().Valid() && Valid()
      modifies Parts(), Owner()
      ensures Owner().Valid() && Valid()
      ensures answers == Answers(old(View()), ops, InMemory?)
      ensures View() == Reached(old(View()), ops, InMemory?)
    {
      answers := [];
      ghost var start := View();
      AnswersNone(start, InMemory?);
      for i := 0 to |ops|
        invariant Owner().Valid() && Valid()
        invariant View() == Reached(start, ops[..i], InMemory?)
        invariant answers == Answers(start, ops[..i], InMemory?)
      {
        assert ops[..i + 1][..i] == ops[..i];
        var r := Perform(ops[i]);
        answers := answers + [r];
      }
      assert ops[..|ops|] == ops;
    }
  }

  // ---------------------------------------------------------------- sequences of operations

  /** The buffer after a sequence of operations. */
  function Reached(b: Buffer, ops: seq<Op>, emptyReadEnds: bool): Buffer {
    if ops == [] then b
    else Do(Reached(b, ops[..|ops| - 1], emptyReadEnds), ops[|ops| - 1], emptyReadEnds).buffer
  }

  function Answers(b: Buffer, ops: seq<Op>, emptyReadEnds: bool): seq<Answer> {
    if ops == [] then []
    else
      var before := ops[..|ops| - 1];
      Answers(b, before, emptyReadEnds)
      + [Do(Reached(b, before, emptyReadEnds), ops[|ops| - 1], emptyReadEnds).answer]
  }

  lemma AnswersNone(b: Buffer, emptyReadEnds: bool)
    ensures Answers(b, [], emptyReadEnds) == [] && Reached(b, [], emptyReadEnds) == b
  {
  }

  // ---------------------------------------------------------------- what a buffer answers

  /** The bytes that a sequence of operations hands out, one after the other. */
  function Handed(answers: seq<Answer>): seq<Byte> {
    if answers == [] then []
    else
      var last := answers[|answers| - 1];
      Handed(answers[..|answers| - 1]) + if last.Got? then last.bytes else []
  }

  /** How many bytes a sequence of reads asks for. */
  function Asked(ops: seq<Op>): nat
    requires forall i :: 0 <= i < |ops| ==> ops[i].Read?
  {
    if ops == [] then 0 else Asked(ops[..|ops| - 1]) + ops[|ops| - 1].n
  }

  /** Reads are consecutive: together they hand out the data from the position on, as
      many bytes as were asked for or as there are. */
  lemma {:induction false} ReadsConsecutive(b: Buffer, ops: seq<Op>, emptyReadEnds: bool)
    requires !b.closed && b.pos <= |b.data| && forall i :: 0 <= i < |ops| ==> ops[i].Read?
    ensures var r, n := Reached(b, ops, emptyReadEnds), Asked(ops);
            && r == Buffer(b.data, if b.pos + n <= |b.data| then b.pos + n else |b.data|, false)
            && Handed(Answers(b, ops, emptyReadEnds)) == b.data[b.pos..r.pos]
  {
    if ops != [] {
      var before, last := ops[..|ops| - 1], ops[|ops| - 1];
      ReadsConsecutive(b, before, emptyReadEnds);
      var r := Reached(b, before, emptyReadEnds);
      HandedSnoc(Answers(b, before, emptyReadEnds), Do(r, last, emptyReadEnds).answer);
      hide Handed, Do;
      OneRead(r, last.n, b.pos, emptyReadEnds);
    }
  }

  /** One read takes up where the bytes from a position on had got to. */
  lemma OneRead(r: Buffer, n: nat, from: nat, emptyReadEnds: bool)
    requires !r.closed && from <= r.pos <= |r.data|
    ensures var s := Do(r, Op.Read(n), emptyReadEnds);
            var end := if r.pos + n <= |r.data| then r.pos + n else |r.data|;
            && s.buffer == Buffer(r.data, end, false)
            && r.data[from..r.pos] + (if s.answer.Got? then s.answer.bytes else []) == r.data[from..end]
  {
    var end := if r.pos + n <= |r.data| then r.pos + n else |r.data|;
    assert r.data[from..r.pos] + r.data[r.pos..end] == r.data[from..end];
    assert r.pos == end ==> r.data[r.pos..end] == [];
  }

  lemma HandedSnoc(answers: seq<Answer>, a: Answer)
    ensures Handed(answers + [a]) == Handed(answers) + if a.Got? then a.bytes else []
  {
    assert (answers + [a])[..|answers|] == answers;
  }

  /** A seek goes to the offset from the start, the position or the end, unless that
      is negative or there is no such origin, and the next read starts there. */
  lemma SeekExactly(b: Buffer, offset: int, whence: int, n: nat, emptyReadEnds: bool)
    requires !b.closed && n > 0
    ensures var p := if whence == 0 then offset else if whence == 1 then b.pos + offset else |b.data| + offset;
            var sought := Do(b, Op.Seek(offset, whence), emptyReadEnds);
            var read := Do(sought.buffer, Op.Read(n), emptyReadEnds).answer;
            if whence in {0, 1, 2} && p >= 0
            then && sought.answer == At(p)
                 && (if p >= |b.data| then read == EndOfData
                     else read.Got? && 0 < |read.bytes| <= n && p + |read.bytes| <= |b.data|
                          && read.bytes == b.data[p..p + |read.bytes|])
            else sought == Step(b, BadSeek)
  {
  }

  /** What the other operations answer, and what a closed storage does. */
  lemma OthersExactly(b: Buffer, op: Op, emptyReadEnds: bool)
    ensures b.closed && !op.Close? ==> Do(b, op, emptyReadEnds) == Step(b, StorageClosed)
    ensures op.Close? ==> Do(b, op, emptyReadEnds) == Step(Buffer(b.data, b.pos, true), Ok)
    ensures !b.closed && op.Bytes? ==> Do(b, op, emptyReadEnds) == Step(b, Got(b.data))
    ensures !b.closed && op == Op.Read(0) ==>
              Do(b, op, emptyReadEnds) == Step(b, if b.pos >= |b.data| && emptyReadEnds then EndOfData else Got([]))
  {
    assert !b.closed && b.pos < |b.data| ==> b.data[b.pos..b.pos] == [];
  }

  // ---------------------------------------------------------------- equivalence of the two

  /** A read of no bytes at the end of the data. */
  predicate EmptyReadAtEnd(b: Buffer, op: Op) {
    op == Op.Read(0) && !b.closed && b.pos >= |b.data|
  }

  lemma StepEquivalent(b: Buffer, op: Op)
    ensures Do(b, op, true).buffer == Do(b, op, false).buffer
    ensures Do(b, op, true).answer == Do(b, op, false).answer <==> !EmptyReadAtEnd(b, op)
  {
  }

  lemma {:induction false} ReachedSame(b: Buffer, ops: seq<Op>)
    ensures Reached(b, ops, true) == Reached(b, ops, false)
  {
    if ops != [] {
      ReachedSame(b, ops[..|ops| - 1]);
      StepEquivalent(Reached(b, ops[..|ops| - 1], true), ops[|ops| - 1]);
    }
  }

  /** No operation of the sequence is an empty read at the end. */
  predicate NoEmptyReadAtEnd(b: Buffer, ops: seq<Op>) {
    if ops == [] then true
    else
      var before := ops[..|ops| - 1];
      NoEmptyReadAtEnd(b, before) && !EmptyReadAtEnd(Reached(b, before, false), ops[|ops| - 1])
  }

  /** Memory and disk storages with the same contents give the same answers to a
      sequence of operations if and only if it never reads no bytes at the end. */
  lemma {:induction false} StoragesEquivalent(b: Buffer, ops: seq<Op>)
    ensures Answers(b, ops, true) == Answers(b, ops, false) <==> NoEmptyReadAtEnd(b, ops)
  {
    if ops != [] {
      var before, last := ops[..|ops| - 1], ops[|ops| - 1];
      StoragesEquivalent(b, before);
      ReachedSame(b, before);
      StepEquivalent(Reached(b, before, false), last);
      LastDiffers(Answers(b, before, true), Do(Reached(b, before, true), last, true).answer,
                  Answers(b, before, false), Do(Reached(b, before, false), last, false).answer);
    }
  }

  lemma LastDiffers(a: seq<Answer>, x: Answer, b: seq<Answer>, y: Answer)
    ensures a + [x] == b + [y] <==> a == b && x == y
  {
    if a + [x] == b + [y] {
      assert (a + [x])[..|a|] == a && (b + [y])[..|b|] == b;
      assert (a + [x])[|a|] == x && (b + [y])[|b|] == y;
    }
  }
}
