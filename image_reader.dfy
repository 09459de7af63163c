/**
 * Walking an Atari hard-disk image: the master root sector at byte 0, then
 * the chain of container ("XGM") root sectors, each reached through the
 * first valid, active container slot of the one before, with the boot
 * sector of every real partition that fits inside the image attached.
 */
module ImageReaders {
  import opened Wrappers
  import opened Bytes
  import opened Buffers
  import opened IntUtils
  import opened Seqs
  import opened BootSectors
  import opened Partitions
  import opened RootSectors

  /** Why a walk stops: a read at a negative position, or a chain deeper than the fuel allows. */
  datatype ReadError = IllegalPosition | ChainTooLong

  /** What a file channel transfers from position pos into a buffer with room for n bytes. */
  function Chunk(image: seq<byte>, pos: int, n: nat): (c: seq<byte>)
    requires 0 <= pos
    ensures |c| <= n
    ensures pos < |image| ==> |c| == if pos + n <= |image| then n else |image| - pos
    ensures pos >= |image| ==> c == []
    ensures forall k :: 0 <= k < |c| ==> c[k] == image[pos + k]
  {
    if pos >= |image| then [] else image[pos..if pos + n <= |image| then pos + n else |image|]
  }

  /** The count read returns: the bytes transferred, or -1 at or past the end of the image. */
  function ReadCount(image: seq<byte>, pos: int, n: nat): (r: int)
    requires 0 <= pos
    ensures r == -1 <==> pos >= |image|
    ensures r != -1 ==> r == |Chunk(image, pos, n)|
  {
    if pos >= |image| then -1 else |Chunk(image, pos, n)|
  }

  /** The 512 bytes a fresh zeroed buffer holds after a read at pos. */
  function SectorAt(image: seq<byte>, pos: int): (s: seq<byte>)
    requires 0 <= pos
    ensures |s| == 512
  {
    Splice(Zeros(512), 0, Chunk(image, pos, 512))
  }

  /** Bytes of the sector inside the image are the image's bytes; those past its end read as zero. */
  lemma SectorAtBytes(image: seq<byte>, pos: int)
    requires 0 <= pos
    ensures forall k :: 0 <= k < 512 ==> SectorAt(image, pos)[k] == if pos + k < |image| then image[pos + k] else 0
  {
    SpliceIndex(Zeros(512), 0, Chunk(image, pos, 512));
  }

  /** A read that fills the whole buffer leaves nothing of what the buffer held before. */
  lemma SpliceWhole(s: seq<byte>, w: seq<byte>)
    requires |w| == |s|
    ensures Splice(s, 0, w) == w
  {
    SpliceIndex(s, 0, w);
  }

  /** readRootSector reads a boot sector for a real partition whose 512 bytes end inside the image. */
  predicate ReadsBootSector(image: seq<byte>, p: PartitionInfo) {
    p.entry.Real() && p.AbsoluteStart() + 512 <= |image|
  }

  /** A boot sector read that fails: the partition starts before the image. */
  predicate BadBootRead(image: seq<byte>, p: PartitionInfo) {
    ReadsBootSector(image, p) && p.AbsoluteStart() < 0
  }

  /** BootSector.parse of the 512 image bytes at at, read big-endian. */
  function BootSectorAt(image: seq<byte>, at: int): (b: BootSector)
    requires 0 <= at && at + 512 <= |image|
  {
    var s := image[at..at + 512];
    DecodeBootSector(s, Checksum(s, 0, 512, BigEndian))
  }

  /** A partition after the boot-sector loop of readRootSector. */
  function WithBootSector(image: seq<byte>, p: PartitionInfo): (q: PartitionInfo)
    requires !BadBootRead(image, p)
    ensures q.entry == p.entry && q.offset == p.offset
    ensures q.bootSector.Some? <==> ReadsBootSector(image, p) || p.bootSector.Some?
    ensures ReadsBootSector(image, p) ==> q.bootSector == Some(BootSectorAt(image, p.AbsoluteStart()))
    ensures !ReadsBootSector(image, p) ==> q == p
  {
    if ReadsBootSector(image, p) then p.(bootSector := Some(BootSectorAt(image, p.AbsoluteStart()))) else p
  }

  /** Attaching the boot sector twice is attaching it once: the read depends only on the slot and the offset. */
  lemma WithBootSectorAgain(image: seq<byte>, p: PartitionInfo)
    ensures BadBootRead(image, p) <==> BadBootRead(image, p.(bootSector := None))
    ensures !BadBootRead(image, p) ==> !BadBootRead(image, WithBootSector(image, p))
    ensures !BadBootRead(image, p) ==> WithBootSector(image, WithBootSector(image, p)) == WithBootSector(image, p)
  {
  }

  /** Whether some partition of a list makes the boot-sector loop fail. */
  predicate AnyBadBootRead(image: seq<byte>, ps: seq<PartitionInfo>) {
    exists j :: 0 <= j < |ps| && BadBootRead(image, ps[j])
  }

  /** Every partition of ps after the boot-sector loop, none of whose reads fails. */
  function AttachAll(image: seq<byte>, ps: seq<PartitionInfo>): (r: seq<PartitionInfo>)
    requires !AnyBadBootRead(image, ps)
    ensures |r| == |ps| && forall j :: 0 <= j < |ps| ==> r[j] == WithBootSector(image, ps[j])
  {
    if ps == [] then [] else AttachAll(image, ps[..|ps| - 1]) + [WithBootSector(image, ps[|ps| - 1])]
  }

  /**
   * readRootSector(xgmOffset, offset, diskOffset): the sector read at
   * diskOffset, parsed with the two offsets, with boot sectors attached.
   */
  function RootSectorAt(image: seq<byte>, xgmOffset: int, offset: int, diskOffset: int): Result<RootSectorInfo, ReadError>
  {
    if diskOffset < 0 then Err(IllegalPosition)
    else
      var d := DecodeRootSector(xgmOffset, offset, SectorAt(image, diskOffset));
      if AnyBadBootRead(image, d.partitions) then Err(IllegalPosition)
      else Ok(d.(partitions := AttachAll(image, d.partitions)))
  }

  /**
   * After readRootSector, a partition has a boot sector exactly when it is
   * real and its 512 bytes end inside the image, and that boot sector is the
   * one stored there; everything else is as parsed.
   */
  lemma RootSectorAtBootSectors(image: seq<byte>, xgmOffset: int, offset: int, diskOffset: int, j: int)
    requires RootSectorAt(image, xgmOffset, offset, diskOffset).Ok? && 0 <= j < SlotCount
    ensures var d := DecodeRootSector(xgmOffset, offset, SectorAt(image, diskOffset));
      var p := RootSectorAt(image, xgmOffset, offset, diskOffset).value.partitions[j];
      p.entry == d.partitions[j].entry && p.offset == d.partitions[j].offset
      && (p.bootSector.Some? <==> d.partitions[j].entry.Real() && p.AbsoluteStart() + 512 <= |image|)
      && (p.bootSector.Some? ==> 0 <= p.AbsoluteStart() && p.bootSector.value == BootSectorAt(image, p.AbsoluteStart()))
  {
    var d := DecodeRootSector(xgmOffset, offset, SectorAt(image, diskOffset));
    var q := d.partitions[j];
    RootSectorAtRead(image, xgmOffset, offset, diskOffset, d);
    var p := AttachAll(image, d.partitions)[j];
    assert p == WithBootSector(image, q);
    assert p.AbsoluteStart() == q.AbsoluteStart();
    if ReadsBootSector(image, q) {
      assert p.bootSector == Some(BootSectorAt(image, q.AbsoluteStart()));
    }
  }

  /** Partition values that are each the attached value of the one before are the attached list. */
  lemma AttachedViews(image: seq<byte>, before: seq<PartitionInfo>, after: seq<PartitionInfo>)
    requires !AnyBadBootRead(image, before) && |after| == |before|
    requires forall j :: 0 <= j < |before| ==> after[j] == WithBootSector(image, before[j])
    ensures after == AttachAll(image, before)
  {
  }

  /** readRootSector fails exactly when a boot-sector read of one of its partitions does. */
  lemma RootSectorAtBadRead(image: seq<byte>, xgmOffset: int, offset: int, diskOffset: int)
    requires diskOffset >= 0
    requires AnyBadBootRead(image, DecodeRootSector(xgmOffset, offset, SectorAt(image, diskOffset)).partitions)
    ensures RootSectorAt(image, xgmOffset, offset, diskOffset) == Err(IllegalPosition)
  {
  }

  /** Otherwise it is the parsed sector with the partitions after the boot-sector loop. */
  lemma RootSectorAtRead(image: seq<byte>, xgmOffset: int, offset: int, diskOffset: int, parsed: RootSectorInfo)
    requires diskOffset >= 0 && parsed == DecodeRootSector(xgmOffset, offset, SectorAt(image, diskOffset))
    requires !AnyBadBootRead(image, parsed.partitions)
    ensures RootSectorAt(image, xgmOffset, offset, diskOffset) == Ok(parsed.(partitions := AttachAll(image, parsed.partitions)))
  {
  }

  /** The slot followed from a list of valid, active partitions: its first container. */
  function FirstXGM(listed: seq<PartitionInfo>): (r: Option<PartitionInfo>)
  {
    if listed == [] then None
    else if listed[0].entry.IsXGM() then Some(listed[0])
    else
      FirstXGM(listed[1..])
  }

  /** FirstXGM finds a container exactly when there is one, and it is the first. */
  lemma {:induction false} FirstXGMIsFirst(listed: seq<PartitionInfo>)
    ensures FirstXGM(listed).None? <==> forall i :: 0 <= i < |listed| ==> !listed[i].entry.IsXGM()
    ensures FirstXGM(listed).Some? ==> exists i :: (0 <= i < |listed| && listed[i] == FirstXGM(listed).value
      && listed[i].entry.IsXGM() && forall k :: 0 <= k < i ==> !listed[k].entry.IsXGM())
  {
    if listed != [] && !listed[0].entry.IsXGM() {
      FirstXGMIsFirst(listed[1..]);
      assert forall i :: 1 <= i < |listed| ==> listed[i] == listed[1..][i - 1];
      if FirstXGM(listed).Some? {
        var i :| 0 <= i < |listed[1..]| && listed[1..][i] == FirstXGM(listed).value
          && listed[1..][i].entry.IsXGM() && forall k :: 0 <= k < i ==> !listed[1..][k].entry.IsXGM();
        assert listed[i + 1] == FirstXGM(listed).value;
      }
    }
  }

  /** The loop of readXGMRootSectors: the first container among listed is the one at i when none comes before it. */
  lemma {:induction false} FirstXGMAt(listed: seq<PartitionInfo>, i: nat)
    requires i <= |listed| && forall k :: 0 <= k < i ==> !listed[k].entry.IsXGM()
    ensures i < |listed| && listed[i].entry.IsXGM() ==> FirstXGM(listed) == Some(listed[i])
    ensures i == |listed| ==> FirstXGM(listed) == None
  {
    if i > 0 {
      FirstXGMAt(listed[1..], i - 1);
    }
  }

  /** The container slot of a root sector the walk follows, if any. */
  function Next(r: RootSectorInfo): Option<PartitionInfo> {
    FirstXGM(Filter(r.partitions, InfoListed))
  }

  /** Where readXGMRootSectors goes after a sector: xgmOffset plus the start of its first container slot. */
  function NextOffset(xgmOffset: int, rs: RootSectorInfo): (r: Option<int>)
  {
    match Next(rs)
    case None => None
    case Some(p) => Some(xgmOffset + p.entry.start)
  }

  /**
   * A walk over root sectors: the sector read at offset and, when step
   * gives a next offset for it, the walk from there. The source recurses
   * without a depth limit; fuel bounds the number of sectors read.
   */
  function Chain(read: int -> Result<RootSectorInfo, ReadError>, step: RootSectorInfo -> Option<int>, offset: int, fuel: nat): Result<seq<RootSectorInfo>, ReadError>
    decreases fuel
  {
    if fuel == 0 then Err(ChainTooLong)
    else
      match read(offset)
      case Err(e) => Err(e)
      case Ok(rs) =>
        match step(rs)
        case None => Ok([rs])
        case Some(next) =>
          match Chain(read, step, next, fuel - 1)
          case Err(e) => Err(e)
          case Ok(rest) => Ok([rs] + rest)
  }

  /** readRootSector(xgmOffset, o, o) over an image, as a function of o. */
  function ReaderOf(image: seq<byte>, xgmOffset: int): int -> Result<RootSectorInfo, ReadError> {
    o => RootSectorAt(image, xgmOffset, o, o)
  }

  /** The next offset readXGMRootSectors(xgmOffset, _) picks, as a function of the sector. */
  function StepOf(xgmOffset: int): RootSectorInfo -> Option<int> {
    rs => NextOffset(xgmOffset, rs)
  }

  /** readXGMRootSectors(xgmOffset, offset) over an image. */
  function ChainAt(image: seq<byte>, xgmOffset: int, offset: int, fuel: nat): Result<seq<RootSectorInfo>, ReadError> {
    Chain(ReaderOf(image, xgmOffset), StepOf(xgmOffset), offset, fuel)
  }

  /**
   * readRootSectors over a reader of sectors by offset, the offset the
   * master's container slot leads to, and the walk from such an offset:
   * the master read at byte 0, then, when it leads somewhere, the walk
   * from there.
   */
  function Descent(read: int -> Result<RootSectorInfo, ReadError>, start: RootSectorInfo -> Option<int>,
                   walk: int -> Result<seq<RootSectorInfo>, ReadError>): Result<seq<RootSectorInfo>, ReadError>
  {
    match read(0)
    case Err(e) => Err(e)
    case Ok(master) =>
      match start(master)
      case None => Ok([master])
      case Some(at) =>
        match walk(at)
        case Err(e) => Err(e)
        case Ok(rest) => Ok([master] + rest)
  }

  /** Where readRootSectors continues after the master: the absolute start of its container slot. */
  function MasterStart(master: RootSectorInfo): Option<int> {
    match Next(master)
    case None => None
    case Some(p) => Some(p.AbsoluteStart())
  }

  /** readXGMRootSectors(at, at) over an image, as a function of at. */
  function WalksOf(image: seq<byte>, fuel: nat): int -> Result<seq<RootSectorInfo>, ReadError> {
    at => ChainAt(image, at, at, fuel)
  }

  /**
   * readRootSectors: the master root sector at byte 0, parsed with both
   * offsets 0, then the chain whose first container sector sits at the
   * absolute start of the master's container slot.
   */
  function RootSectorsOf(image: seq<byte>, fuel: nat): Result<seq<RootSectorInfo>, ReadError> {
    Descent(ReaderOf(image, 0), MasterStart, WalksOf(image, fuel))
  }

  /** A walk that ended within its fuel ends the same way with more fuel. */
  lemma {:induction false} ChainMoreFuel(read: int -> Result<RootSectorInfo, ReadError>, step: RootSectorInfo -> Option<int>, offset: int, fuel: nat)
    requires Chain(read, step, offset, fuel).Ok?
    ensures Chain(read, step, offset, fuel + 1) == Chain(read, step, offset, fuel)
    decreases fuel
  {
    var rs := read(offset).value;
    if step(rs).Some? {
      ChainMoreFuel(read, step, step(rs).value, fuel - 1);
    }
  }

  /** A completed walk starts with the sector at offset, holds at most fuel sectors and ends at one step leads nowhere from. */
  lemma {:induction false} ChainEnds(read: int -> Result<RootSectorInfo, ReadError>, step: RootSectorInfo -> Option<int>, offset: int, fuel: nat)
    requires Chain(read, step, offset, fuel).Ok?
    ensures var c := Chain(read, step, offset, fuel).value;
      1 <= |c| <= fuel && read(offset) == Ok(c[0]) && step(c[|c| - 1]).None?
    decreases fuel
  {
    var rs := read(offset).value;
    if step(rs).Some? {
      ChainEnds(read, step, step(rs).value, fuel - 1);
    }
  }

  /** A walk of two or more sectors is its first sector followed by the walk from where step leads. */
  lemma ChainStep(read: int -> Result<RootSectorInfo, ReadError>, step: RootSectorInfo -> Option<int>, offset: int, fuel: nat)
    requires Chain(read, step, offset, fuel).Ok? && |Chain(read, step, offset, fuel).value| >= 2
    ensures fuel > 0 && read(offset).Ok? && step(read(offset).value).Some?
    ensures var next := step(read(offset).value).value;
      Chain(read, step, next, fuel - 1).Ok?
      && Chain(read, step, offset, fuel).value == [read(offset).value] + Chain(read, step, next, fuel - 1).value
  {
  }

  /** In a completed walk, the sector after sector k is the one read where step leads from sector k. */
  lemma {:induction false} ChainLinks(read: int -> Result<RootSectorInfo, ReadError>, step: RootSectorInfo -> Option<int>, offset: int, fuel: nat, k: nat)
    requires Chain(read, step, offset, fuel).Ok?
    requires k + 1 < |Chain(read, step, offset, fuel).value|
    ensures var c := Chain(read, step, offset, fuel).value;
      step(c[k]).Some? && read(step(c[k]).value) == Ok(c[k + 1])
    decreases fuel
  {
    ChainStep(read, step, offset, fuel);
    var c := Chain(read, step, offset, fuel).value;
    var rs := read(offset).value;
    var next := step(rs).value;
    var rest := Chain(read, step, next, fuel - 1).value;
    if k == 0 {
      ChainEnds(read, step, next, fuel - 1);
      assert c[0] == rs && c[1] == rest[0];
    } else {
      ChainLinks(read, step, next, fuel - 1, k - 1);
      assert c[k] == rest[k - 1] && c[k + 1] == rest[k];
    }
  }

  /** A sector that cannot be read ends the walk with its error. */
  lemma ChainError(read: int -> Result<RootSectorInfo, ReadError>, step: RootSectorInfo -> Option<int>, offset: int, fuel: nat)
    requires fuel > 0 && read(offset).Err?
    ensures Chain(read, step, offset, fuel) == Err(read(offset).error)
  {
  }

  /** A sector that was read starts the walk, and step says where the rest is read. */
  lemma ChainNext(read: int -> Result<RootSectorInfo, ReadError>, step: RootSectorInfo -> Option<int>, offset: int, fuel: nat, rs: RootSectorInfo)
    requires fuel > 0 && read(offset) == Ok(rs)
    ensures step(rs).None? ==> Chain(read, step, offset, fuel) == Ok([rs])
    ensures step(rs).Some? ==> var rest := Chain(read, step, step(rs).value, fuel - 1);
      && (Chain(read, step, offset, fuel).Ok? <==> rest.Ok?)
      && (rest.Err? ==> Chain(read, step, offset, fuel).error == rest.error)
      && (rest.Ok? ==> Chain(read, step, offset, fuel).value == [rs] + rest.value)
  {
  }

  /** A sector from which step leads back to itself is read again and again: no fuel is enough. */
  lemma {:induction false} ChainCycle(read: int -> Result<RootSectorInfo, ReadError>, step: RootSectorInfo -> Option<int>, offset: int, fuel: nat)
    requires read(offset).Ok? && step(read(offset).value) == Some(offset)
    ensures Chain(read, step, offset, fuel) == Err(ChainTooLong)
    decreases fuel
  {
    if fuel > 0 {
      ChainCycle(read, step, offset, fuel - 1);
    }
  }

  /**
   * Over an image, the walk follows only the first valid, active container
   * slot of each sector, reads the next sector at xgmOffset plus that slot's
   * start, and ends at a sector without one.
   */
  lemma ChainAtLinks(image: seq<byte>, xgmOffset: int, offset: int, fuel: nat, k: nat)
    requires ChainAt(image, xgmOffset, offset, fuel).Ok?
    requires k + 1 < |ChainAt(image, xgmOffset, offset, fuel).value|
    ensures var c := ChainAt(image, xgmOffset, offset, fuel).value;
      Next(c[k]).Some? && RootSectorAt(image, xgmOffset, xgmOffset + Next(c[k]).value.entry.start, xgmOffset + Next(c[k]).value.entry.start) == Ok(c[k + 1])
  {
    ChainLinks(ReaderOf(image, xgmOffset), StepOf(xgmOffset), offset, fuel, k);
  }

  /** Over an image, the walk starts with the sector at offset and ends at a sector without a valid, active container slot. */
  lemma ChainAtEnds(image: seq<byte>, xgmOffset: int, offset: int, fuel: nat)
    requires ChainAt(image, xgmOffset, offset, fuel).Ok?
    ensures var c := ChainAt(image, xgmOffset, offset, fuel).value;
      1 <= |c| <= fuel && RootSectorAt(image, xgmOffset, offset, offset) == Ok(c[0]) && Next(c[|c| - 1]).None?
  {
    ChainEnds(ReaderOf(image, xgmOffset), StepOf(xgmOffset), offset, fuel);
  }

  /** Over an image, a container slot that leads back to its own sector makes the walk run out of fuel, as the source recurses forever. */
  lemma ChainAtCycle(image: seq<byte>, xgmOffset: int, offset: int, fuel: nat)
    requires RootSectorAt(image, xgmOffset, offset, offset).Ok?
    requires var rs := RootSectorAt(image, xgmOffset, offset, offset).value;
      Next(rs).Some? && xgmOffset + Next(rs).value.entry.start == offset
    ensures ChainAt(image, xgmOffset, offset, fuel) == Err(ChainTooLong)
  {
    var rs := RootSectorAt(image, xgmOffset, offset, offset).value;
    assert ReaderOf(image, xgmOffset)(offset) == Ok(rs);
    assert StepOf(xgmOffset)(rs) == NextOffset(xgmOffset, rs) == Some(offset);
    ChainCycle(ReaderOf(image, xgmOffset), StepOf(xgmOffset), offset, fuel);
  }

  /** read stands for readRootSector(xgmOffset, o, o) over the image. */
  ghost predicate IsReader(image: seq<byte>, xgmOffset: int, read: int -> Result<RootSectorInfo, ReadError>) {
    forall o {:trigger RootSectorAt(image, xgmOffset, o, o)} :: read(o) == RootSectorAt(image, xgmOffset, o, o)
  }

  /** step stands for the loop of readXGMRootSectors that picks the next offset. */
  ghost predicate IsStep(xgmOffset: int, step: RootSectorInfo -> Option<int>) {
    forall rs {:trigger NextOffset(xgmOffset, rs)} :: step(rs) == NextOffset(xgmOffset, rs)
  }

  /** start stands for the choice of readRootSectors after the master. */
  ghost predicate IsStart(start: RootSectorInfo -> Option<int>) {
    forall rs {:trigger MasterStart(rs)} :: start(rs) == MasterStart(rs)
  }

  /**
   * walk stands for readXGMRootSectors(at, at) as a function of at: the
   * walk with readers(at) and steps(at), which stand for readRootSector and
   * the container loop with xgmOffset at.
   */
  ghost predicate IsWalk(image: seq<byte>, fuel: nat, walk: int -> Result<seq<RootSectorInfo>, ReadError>,
                         readers: int -> int -> Result<RootSectorInfo, ReadError>, steps: int -> RootSectorInfo -> Option<int>)
  {
    forall at :: IsReader(image, at, readers(at)) && IsStep(at, steps(at)) && walk(at) == Chain(readers(at), steps(at), at, fuel)
  }

  /** readRootSector(xgmOffset, o, o) as a function of xgmOffset and o. */
  function ReadersOf(image: seq<byte>): int -> int -> Result<RootSectorInfo, ReadError> {
    x => ReaderOf(image, x)
  }

  /** The container loop of readXGMRootSectors as a function of xgmOffset and the sector. */
  function StepsOf(): int -> RootSectorInfo -> Option<int> {
    x => StepOf(x)
  }

  lemma StartAndWalk(image: seq<byte>, fuel: nat)
    ensures IsStart(MasterStart) && IsWalk(image, fuel, WalksOf(image, fuel), ReadersOf(image), StepsOf())
  {
    forall at
      ensures IsReader(image, at, ReadersOf(image)(at)) && IsStep(at, StepsOf()(at))
    {
      ReaderAndStep(image, at);
    }
  }

  lemma ReaderAndStep(image: seq<byte>, xgmOffset: int)
    ensures IsReader(image, xgmOffset, ReaderOf(image, xgmOffset)) && IsStep(xgmOffset, StepOf(xgmOffset))
  {
  }

  /**
   * The walk lists the master root sector first, read at byte 0 with both
   * offsets 0, and follows its container slot from that slot's absolute start.
   */
  lemma MasterFirst(image: seq<byte>, fuel: nat)
    requires RootSectorsOf(image, fuel).Ok?
    ensures var c := RootSectorsOf(image, fuel).value;
      1 <= |c| && RootSectorAt(image, 0, 0, 0) == Ok(c[0]) && c[0].offset == 0
      && (Next(c[0]).None? ==> |c| == 1)
      && (Next(c[0]).Some? ==> var at := Next(c[0]).value.AbsoluteStart();
            ChainAt(image, at, at, fuel) == Ok(c[1..]))
  {
    var master := RootSectorAt(image, 0, 0, 0).value;
    if Next(master).Some? {
      var at := Next(master).value.AbsoluteStart();
      var c := RootSectorsOf(image, fuel).value;
      assert c == [master] + ChainAt(image, at, at, fuel).value;
      assert c[1..] == ChainAt(image, at, at, fuel).value;
    }
  }

  /** The loop of FindXGM over getPartitions, seen on values: no container before i, then the one at i or none at all. */
  lemma FirstXGMListed(rootSector: RootSector, partitions: seq<Partition>, i: int)
    requires partitions == Filter(rootSector.partitions, IsListed)
    requires 0 <= i <= |partitions| && forall k :: 0 <= k < i ==> !partitions[k].entry.IsXGM()
    ensures i < |partitions| && partitions[i].entry.IsXGM() ==> Next(rootSector.View()) == Some(partitions[i].View())
    ensures i == |partitions| ==> Next(rootSector.View()) == None
  {
    var listed := Views(partitions);
    assert Next(rootSector.View()) == FirstXGM(listed) by {
      FiltersOnValues(rootSector.partitions);
    }
    FirstXGMAt(listed, i);
  }

  /** A hard-disk image, read through a channel positioned freely. */
  class ImageReader {
    /** The image; its length is the channel's size. */
    const image: seq<byte>

    constructor (image: seq<byte>)
      ensures this.image == image
    {
      this.image := image;
    }

    /**
     * read(position, buffer): clears the buffer, transfers the bytes from
     * position into it and sets its position back to 0. A negative position
     * is refused by the channel.
     */
    method Read(position: int, buffer: ByteBuffer) returns (r: Result<int, ReadError>)
      requires buffer.Valid()
      modifies buffer, buffer.data
      ensures buffer.Valid() && buffer.position == 0 && buffer.order == old(buffer.order)
      ensures r.Err? <==> position < 0
      ensures r.Err? ==> r.error == IllegalPosition && buffer.data[..] == old(buffer.data[..])
      ensures r.Ok? ==> r.value == ReadCount(image, position, buffer.capacity)
      ensures r.Ok? ==> buffer.Bytes() == Splice(old(buffer.Bytes()), 0, Chunk(image, position, buffer.capacity))
    {
      buffer.SetPosition(0);
      if position < 0 {
        return Err(IllegalPosition);
      }
      ghost var before := buffer.Bytes();
      ghost var chunk := Chunk(image, position, buffer.capacity);
      var n := if position >= |image| then 0
        else if position + buffer.capacity <= |image| then buffer.capacity else |image| - position;
      var i := 0;
      while i < n
        invariant 0 <= i <= n && n == |chunk|
        invariant buffer.Valid() && buffer.position == 0 && buffer.order == old(buffer.order)
        invariant buffer.Bytes() == Splice(before, 0, chunk[..i])
      {
        SpliceSnoc(before, 0, chunk[..i], chunk[i]);
        assert chunk[..i + 1] == chunk[..i] + [chunk[i]];
        buffer.Put(i, image[position + i]);
        i := i + 1;
      }
      assert chunk[..n] == chunk;
      buffer.SetPosition(0);
      return Ok(if position >= |image| then -1 else n);
    }

    /**
     * readRootSector(xgmOffset, offset, diskOffset): a fresh big-endian
     * 512-byte buffer read at diskOffset and parsed, then the boot sectors of
     * its real partitions attached.
     */
    method ReadRootSector(xgmOffset: int, offset: int, diskOffset: int) returns (r: Result<RootSector, ReadError>)
      ensures r.Ok? <==> RootSectorAt(image, xgmOffset, offset, diskOffset).Ok?
      ensures r.Err? ==> r.error == IllegalPosition == RootSectorAt(image, xgmOffset, offset, diskOffset).error
      ensures r.Ok? ==> fresh(r.value) && Distinct(r.value.partitions) && forall p :: p in r.value.partitions ==> fresh(p)
      ensures r.Ok? ==> r.value.View() == RootSectorAt(image, xgmOffset, offset, diskOffset).value
    {
      var buffer := new ByteBuffer.Allocate(512);
      buffer.SetOrder(BigEndian);
      var rootSector :- ParseRootSectorAt(xgmOffset, offset, diskOffset, buffer);
      ghost var parsed := rootSector.View();
      var attached := AttachRealBootSectors(rootSector, buffer);
      if attached.Err? {
        RootSectorAtBadRead(image, xgmOffset, offset, diskOffset);
        return Err(attached.error);
      }
      RootSectorAtRead(image, xgmOffset, offset, diskOffset, parsed);
      return Ok(rootSector);
    }

    /** The second half of readRootSector: the boot-sector loop over getRealPartitions. */
    method AttachRealBootSectors(rootSector: RootSector, buffer: ByteBuffer) returns (r: Result<(), ReadError>)
      requires buffer.Valid() && buffer.capacity == 512 && buffer.order == BigEndian
      modifies buffer, buffer.data, set p | p in rootSector.partitions
      ensures r.Ok? <==> !AnyBadBootRead(image, old(Views(rootSector.partitions)))
      ensures r.Err? ==> r.error == IllegalPosition
      ensures rootSector.partitions == old(rootSector.partitions)
      ensures r.Ok? ==> Views(rootSector.partitions) == AttachAll(image, old(Views(rootSector.partitions)))
    {
      ghost var parsed := Views(rootSector.partitions);
      var reals := rootSector.GetRealPartitions();
      forall p | p in reals
        ensures p in rootSector.partitions && p.entry.Real()
      {
        FilterMembership(rootSector.partitions, IsReal, p);
      }
      var attached := AttachBootSectors(reals, buffer);
      forall j | 0 <= j < |rootSector.partitions|
        ensures rootSector.partitions[j] in reals <==> parsed[j].entry.Real()
      {
        FilterMembership(rootSector.partitions, IsReal, rootSector.partitions[j]);
      }
      if attached.Err? {
        ghost var p :| p in reals && BadBootRead(image, old(p.View()));
        ghost var j :| 0 <= j < |rootSector.partitions| && rootSector.partitions[j] == p;
        assert BadBootRead(image, parsed[j]);
        return Err(attached.error);
      }
      AttachedViews(image, parsed, Views(rootSector.partitions));
      return Ok(());
    }

    /** The first half of readRootSector: the sector read at diskOffset into a zeroed buffer, and parsed. */
    method ParseRootSectorAt(xgmOffset: int, offset: int, diskOffset: int, buffer: ByteBuffer) returns (r: Result<RootSector, ReadError>)
      requires buffer.Valid() && buffer.capacity == 512 && buffer.order == BigEndian
      requires buffer.Bytes() == Zeros(512)
      modifies buffer, buffer.data
      ensures buffer.Valid() && buffer.capacity == 512 && buffer.order == BigEndian
      ensures r.Ok? <==> diskOffset >= 0
      ensures r.Err? ==> r.error == IllegalPosition
      ensures r.Ok? ==> fresh(r.value) && Distinct(r.value.partitions) && forall p :: p in r.value.partitions ==> fresh(p)
      ensures r.Ok? ==> r.value.View() == DecodeRootSector(xgmOffset, offset, SectorAt(image, diskOffset))
    {
      var n :- Read(diskOffset, buffer);
      var rootSector := RootSector.Parse(xgmOffset, offset, buffer);
      return Ok(rootSector);
    }

    /**
     * The boot-sector loop of readRootSector: every partition of reals whose
     * 512 bytes end inside the image gets the boot sector stored there. A
     * read at a negative position stops the loop.
     */
    method AttachBootSectors(reals: seq<Partition>, buffer: ByteBuffer) returns (r: Result<(), ReadError>)
      requires buffer.Valid() && buffer.capacity == 512 && buffer.order == BigEndian
      requires forall p :: p in reals ==> p.entry.Real()
      modifies buffer, buffer.data, reals
      ensures buffer.Valid() && buffer.order == BigEndian
      ensures r.Ok? <==> forall p :: p in reals ==> !BadBootRead(image, old(p.View()))
      ensures r.Err? ==> r.error == IllegalPosition
      ensures r.Ok? ==> forall p :: p in reals ==> p.View() == WithBootSector(image, old(p.View()))
    {
      var i := 0;
      ghost var done: set<Partition> := {};
      while i < |reals|
        invariant 0 <= i <= |reals|
        invariant buffer.Valid() && buffer.capacity == 512 && buffer.order == BigEndian
        invariant forall j :: 0 <= j < i ==> reals[j] in done
        invariant forall p :: p in done ==> p in reals && !BadBootRead(image, old(p.View()))
        invariant forall p :: p in reals ==> p.View() == if p in done then WithBootSector(image, old(p.View())) else old(p.View())
      {
        var partition := reals[i];
        ghost var initial := old(partition.View());
        ghost var current := partition.View();
        WithBootSectorAgain(image, initial);
        var attached := AttachBootSector(partition, buffer);
        if attached.Err? {
          assert BadBootRead(image, initial);
          return attached;
        }
        forall p | p in reals
          ensures p.View() == if p in done + {partition} then WithBootSector(image, old(p.View())) else old(p.View())
        {
          if p == partition {
            assert p.View() == WithBootSector(image, current);
          }
        }
        done := done + {partition};
        i := i + 1;
      }
      return Ok(());
    }

    /** One pass of the boot-sector loop: read and attach the boot sector when its 512 bytes end inside the image. */
    method AttachBootSector(partition: Partition, buffer: ByteBuffer) returns (r: Result<(), ReadError>)
      requires buffer.Valid() && buffer.capacity == 512 && buffer.order == BigEndian
      requires partition.entry.Real()
      modifies buffer, buffer.data, partition
      ensures buffer.Valid() && buffer.capacity == 512 && buffer.order == BigEndian
      ensures r.Ok? <==> !BadBootRead(image, old(partition.View()))
      ensures r.Err? ==> r.error == IllegalPosition
      ensures r.Ok? ==> partition.View() == WithBootSector(image, old(partition.View()))
    {
      if partition.AbsoluteStart() + 512 <= |image| {
        var at := partition.AbsoluteStart();
        ghost var before := buffer.Bytes();
        var n :- Read(at, buffer);
        SpliceWhole(before, Chunk(image, at, 512));
        assert Chunk(image, at, 512) == image[at..at + 512];
        var bootSector := BootSectors.Parse(buffer);
        assert bootSector == BootSectorAt(image, at);
        partition.SetBootSector(Some(bootSector));
      }
      return Ok(());
    }

    /**
     * readXGMRootSectors(xgmOffset, offset, result): result followed by the
     * sector at offset and, when it has a container slot, the chain from
     * xgmOffset plus that slot's start. Fuel stands for the depth the
     * recursion can reach; read and step name readRootSector and the
     * container loop for the proof.
     */
    method ReadXGMRootSectors(xgmOffset: int, offset: int, result: seq<RootSector>, fuel: nat,
                              ghost read: int -> Result<RootSectorInfo, ReadError>, ghost step: RootSectorInfo -> Option<int>)
      returns (r: Result<seq<RootSector>, ReadError>)
      requires IsReader(image, xgmOffset, read) && IsStep(xgmOffset, step)
      ensures r.Ok? <==> Chain(read, step, offset, fuel).Ok?
      ensures r.Err? ==> r.error == Chain(read, step, offset, fuel).error
      ensures r.Ok? ==> |r.value| == |result| + |Chain(read, step, offset, fuel).value| && r.value[..|result|] == result
      ensures r.Ok? ==> forall i :: |result| <= i < |r.value| ==>
        fresh(r.value[i]) && r.value[i].View() == Chain(read, step, offset, fuel).value[i - |result|]
      decreases fuel
    {
      if fuel == 0 {
        return Err(ChainTooLong);
      }
      var rootSector, next, rs := ReadChainStep(xgmOffset, offset, read, step);
      if rootSector.Err? {
        ChainError(read, step, offset, fuel);
        return Err(rootSector.error);
      }
      ChainNext(read, step, offset, fuel, rs);
      var sectors := result + [rootSector.value];
      if next.None? {
        return Ok(sectors);
      }
      r := ReadXGMRootSectors(xgmOffset, next.value, sectors, fuel - 1, read, step);
      if r.Ok? {
        ghost var c := Chain(read, step, offset, fuel).value;
        ghost var rest := Chain(read, step, next.value, fuel - 1).value;
        assert r.value[..|result|] == result by {
          assert r.value[..|sectors|][..|result|] == result;
        }
        forall i | |result| <= i < |r.value|
          ensures fresh(r.value[i]) && r.value[i].View() == c[i - |result|]
        {
          if i == |result| {
            assert r.value[i] == rootSector.value;
          } else {
            assert c[i - |result|] == rest[i - |sectors|];
          }
        }
      }
    }

    /**
     * The body of readXGMRootSectors before its recursive call: the sector
     * at offset and the offset of the next one, xgmOffset plus the start of
     * its first container slot, if it has one.
     */
    method ReadChainStep(xgmOffset: int, offset: int, ghost read: int -> Result<RootSectorInfo, ReadError>, ghost step: RootSectorInfo -> Option<int>)
      returns (r: Result<RootSector, ReadError>, next: Option<int>, ghost rs: RootSectorInfo)
      requires IsReader(image, xgmOffset, read) && IsStep(xgmOffset, step)
      ensures r.Err? ==> read(offset) == Err(r.error)
      ensures r.Ok? ==> fresh(r.value) && read(offset) == Ok(rs) && r.value.View() == rs && next == step(rs)
    {
      r := ReadSector(xgmOffset, offset, read);
      if r.Err? {
        return r, None, RootSectorInfo(0, 0, 0, 0, 0, 0, []);
      }
      rs := r.value.View();
      var xgm := FindXGM(r.value);
      assert step(rs) == NextOffset(xgmOffset, rs);
      if xgm.None? {
        return r, None, rs;
      }
      return r, Some(xgmOffset + xgm.value.entry.start), rs;
    }

    /** readRootSector(xgmOffset, offset, offset), seen through the reader the chain is written with. */
    method ReadSector(xgmOffset: int, offset: int, ghost read: int -> Result<RootSectorInfo, ReadError>) returns (r: Result<RootSector, ReadError>)
      requires IsReader(image, xgmOffset, read)
      ensures r.Err? ==> read(offset) == Err(r.error)
      ensures r.Ok? ==> fresh(r.value) && read(offset) == Ok(r.value.View())
    {
      r := ReadRootSector(xgmOffset, offset, offset);
      assert read(offset) == RootSectorAt(image, xgmOffset, offset, offset);
    }

    /** The loop of readXGMRootSectors over getPartitions: the first container slot, if any. */
    method FindXGM(rootSector: RootSector) returns (xgm: Option<Partition>)
      ensures xgm.None? <==> Next(rootSector.View()).None?
      ensures xgm.Some? ==> xgm.value.View() == Next(rootSector.View()).value
    {
      var partitions := rootSector.GetPartitions();
      var i := 0;
      while i < |partitions|
        invariant 0 <= i <= |partitions|
        invariant forall k :: 0 <= k < i ==> !partitions[k].entry.IsXGM()
      {
        if partitions[i].entry.IsXGM() {
          FirstXGMListed(rootSector, partitions, i);
          return Some(partitions[i]);
        }
        i := i + 1;
      }
      FirstXGMListed(rootSector, partitions, i);
      return None;
    }

    /**
     * readRootSectors: the master root sector at byte 0, then, when it has
     * a valid, active container slot, the chain from that slot's absolute
     * start, which is also the offset the rest of the chain counts from.
     */
    method ReadRootSectors(fuel: nat) returns (r: Result<seq<RootSector>, ReadError>)
      ensures r.Ok? <==> RootSectorsOf(image, fuel).Ok?
      ensures r.Err? ==> r.error == RootSectorsOf(image, fuel).error
      ensures r.Ok? ==> |r.value| == |RootSectorsOf(image, fuel).value|
      ensures r.Ok? ==> forall i :: 0 <= i < |r.value| ==> fresh(r.value[i]) && r.value[i].View() == RootSectorsOf(image, fuel).value[i]
    {
      ReaderAndStep(image, 0);
      StartAndWalk(image, fuel);
      r := ReadDescent(fuel, ReaderOf(image, 0), MasterStart, WalksOf(image, fuel), ReadersOf(image), StepsOf());
    }

    /** The body of readRootSectors, seen through the functions its walk is written with. */
    method ReadDescent(fuel: nat, ghost read: int -> Result<RootSectorInfo, ReadError>, ghost start: RootSectorInfo -> Option<int>,
                       ghost walk: int -> Result<seq<RootSectorInfo>, ReadError>,
                       ghost readers: int -> int -> Result<RootSectorInfo, ReadError>, ghost steps: int -> RootSectorInfo -> Option<int>)
      returns (r: Result<seq<RootSector>, ReadError>)
      requires IsReader(image, 0, read) && IsStart(start) && IsWalk(image, fuel, walk, readers, steps)
      ensures r.Ok? <==> Descent(read, start, walk).Ok?
      ensures r.Err? ==> r.error == Descent(read, start, walk).error
      ensures r.Ok? ==> |r.value| == |Descent(read, start, walk).value|
      ensures r.Ok? ==> forall i :: 0 <= i < |r.value| ==> fresh(r.value[i]) && r.value[i].View() == Descent(read, start, walk).value[i]
    {
      var first := ReadSector(0, 0, read);
      if first.Err? {
        return Err(first.error);
      }
      var rootSector := first.value;
      ghost var master := rootSector.View();
      var next := MasterNext(rootSector, start);
      if next.None? {
        return Ok([rootSector]);
      }
      var at := next.value;
      assert IsReader(image, at, readers(at)) && IsStep(at, steps(at)) && walk(at) == Chain(readers(at), steps(at), at, fuel);
      r := ReadWalk(at, rootSector, fuel, readers(at), steps(at));
    }

    /** The container slot readRootSectors looks for in the master, and its absolute start. */
    method MasterNext(rootSector: RootSector, ghost start: RootSectorInfo -> Option<int>) returns (next: Option<int>)
      requires IsStart(start)
      ensures next == start(rootSector.View())
    {
      var xgm := FindXGM(rootSector);
      assert start(rootSector.View()) == MasterStart(rootSector.View());
      if xgm.None? {
        return None;
      }
      return Some(xgm.value.AbsoluteStart());
    }

    /** The call readXGMRootSectors(at, at, [rootSector]) of readRootSectors. */
    method ReadWalk(at: int, rootSector: RootSector, fuel: nat,
                    ghost read: int -> Result<RootSectorInfo, ReadError>, ghost step: RootSectorInfo -> Option<int>)
      returns (r: Result<seq<RootSector>, ReadError>)
      requires IsReader(image, at, read) && IsStep(at, step)
      ensures r.Ok? <==> Chain(read, step, at, fuel).Ok?
      ensures r.Err? ==> r.error == Chain(read, step, at, fuel).error
      ensures r.Ok? ==> |r.value| == 1 + |Chain(read, step, at, fuel).value|
      ensures r.Ok? ==> forall i :: 0 <= i < |r.value| ==>
        (fresh(r.value[i]) || r.value[i] == rootSector) && r.value[i].View() == ([rootSector.View()] + Chain(read, step, at, fuel).value)[i]
    {
      r := ReadXGMRootSectors(at, at, [rootSector], fuel, read, step);
      if r.Ok? {
        ghost var rest := Chain(read, step, at, fuel).value;
        forall i | 0 <= i < |r.value|
          ensures (fresh(r.value[i]) || r.value[i] == rootSector) && r.value[i].View() == ([rootSector.View()] + rest)[i]
        {
          if i == 0 {
            assert r.value[0] == r.value[..1][0];
          } else {
            assert r.value[i].View() == rest[i - 1];
          }
        }
      }
    }
  }
}