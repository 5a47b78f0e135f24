/** Chunked block reads and writes of the eMMC driver (sprd_mmc.c) against a flat card. */
module BlockIo {
  import opened Basics

  const SECTOR: nat := 512

  /** `m` with `d` written at `at`. */
  function Overlay(m: seq<Byte>, at: nat, d: seq<Byte>): (m': seq<Byte>)
    requires at + |d| <= |m|
    ensures |m'| == |m|
  {
    m[..at] + d + m[at + |d|..]
  }

  lemma {:induction false} OverlayAppend(m: seq<Byte>, at: nat, d: seq<Byte>, e: seq<Byte>)
    requires at + |d| + |e| <= |m|
    ensures Overlay(Overlay(m, at, d), at + |d|, e) == Overlay(m, at, d + e)
  {
  }

  /** Nothing outside `len` bytes from `at` has changed. */
  ghost predicate Untouched(m: seq<Byte>, m': seq<Byte>, at: nat, len: nat) {
    |m'| == |m| && forall i :: 0 <= i < |m| && !(at <= i < at + len) ==> m'[i] == m[i]
  }

  /** The first chunks are on the card and nothing else has changed. */
  ghost predicate Stored(m: seq<Byte>, m': seq<Byte>, at: nat, d: seq<Byte>, any: bool) {
    if any then at + |d| <= |m| && m' == Overlay(m, at, d) else m' == m && |d| == 0
  }

  lemma {:induction false} StoredNone(m: seq<Byte>, at: nat, src: seq<Byte>)
    ensures Stored(m, m, at, src[..0], false) && Untouched(m, m, at, |src|)
  {
  }

  lemma {:induction false} StoredAll(m: seq<Byte>, m': seq<Byte>, at: nat, src: seq<Byte>, any: bool)
    requires Stored(m, m', at, src, any)
    ensures Untouched(m, m', at, |src|)
    ensures any ==> at + |src| <= |m| && m' == Overlay(m, at, src)
  {
  }

  /** The next chunk has been written, or has failed. */
  lemma {:induction false} StoredMore(m: seq<Byte>, b: seq<Byte>, a: seq<Byte>, at: nat, src: seq<Byte>, offset: nat,
                                      len: nat, any: bool, ok: bool)
    requires offset + len <= |src| && Stored(m, b, at, src[..offset], any)
    requires Untouched(b, a, at + offset, len)
    requires ok ==> at + offset + len <= |b| && a == Overlay(b, at + offset, src[offset..offset + len])
    requires len == 0 ==> a == b
    ensures Untouched(m, a, at, |src|)
    ensures ok ==> Stored(m, a, at, src[..offset + len], true)
    ensures len == 0 && !ok ==> Stored(m, a, at, src[..offset + len], any)
  {
    if ok {
      var d, e := src[..offset], src[offset..offset + len];
      assert src[..offset + len] == d + e;
      if any { OverlayAppend(m, at, d, e); }
    }
  }

  /** The first `offset` bytes of the buffer are the card's from `base` on, once `any` chunk
      has been read. */
  ghost predicate Fetched(m: seq<Byte>, base: nat, buf: seq<Byte>, offset: nat, any: bool) {
    offset <= |buf| && (any ==> base + offset <= |m| && buf[..offset] == m[base..base + offset])
  }

  lemma {:induction false} FetchedMore(m: seq<Byte>, base: nat, b: seq<Byte>, a: seq<Byte>, offset: nat, len: nat,
                                       any: bool)
    requires Fetched(m, base, b, offset, any) && (!any ==> offset == 0)
    requires |a| == |b| && offset + len <= |a| && a[..offset] == b[..offset]
    requires base + offset + len <= |m| && a[offset..offset + len] == m[base + offset..base + offset + len]
    ensures Fetched(m, base, a, offset + len, true)
  {
    assert a[..offset + len] == a[..offset] + a[offset..offset + len];
    if any {
      assert m[base..base + offset + len] == m[base..base + offset] + m[base + offset..base + offset + len];
    } else {
      assert a[..offset] == [];
    }
  }

  /** The bytes of `n` blocks. */
  function Bytes(n: nat, len: nat): nat {
    n * len
  }

  lemma {:induction false} NoBlocks(len: nat)
    ensures Bytes(0, len) == 0
  {
  }

  /** Byte counts of adjacent block ranges add up. */
  lemma {:induction false} Blocks(a: nat, b: nat, len: nat)
    ensures Bytes(a + b, len) == Bytes(a, len) + Bytes(b, len)
  {
  }

  lemma {:induction false} SomeBytes(n: nat, len: nat)
    requires n > 0 && len > 0
    ensures Bytes(n, len) > 0
  {
  }

  lemma {:induction false} BlocksMono(a: nat, b: nat, len: nat)
    requires a <= b
    ensures a * len <= b * len
  {
  }

  /** The driver's range check: the end of the range is computed in 64 bits. */
  predicate RangePasses(start: nat, count: nat, lba: nat) {
    (start + count) % TWO_64 <= lba
  }

  /** What the check lets through is within the card if and only if the range does not
      wrap around to a place within the card. */
  lemma {:induction false} RangeCheckIff(start: nat, count: nat, lba: nat)
    requires start < TWO_64 && count < TWO_64 && lba < TWO_64
    ensures (RangePasses(start, count, lba) ==> start + count <= lba)
            <==> !(TWO_64 <= start + count <= TWO_64 + lba)
  {
    var end := start + count;
    if end >= TWO_64 { assert end % TWO_64 == end - TWO_64; }
  }

  lemma {:induction false} PassesWithin(start: nat, count: nat, lba: nat)
    requires start < TWO_64 && count < TWO_64 && lba < TWO_64
    ensures !(TWO_64 <= start + count <= TWO_64 + lba) ==> (RangePasses(start, count, lba) <==> start + count <= lba)
  {
    RangeCheckIff(start, count, lba);
  }

  /** The last 64-bit block number and two blocks: accepted on every card. */
  lemma {:induction false} RangeWrapsExample(lba: nat)
    requires 1 <= lba < TWO_64
    ensures RangePasses(TWO_64 - 1, 2, lba) && TWO_64 - 1 + 2 > lba
  {
    assert (TWO_64 - 1 + 2) % TWO_64 == 1;
  }

  /** What the card is doing: idle in the transfer state, in the middle of a multi-block read or
      write that has to be stopped, or programming what it was given. */
  datatype Phase = Idle | Sending | Receiving | Programming

  /** The card, and the host's commands to it. Every command may fail, which `faults` counts;
      a write that fails may have stored anything in its own range, and what the card is doing
      after a failure is not known. In double data rate blocks are one sector long. */
  class Card {
    var media: seq<Byte>
    var phase: Phase
    var blockLen: nat
    const highCapacity: bool
    const ddr: bool
    const maxBlocks: nat    // most blocks the host can move in one command
    ghost var faults: nat

    constructor (bytes: nat, highCapacity: bool, ddr: bool, maxBlocks: nat)
      ensures |media| == bytes && this.highCapacity == highCapacity && this.ddr == ddr && this.maxBlocks == maxBlocks
      ensures phase == Idle
    {
      media := seq(bytes, _ => 0);
      phase, blockLen := Idle, SECTOR;
      this.highCapacity, this.ddr, this.maxBlocks := highCapacity, ddr, maxBlocks;
    }

    /** High-capacity cards are addressed in sectors, the others in bytes. */
    function AddressOf(arg: nat): nat {
      if highCapacity then arg * SECTOR else arg
    }

    function BlockLength(): nat
      reads this`blockLen
    {
      if ddr then SECTOR else blockLen
    }

    /** Whether a command gets through. */
    method Transmit() returns (ok: bool)
      modifies this`faults, this`phase
      ensures faults >= old(faults) && (ok <==> faults == old(faults))
      ensures ok ==> phase == old(phase)
    {
      ok := *;
      if !ok {
        faults := faults + 1;
        phase := *;
      }
    }

    method SetBlockLen(len: nat) returns (ok: bool)
      modifies this`faults, this`phase, this`blockLen
      ensures faults >= old(faults)
      ensures ok <==> faults == old(faults) && old(phase) == Idle
      ensures ok ==> phase == Idle && blockLen == len
    {
      ok := Transmit();
      ok := ok && phase == Idle;
      if ok {
        blockLen := len;
      }
    }

    method Read(arg: nat, blocks: nat, blockSize: nat) returns (ok: bool, data: seq<Byte>)
      modifies this`faults, this`phase
      ensures faults >= old(faults)
      ensures ok <==> faults == old(faults) && old(phase) == Idle && blockSize == BlockLength() && blocks <= maxBlocks
                      && AddressOf(arg) + blocks * blockSize <= |media|
      ensures |data| == blocks * blockSize
      ensures ok ==> data == media[AddressOf(arg)..AddressOf(arg) + blocks * blockSize]
                     && phase == if blocks > 1 then Sending else Idle
    {
      var at, len := AddressOf(arg), blocks * blockSize;
      ok := Transmit();
      ok := ok && phase == Idle && blockSize == BlockLength() && blocks <= maxBlocks && at + len <= |media|;
      if ok {
        data := media[at..at + len];
        phase := if blocks > 1 then Sending else Idle;
      } else {
        data := seq(len, _ => 0);
      }
    }

    method Write(arg: nat, blocks: nat, blockSize: nat, data: seq<Byte>) returns (ok: bool)
      requires |data| == blocks * blockSize
      modifies this`faults, this`phase, this`media
      ensures faults >= old(faults)
      ensures ok <==> faults == old(faults) && old(phase) == Idle && blockSize == BlockLength() && blocks <= maxBlocks
                      && AddressOf(arg) + |data| <= |media|
      ensures Untouched(old(media), media, AddressOf(arg), |data|)
      ensures ok ==> AddressOf(arg) + |data| <= |media| && media == Overlay(old(media), AddressOf(arg), data)
                     && phase == if blocks > 1 then Receiving else Programming
    {
      var at := AddressOf(arg);
      ok := Transmit();
      ok := ok && phase == Idle && blockSize == BlockLength() && blocks <= maxBlocks && at + |data| <= |media|;
      if ok {
        media := Overlay(media, at, data);
        phase := if blocks > 1 then Receiving else Programming;
      } else if at + |data| <= |media| {
        var noise: seq<Byte> := *;
        if |noise| == |data| {
          media := Overlay(media, at, noise);
        }
      }
    }

    /** Ends a multi-block transfer. */
    method Stop() returns (ok: bool)
      modifies this`faults, this`phase
      ensures faults >= old(faults)
      ensures ok <==> faults == old(faults) && (old(phase) == Sending || old(phase) == Receiving)
      ensures ok ==> phase == if old(phase) == Sending then Idle else Programming
    {
      ok := Transmit();
      ok := ok && (phase == Sending || phase == Receiving);
      if ok {
        phase := if phase == Sending then Idle else Programming;
      }
    }

    /** Waits until the card is done with what it was given. */
    method WaitReady() returns (ok: bool)
      modifies this`faults, this`phase
      ensures faults >= old(faults)
      ensures ok <==> faults == old(faults) && (old(phase) == Programming || old(phase) == Idle)
      ensures ok ==> phase == Idle
    {
      ok := Transmit();
      ok := ok && (phase == Programming || phase == Idle);
      if ok {
        phase := Idle;
      }
    }
  }

  /** The driver's view of an initialised card. */
  class Mmc {
    const card: Card
    const readBlLen: nat
    const writeBlLen: nat
    const lba: nat          // number of blocks
    const bMax: nat         // most blocks in one command

    /** What initialisation establishes: a high-capacity card has blocks of one sector, and
        every block address fits the 32-bit command argument. */
    ghost predicate Initialised() {
      && 0 < bMax < TWO_32 && bMax <= card.maxBlocks && readBlLen > 0 && writeBlLen > 0
      && (card.ddr ==> readBlLen == SECTOR && writeBlLen == SECTOR)
      && (card.highCapacity ==> readBlLen == SECTOR && writeBlLen == SECTOR && lba <= TWO_32)
      && (!card.highCapacity ==> lba * readBlLen <= TWO_32 && lba * writeBlLen <= TWO_32)
    }

    /** The card is as large as it says. */
    ghost predicate Large()
      reads card
    {
      Bytes(lba, readBlLen) <= |card.media| && Bytes(lba, writeBlLen) <= |card.media|
    }

    /** The card is large enough, idle and set to this block length. */
    ghost predicate Prepared(len: nat)
      reads card
    {
      Large() && card.phase == Idle && card.BlockLength() == len
    }

    constructor (card: Card, readBlLen: nat, writeBlLen: nat, lba: nat, bMax: nat)
      ensures this.card == card && this.readBlLen == readBlLen && this.writeBlLen == writeBlLen
      ensures this.lba == lba && this.bMax == bMax
    {
      this.card := card;
      this.readBlLen, this.writeBlLen, this.lba, this.bMax := readBlLen, writeBlLen, lba, bMax;
    }

    /** The command argument, cut to 32 bits, still names the block. */
    lemma {:induction false} Addressed(start: nat, count: nat, len: nat)
      requires Initialised() && (len == readBlLen || len == writeBlLen)
      requires count > 0 && start + count <= lba
      ensures Bytes(start, len) + Bytes(count, len) <= Bytes(lba, len)
      ensures card.AddressOf((if card.highCapacity then start else start * len) % TWO_32) == start * len
    {
      BlocksMono(start + count, lba, len);
      Blocks(start, count, len);
      if !card.highCapacity { BytesFit(start, len); }
    }

    lemma {:induction false} BytesFit(start: nat, len: nat)
      requires len > 0 && start < lba && lba * len <= TWO_32
      ensures start * len < TWO_32
    {
      BlocksMono(start + 1, lba, len);
      assert (start + 1) * len == start * len + len;
    }

    lemma {:induction false} LbaFits()
      requires Initialised()
      ensures lba <= TWO_32 < TWO_64
    {
      if !card.highCapacity { BlocksMono(1, readBlLen, lba); }
    }

    /** Sets the block length, where it can be set. */
    method SetBlockLen(len: nat) returns (ok: bool)
      requires Initialised() && (len == readBlLen || len == writeBlLen)
      modifies card`faults, card`phase, card`blockLen
      ensures card.faults >= old(card.faults)
      ensures old(card.phase) == Idle ==> (ok <==> card.faults == old(card.faults))
      ensures ok ==> card.BlockLength() == len && (old(card.phase) == Idle ==> card.phase == Idle)
    {
      if card.ddr {
        return true;
      }
      ok := card.SetBlockLen(len);
    }

    method ReadBlocks(start: nat, count: nat) returns (done: nat, data: seq<Byte>)
      requires Initialised()
      modifies card`faults, card`phase
      ensures card.faults >= old(card.faults)
      ensures old(Prepared(readBlLen)) && 0 < count <= bMax && start + count <= lba ==>
        (done == count <==> card.faults == old(card.faults)) && (done == count ==> Prepared(readBlLen))
      ensures done == 0 || done == count
      ensures |data| == Bytes(count, readBlLen)
      ensures done == count && count > 0 && start + count <= lba ==>
        Bytes(start, readBlLen) + |data| <= |card.media|
          && data == card.media[Bytes(start, readBlLen)..Bytes(start, readBlLen) + |data|]
    {
      if count > 0 && start + count <= lba { Addressed(start, count, readBlLen); }
      Blocks(start, count, readBlLen);
      var ok;
      ok, data := card.Read((if card.highCapacity then start else Bytes(start, readBlLen)) % TWO_32, count, readBlLen);
      if !ok {
        return 0, data;
      }
      if count > 1 {
        ok := card.Stop();
        if !ok {
          return 0, data;
        }
      }
      return count, data;
    }

    /** The range wraps around 64 bits to a place within the card. */
    ghost predicate Wraps(start: nat, count: nat) {
      TWO_64 <= start + count <= TWO_64 + lba
    }

    /** The blocks of the first command. */
    function FirstChunk(count: nat): nat {
      if count > bMax then bMax else count
    }

    method WriteBlocks(start: nat, count: nat, src: seq<Byte>) returns (done: nat)
      requires Initialised() && |src| == Bytes(count, writeBlLen) && start < TWO_64 && count < TWO_64
      modifies card
      ensures card.faults >= old(card.faults) && |card.media| == |old(card.media)|
      ensures count == 0 ==> card.faults == old(card.faults) && card.phase == old(card.phase)
      ensures old(Prepared(writeBlLen)) && 0 < count <= bMax && start + count <= lba ==>
        (done == count <==> card.faults == old(card.faults)) && (done == count ==> Prepared(writeBlLen))
      ensures done == 0 || done == count
      ensures !Wraps(start, count) ==>
        && Untouched(old(card.media), card.media, Bytes(start, writeBlLen), |src|)
        && (done == count && count > 0 ==>
              start + count <= lba && Bytes(start, writeBlLen) + |src| <= |card.media|
              && card.media == Overlay(old(card.media), Bytes(start, writeBlLen), src))
      ensures count == 0 ==> card.media == old(card.media)
    {
      LbaFits();
      PassesWithin(start, count, lba);
      hide RangePasses;
      if !RangePasses(start, count, lba) {
        return 0;
      }
      if count == 0 {
        return 0;
      }
      if !Wraps(start, count) { Addressed(start, count, writeBlLen); }
      var ok := card.Write((if card.highCapacity then start else Bytes(start, writeBlLen)) % TWO_32, count,
                           writeBlLen, src);
      if !ok {
        return 0;
      }
      if count > 1 {
        ok := card.Stop();
        if !ok {
          return 0;
        }
      }
      ok := card.WaitReady();
      if !ok {
        return 0;
      }
      return count;
    }

    /** Reads one chunk into its place, behind the chunks `Fetched` before. */
    method ReadChunk(ghost base: nat, ghost any: bool, ghost fits: bool, at: nat, cur: nat, dst: array<Byte>,
                     offset: nat) returns (ok: bool)
      requires Initialised() && cur > 0 && offset + Bytes(cur, readBlLen) <= dst.Length
      requires fits ==> at + cur <= lba && Bytes(at, readBlLen) == base + offset
                        && Fetched(card.media, base, dst[..], offset, any) && (!any ==> offset == 0)
      modifies dst, card`faults, card`phase
      ensures card.faults >= old(card.faults)
      ensures old(Prepared(readBlLen)) && cur <= bMax && at + cur <= lba ==>
        (ok <==> card.faults == old(card.faults)) && (ok ==> Prepared(readBlLen))
      ensures ok && fits ==> Fetched(card.media, base, dst[..], offset + Bytes(cur, readBlLen), true)
    {
      hide Bytes, Fetched;
      ghost var before, len := dst[..], Bytes(cur, readBlLen);
      var n, data := ReadBlocks(at, cur);
      forall i | 0 <= i < |data| {
        dst[offset + i] := data[i];
      }
      ok := n == cur;
      assert dst[..][..offset] == before[..offset];
      assert dst[..][offset..offset + len] == data;
      if ok && fits { FetchedMore(card.media, base, before, dst[..], offset, len, any); }
    }

    /** MAIN: reads `count` blocks into `dst`, at most `bMax` at a time. A range that wraps
        around 64 bits to a place within the card is accepted, and then nothing is promised
        about the data. */
    method BlockRead(start: nat, count: nat, dst: array<Byte>) returns (done: nat)
      requires Initialised() && dst.Length == Bytes(count, readBlLen) && start < TWO_64 && count < TWO_64
      modifies dst, card`faults, card`phase, card`blockLen
      ensures card.faults >= old(card.faults)
      ensures Large() && old(card.phase) == Idle && count > 0 && start + count <= lba ==>
        (done == count <==> card.faults == old(card.faults)) && (done == count ==> card.phase == Idle)
      ensures done == 0 || done == count
      ensures done == count && count > 0 && start + count < TWO_64 ==>
        start + count <= lba && Bytes(start, readBlLen) + dst.Length <= |card.media|
        && dst[..] == card.media[Bytes(start, readBlLen)..Bytes(start, readBlLen) + dst.Length]
      ensures !RangePasses(start, count, lba) ==> done == 0 && dst[..] == old(dst[..])
    {
      if count == 0 {
        return 0;
      }
      if !RangePasses(start, count, lba) {
        return 0;
      }
      var ok := SetBlockLen(readBlLen);
      if !ok {
        return 0;
      }
      LbaFits();
      PassesWithin(start, count, lba);
      done := ReadAll(start, count, dst);
    }

    /** The loop over the chunks. */
    method ReadAll(start: nat, count: nat, dst: array<Byte>) returns (done: nat)
      requires Initialised() && dst.Length == Bytes(count, readBlLen) && count > 0
      requires start < TWO_64 && count < TWO_64 && (start + count <= lba || start + count >= TWO_64)
      modifies dst, card`faults, card`phase
      ensures card.faults >= old(card.faults)
      ensures old(Prepared(readBlLen)) && start + count <= lba ==>
        (done == count <==> card.faults == old(card.faults)) && (done == count ==> card.phase == Idle)
      ensures done == 0 || done == count
      ensures done == count && start + count < TWO_64 ==>
        && Bytes(start, readBlLen) + dst.Length <= |card.media|
        && dst[..] == card.media[Bytes(start, readBlLen)..Bytes(start, readBlLen) + dst.Length]
    {
      hide Bytes, Fetched;
      ghost var base, fits := Bytes(start, readBlLen), start + count < TWO_64;
      NoBlocks(readBlLen);
      LbaFits();
      var todo: nat, at: nat, offset: nat := count, start, 0;
      FetchedNone(card.media, base, dst[..]);
      while todo > 0
        invariant todo <= count && (fits ==> at == start + (count - todo))
        invariant offset + Bytes(todo, readBlLen) == dst.Length
        invariant fits ==> Bytes(at, readBlLen) == base + offset
                           && Fetched(card.media, base, dst[..], offset, todo < count)
        invariant todo == count ==> offset == 0
        invariant card.faults >= old(card.faults)
        invariant old(Prepared(readBlLen)) && start + count <= lba ==>
          card.faults == old(card.faults) && Prepared(readBlLen)
      {
        var cur := FirstChunk(todo);
        Blocks(at, cur, readBlLen);
        Blocks(todo - cur, cur, readBlLen);
        var ok := ReadChunk(base, todo < count, fits, at, cur, dst, offset);
        if !ok {
          return 0;
        }
        todo := todo - cur;
        at := (at + cur) % TWO_64;
        offset := offset + Bytes(cur, readBlLen);
      }
      if fits { FetchedAll(card.media, base, dst[..], offset); }
      return count;
    }

    lemma {:induction false} FetchedNone(m: seq<Byte>, base: nat, buf: seq<Byte>)
      ensures Fetched(m, base, buf, 0, false)
    {
    }

    lemma {:induction false} FetchedAll(m: seq<Byte>, base: nat, buf: seq<Byte>, offset: nat)
      requires Fetched(m, base, buf, offset, true) && offset == |buf|
      ensures base + |buf| <= |m| && buf == m[base..base + |buf|]
    {
      assert buf[..offset] == buf;
    }

    /** Writes one chunk from its place in `src`; when nothing wraps around, the chunks before
        it are already `Stored` in what was `media0`. */
    method WriteChunk(ghost media0: seq<Byte>, ghost base: nat, ghost any: bool, ghost fits: bool,
                      at: nat, cur: nat, src: seq<Byte>, offset: nat)
      returns (ok: bool)
      requires Initialised() && offset + Bytes(cur, writeBlLen) <= |src|
      requires at < TWO_64 && cur <= bMax
      requires fits ==> !Wraps(at, cur) && Bytes(at, writeBlLen) == base + offset
                        && Stored(media0, card.media, base, src[..offset], any)
      modifies card
      ensures card.faults >= old(card.faults)
      ensures |card.media| == |old(card.media)|
      ensures old(Prepared(writeBlLen)) && at + cur <= lba && cur > 0 ==>
        (ok <==> card.faults == old(card.faults)) && (ok ==> Prepared(writeBlLen))
      ensures cur == 0 ==> ok && card.faults == old(card.faults) && card.phase == old(card.phase)
      ensures fits ==>
        && Untouched(media0, card.media, base, |src|)
        && (ok ==> Stored(media0, card.media, base, src[..offset + Bytes(cur, writeBlLen)], any || cur > 0))
        && (ok && cur > 0 ==> at + cur <= lba)
    {
      hide Bytes, Overlay, Untouched, Stored;
      NoBlocks(writeBlLen);
      if cur > 0 { SomeBytes(cur, writeBlLen); }
      ghost var before, len := card.media, Bytes(cur, writeBlLen);
      var n := WriteBlocks(at, cur, src[offset..offset + Bytes(cur, writeBlLen)]);
      if fits { StoredMore(media0, before, card.media, base, src, offset, len, any, n == cur && cur > 0); }
      ok := n == cur;
    }

    /** MAIN: writes `count` blocks from `src`, at most `bMax` at a time. Only when the very
        first command wraps around 64 bits to a place within the card is nothing promised. */
    method BlockWrite(start: nat, count: nat, src: seq<Byte>) returns (done: nat)
      requires Initialised() && |src| == Bytes(count, writeBlLen) && start < TWO_64 && count < TWO_64
      modifies card
      ensures card.faults >= old(card.faults) && |card.media| == |old(card.media)|
      ensures old(Large()) && old(card.phase) == Idle && count > 0 && start + count <= lba ==>
        (done == count <==> card.faults == old(card.faults)) && (done == count ==> card.phase == Idle)
      ensures done == 0 || done == count
      ensures !Wraps(start, FirstChunk(count)) ==>
        && Untouched(old(card.media), card.media, Bytes(start, writeBlLen), |src|)
        && (done == count && count > 0 ==>
              start + count <= lba && Bytes(start, writeBlLen) + |src| <= |card.media|
              && card.media == Overlay(old(card.media), Bytes(start, writeBlLen), src))
    {
      hide Bytes, Overlay, Untouched, Stored;
      ghost var media0, base, fits := card.media, Bytes(start, writeBlLen), !Wraps(start, FirstChunk(count));
      NoBlocks(writeBlLen);
      StoredNone(media0, base, src);
      var ok := SetBlockLen(writeBlLen);
      if !ok {
        return 0;
      }
      var todo: nat, at: nat, offset: nat := count, start, 0;
      while true
        invariant todo <= count && at < TWO_64
        invariant fits ==> at == start + (count - todo) && if todo == count then !Wraps(at, FirstChunk(todo))
          else at <= lba
        invariant offset + Bytes(todo, writeBlLen) == |src|
        invariant fits ==> Bytes(at, writeBlLen) == base + offset
                           && Stored(media0, card.media, base, src[..offset], todo < count)
        invariant todo < count ==> todo > 0
        invariant card.faults >= old(card.faults) && |card.media| == |old(card.media)|
        invariant old(Large() && card.phase == Idle) && start + count <= lba ==>
          card.faults == old(card.faults) && Prepared(writeBlLen) && at == start + (count - todo)
        decreases todo
      {
        var cur := FirstChunk(todo);
        Blocks(at, cur, writeBlLen);
        Blocks(todo - cur, cur, writeBlLen);
        ok := WriteChunk(media0, base, todo < count, fits, at, cur, src, offset);
        if !ok {
          return 0;
        }
        todo := todo - cur;
        offset := offset + Bytes(cur, writeBlLen);
        if todo == 0 {
          if fits { StoredWhole(media0, card.media, base, src, offset, count > 0); }
          return count;
        }
        at := (at + cur) % TWO_64;
      }
    }

    lemma {:induction false} StoredWhole(m: seq<Byte>, m': seq<Byte>, at: nat, src: seq<Byte>, offset: nat, any: bool)
      requires offset == |src| && Stored(m, m', at, src[..offset], any)
      ensures Untouched(m, m', at, |src|)
      ensures any ==> at + |src| <= |m| && m' == Overlay(m, at, src)
    {
      assert src[..offset] == src;
      StoredAll(m, m', at, src, any);
    }

    /** MAIN: what a successful write stored, a successful read of the same blocks returns,
        when both block lengths agree. */
    method WriteThenRead(start: nat, count: nat, src: seq<Byte>, dst: array<Byte>) returns (written: nat, read: nat)
      requires Initialised() && readBlLen == writeBlLen && start < TWO_64 && count < TWO_64
      requires |src| == dst.Length == Bytes(count, readBlLen)
      modifies card, dst
      ensures written == count && read == count && start + count < TWO_64 ==> dst[..] == src
      ensures old(Large() && card.phase == Idle) && count > 0 && start + count <= lba
              && card.faults == old(card.faults) ==>
        dst[..] == src
    {
      hide Bytes;
      NoBlocks(readBlLen);
      LbaFits();
      written := BlockWrite(start, count, src);
      read := BlockRead(start, count, dst);
    }
  }
}
