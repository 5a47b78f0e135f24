/** Erasing block ranges of an eMMC card (sprd_mmc.c): the range is cut at erase group
    borders, whole groups are erased, partial ones trimmed. */
module BlockErase {
  import opened Basics
  import LongDivision

  const ERASE: nat := 0
  const TRIM: nat := 1

  /** One erase operation: `len` blocks from `start`. */
  datatype Piece = Piece(start: nat, len: nat, kind: nat)

  /** The pieces of a range that starts on a group border. */
  function Groups(start: nat, count: nat, grp: nat): (ps: seq<Piece>)
    requires grp > 0
    decreases count
  {
    if count == 0 then []
    else if count >= grp then [Piece(start, grp, ERASE)] + Groups(start + grp, count - grp, grp)
    else [Piece(start, count, TRIM)]
  }

  /** The blocks up to the next group border, at most `count`. */
  function HeadLength(start: nat, count: nat, grp: nat): (h: nat)
    requires grp > 0
    ensures h <= count && h < grp + 1
  {
    var left := grp - start % grp;
    if count < left then count else left
  }

  /** The pieces of any range: a partial group in front when the start is not on a border. */
  function Pieces(start: nat, count: nat, grp: nat): (ps: seq<Piece>)
    requires grp > 0
  {
    if start % grp != 0 then
      var h := HeadLength(start, count, grp);
      [Piece(start, h, TRIM)] + Groups(start + h, count - h, grp)
    else
      Groups(start, count, grp)
  }

  predicate In(b: int, p: Piece) {
    p.start <= b < p.start + p.len
  }

  /** In how many of the pieces a block lies. */
  function Times(b: int, ps: seq<Piece>): (n: nat) {
    if |ps| == 0 then 0 else (if In(b, ps[0]) then 1 else 0) + Times(b, ps[1..])
  }

  function Total(ps: seq<Piece>): (n: nat) {
    if |ps| == 0 then 0 else ps[0].len + Total(ps[1..])
  }

  lemma {:induction false} TimesConcat(b: int, p: Piece, ps: seq<Piece>)
    ensures Times(b, [p] + ps) == (if In(b, p) then 1 else 0) + Times(b, ps)
    ensures Total([p] + ps) == p.len + Total(ps)
  {
    assert ([p] + ps)[1..] == ps;
  }

  lemma {:induction false} GroupsPartition(start: nat, count: nat, grp: nat, b: int)
    requires grp > 0
    ensures Times(b, Groups(start, count, grp)) == if start <= b < start + count then 1 else 0
    ensures Total(Groups(start, count, grp)) == count
    decreases count
  {
    if count == 0 {
    } else if count >= grp {
      GroupsPartition(start + grp, count - grp, grp, b);
      TimesConcat(b, Piece(start, grp, ERASE), Groups(start + grp, count - grp, grp));
    } else {
      TimesConcat(b, Piece(start, count, TRIM), []);
      assert [Piece(start, count, TRIM)] + [] == [Piece(start, count, TRIM)];
    }
  }

  /** MAIN: every block of the range lies in exactly one piece, and no other block in any. */
  lemma {:induction false} PiecesPartition(start: nat, count: nat, grp: nat, b: int)
    requires grp > 0
    ensures Times(b, Pieces(start, count, grp)) == if start <= b < start + count then 1 else 0
    ensures Total(Pieces(start, count, grp)) == count
  {
    if start % grp != 0 {
      var h := HeadLength(start, count, grp);
      GroupsPartition(start + h, count - h, grp, b);
      TimesConcat(b, Piece(start, h, TRIM), Groups(start + h, count - h, grp));
    } else {
      GroupsPartition(start, count, grp, b);
    }
  }

  /** The next piece starts where the one before it ends. */
  ghost predicate InOrder(ps: seq<Piece>, start: nat) {
    |ps| == 0 || (ps[0].start == start && InOrder(ps[1..], start + ps[0].len))
  }

  /** What may be erased as a whole: one aligned group. Anything else is trimmed and lies
      within one group. */
  ghost predicate Proper(p: Piece, grp: nat)
    requires grp > 0
  {
    if p.kind == ERASE then p.start % grp == 0 && p.len == grp
    else p.kind == TRIM && p.len < grp && p.start % grp + p.len <= grp
  }

  lemma {:induction false} NextBorder(start: nat, grp: nat)
    requires grp > 0
    ensures (start + grp) % grp == start % grp
    ensures start % grp != 0 ==> (start + (grp - start % grp)) % grp == 0
  {
    var q := start / grp;
    assert start == q * grp + start % grp;
    LongDivision.DivisionIsUnique(start + grp, grp, q + 1, start % grp);
    if start % grp != 0 { LongDivision.DivisionIsUnique(start + (grp - start % grp), grp, q + 1, 0); }
  }

  lemma {:induction false} GroupsProper(start: nat, count: nat, grp: nat)
    requires grp > 0 && (start % grp == 0 || count == 0)
    ensures InOrder(Groups(start, count, grp), start)
    ensures forall p :: p in Groups(start, count, grp) ==> Proper(p, grp) && p.len > 0
    decreases count
  {
    if count >= grp {
      NextBorder(start, grp);
      GroupsProper(start + grp, count - grp, grp);
      var rest := Groups(start + grp, count - grp, grp);
      assert ([Piece(start, grp, ERASE)] + rest)[1..] == rest;
    }
  }

  /** MAIN: the pieces follow one another, and whole-group erases hit only whole aligned
      groups. */
  lemma {:induction false} PiecesProper(start: nat, count: nat, grp: nat)
    requires grp > 0
    ensures InOrder(Pieces(start, count, grp), start)
    ensures forall p :: p in Pieces(start, count, grp) ==> Proper(p, grp)
  {
    if start % grp != 0 {
      NextBorder(start, grp);
      var h := HeadLength(start, count, grp);
      GroupsProper(start + h, count - h, grp);
      Prepended(Piece(start, h, TRIM), Groups(start + h, count - h, grp), grp);
    } else {
      GroupsProper(start, count, grp);
    }
  }

  lemma {:induction false} Prepended(p: Piece, rest: seq<Piece>, grp: nat)
    requires grp > 0 && Proper(p, grp) && InOrder(rest, p.start + p.len)
    requires forall q :: q in rest ==> Proper(q, grp)
    ensures InOrder([p] + rest, p.start)
    ensures forall q :: q in [p] + rest ==> Proper(q, grp)
  {
    assert ([p] + rest)[1..] == rest;
  }

  /** MAIN: an empty range whose start is not on a border still leads to one operation, on
      an empty piece whose last block lies before its first; no other range does. */
  lemma {:induction false} NoEmptyPieceIff(start: nat, count: nat, grp: nat)
    requires grp > 0
    ensures (forall p :: p in Pieces(start, count, grp) ==> p.len > 0) <==> (count > 0 || start % grp == 0)
  {
    if start % grp != 0 {
      NextBorder(start, grp);
      var h := HeadLength(start, count, grp);
      GroupsProper(start + h, count - h, grp);
      assert Pieces(start, count, grp)[0] == Piece(start, h, TRIM);
    } else {
      GroupsProper(start, count, grp);
    }
  }

  /** No block from block 1 on, in groups of two. */
  lemma {:induction false} EmptyPieceExample()
    ensures Pieces(1, 0, 2) == [Piece(1, 0, TRIM)]
    ensures AddressesOf(Piece(1, 0, TRIM), true, 512) == Addresses(1, 0)
  {
  }

  // ---- command arguments ----

  /** The two 32-bit addresses sent for a piece. */
  datatype Addresses = Addresses(first: nat, last: nat)

  function AddressesOf(p: Piece, highCapacity: bool, len: nat): (a: Addresses) {
    if highCapacity then Addresses(p.start % TWO_32, (p.start + p.len - 1) % TWO_32)
    else Addresses(p.start * len % TWO_32, (p.start + p.len - 1) * len % TWO_32)
  }

  /** The blocks a card erases: from the block of the first address to the block of the last. */
  function BlockAt(address: nat, highCapacity: bool, len: nat): (b: nat)
    requires len > 0
  {
    if highCapacity then address else address / len
  }

  lemma {:induction false} BlockOfAddress(b: nat, len: nat)
    requires len > 0
    ensures b * len / len == b
  {
    LongDivision.DivisionIsUnique(b * len, len, b, 0);
  }

  /** The two addresses name the first and the last block of the piece. */
  predicate Named(p: Piece, highCapacity: bool, len: nat)
    requires len > 0 && p.len > 0
  {
    var a := AddressesOf(p, highCapacity, len);
    BlockAt(a.first, highCapacity, len) == p.start && BlockAt(a.last, highCapacity, len) == p.start + p.len - 1
  }

  /** MAIN: the addresses name the piece if and only if the address of its last block fits
      32 bits. */
  lemma {:induction false} AddressesNamePieceIff(p: Piece, highCapacity: bool, len: nat)
    requires len > 0 && p.len > 0
    ensures Named(p, highCapacity, len)
            <==> (if highCapacity then p.start + p.len - 1 else (p.start + p.len - 1) * len) < TWO_32
  {
    if !highCapacity {
      var last := p.start + p.len - 1;
      FirstBeforeLast(p.start, last, len);
      BlockOfAddress(p.start, len);
      BlockOfAddress(last, len);
      if last * len < TWO_32 {
        NotCut(p.start * len);
        NotCut(last * len);
      } else {
        CutNamesLess(last, len);
      }
    }
  }

  /** An address that is cut names an earlier block. */
  lemma {:induction false} CutNamesLess(b: nat, len: nat)
    requires len > 0 && b * len >= TWO_32
    ensures b * len % TWO_32 / len < b
  {
    var cut := b * len % TWO_32;
    var q := cut / len;
    assert cut == q * len + cut % len;
    if q >= b { FirstBeforeLast(b, q, len); }
  }

  lemma {:induction false} NotCut(x: nat)
    requires x < TWO_32
    ensures x % TWO_32 == x
  {
  }

  lemma {:induction false} FirstBeforeLast(first: nat, last: nat, len: nat)
    requires first <= last
    ensures first * len <= last * len
  {
    assert last * len == first * len + (last - first) * len;
  }

  /** The last block of the largest high-capacity range, and one block more. */
  lemma {:induction false} AddressesExample()
    ensures Named(Piece(0xFFFF_FFFF, 1, TRIM), true, 512) && !Named(Piece(0xFFFF_FFFF, 2, TRIM), true, 512)
  {
  }

  /** One acknowledged erase command. */
  datatype Erased = Erased(at: Addresses, kind: nat)

  function Commands(ps: seq<Piece>, highCapacity: bool, len: nat): (cs: seq<Erased>)
    ensures |cs| == |ps|
  {
    seq(|ps|, i requires 0 <= i < |ps| => Erased(AddressesOf(ps[i], highCapacity, len), ps[i].kind))
  }

  lemma {:induction false} OneMore(ps: seq<Piece>, p: Piece, highCapacity: bool, len: nat)
    ensures Commands(ps + [p], highCapacity, len)
      == Commands(ps, highCapacity, len) + [Erased(AddressesOf(p, highCapacity, len), p.kind)]
    ensures Total(ps + [p]) == Total(ps) + p.len
  {
    TotalAppend(ps, p);
  }

  lemma {:induction false} TotalAppend(ps: seq<Piece>, p: Piece)
    ensures Total(ps + [p]) == Total(ps) + p.len
  {
    if |ps| > 0 {
      TotalAppend(ps[1..], p);
      assert (ps + [p])[1..] == ps[1..] + [p];
    }
  }

  /** How far an erase of a range has come: `done` pieces, `blk` blocks. */
  ghost predicate Progress(ps: seq<Piece>, start: nat, count: nat, grp: nat, highCapacity: bool, len: nat,
                           log0: seq<Erased>, log: seq<Erased>, done: nat, blk: nat)
    requires grp > 0
  {
    && done <= |ps| && blk <= count
    && ps[done..] == Groups(start + blk, count - blk, grp)
    && log == log0 + Commands(ps[..done], highCapacity, len)
    && Total(ps[..done]) == blk
  }

  lemma {:induction false} ProgressStart(start: nat, count: nat, grp: nat, highCapacity: bool, len: nat,
                                         log: seq<Erased>)
    requires grp > 0
    ensures var ps := Pieces(start, count, grp);
            && log == log + Commands(ps[..0], highCapacity, len)
            && (start % grp == 0 ==> Progress(ps, start, count, grp, highCapacity, len, log, log, 0, 0))
            && (start % grp != 0 ==> var h := HeadLength(start, count, grp);
                                     Progress(ps, start, count, grp, highCapacity, len, log,
                                              log + [Erased(AddressesOf(Piece(start, h, TRIM), highCapacity, len),
                                                            TRIM)], 1, h))
  {
    var ps := Pieces(start, count, grp);
    assert Commands(ps[..0], highCapacity, len) == [];
    if start % grp != 0 {
      OneMore([], ps[0], highCapacity, len);
      assert ps[..1] == [] + [ps[0]];
    } else {
      assert ps[0..] == ps;
    }
  }

  /** The piece the loop works on next. */
  function NextPiece(start: nat, blk: nat, count: nat, grp: nat): (p: Piece)
    requires blk < count
  {
    if count - blk >= grp then Piece(start + blk, grp, ERASE) else Piece(start + blk, count - blk, TRIM)
  }

  lemma {:induction false} ProgressStep(ps: seq<Piece>, start: nat, count: nat, grp: nat, highCapacity: bool, len: nat,
                                        log0: seq<Erased>, log: seq<Erased>, done: nat, blk: nat)
    requires grp > 0 && blk < count && Progress(ps, start, count, grp, highCapacity, len, log0, log, done, blk)
    ensures var p := NextPiece(start, blk, count, grp);
            Progress(ps, start, count, grp, highCapacity, len, log0,
                     log + [Erased(AddressesOf(p, highCapacity, len), p.kind)], done + 1, blk + p.len)
  {
    var p := NextPiece(start, blk, count, grp);
    assert ps[done..][0] == p == ps[done];
    OneMore(ps[..done], p, highCapacity, len);
    assert ps[..done + 1] == ps[..done] + [p];
    assert ps[done + 1..] == ps[done..][1..];
  }

  lemma {:induction false} ProgressEnd(ps: seq<Piece>, start: nat, count: nat, grp: nat, highCapacity: bool, len: nat,
                                       log0: seq<Erased>, log: seq<Erased>, done: nat, blk: nat)
    requires grp > 0 && Progress(ps, start, count, grp, highCapacity, len, log0, log, done, blk)
    ensures done <= |ps| && blk <= count && log == log0 + Commands(ps[..done], highCapacity, len)
      && Total(ps[..done]) == blk
    ensures blk == count ==> done == |ps|
  {
  }

  /** The card's side of an erase: two commands name the first and the last address, a third
      erases what they name, and until it is done the card is busy. Any command may fail, which
      `faults` counts; then it is not known whether the card is busy. */
  class Card {
    var first: nat
    var last: nat
    var busy: bool
    var log: seq<Erased>      // the erase commands the card has acknowledged
    ghost var faults: nat

    constructor ()
      ensures log == [] && !busy
    {
      first, last, busy, log := 0, 0, false, [];
    }

    method Transmit() returns (ok: bool)
      modifies this`faults, this`busy
      ensures faults >= old(faults) && (ok <==> faults == old(faults))
      ensures ok ==> busy == old(busy)
    {
      ok := *;
      if !ok {
        faults := faults + 1;
        busy := *;
      }
    }

    method GroupStart(address: nat) returns (ok: bool)
      modifies this`faults, this`busy, this`first
      ensures faults >= old(faults) && (ok <==> faults == old(faults) && !old(busy))
      ensures ok ==> !busy && first == address
    {
      ok := Transmit();
      ok := ok && !busy;
      if ok {
        first := address;
      }
    }

    method GroupEnd(address: nat) returns (ok: bool)
      modifies this`faults, this`busy, this`last
      ensures faults >= old(faults) && (ok <==> faults == old(faults) && !old(busy))
      ensures ok ==> !busy && last == address
    {
      ok := Transmit();
      ok := ok && !busy;
      if ok {
        last := address;
      }
    }

    method Erase(kind: nat) returns (ok: bool)
      modifies this`faults, this`busy, this`log
      ensures faults >= old(faults) && (ok <==> faults == old(faults) && !old(busy))
      ensures ok ==> busy
      ensures log == if ok then old(log) + [Erased(Addresses(first, last), kind)] else old(log)
    {
      ok := Transmit();
      ok := ok && !busy;
      if ok {
        log := log + [Erased(Addresses(first, last), kind)];
        busy := true;
      }
    }

    method WaitReady() returns (ok: bool)
      modifies this`faults, this`busy
      ensures faults >= old(faults) && (ok <==> faults == old(faults))
      ensures ok ==> !busy
    {
      ok := Transmit();
      if ok {
        busy := false;
      }
    }
  }

  class Mmc {
    const card: Card
    const highCapacity: bool
    const writeBlLen: nat
    const eraseGrpSize: nat

    constructor (card: Card, highCapacity: bool, writeBlLen: nat, eraseGrpSize: nat)
      ensures this.card == card && this.highCapacity == highCapacity
      ensures this.writeBlLen == writeBlLen && this.eraseGrpSize == eraseGrpSize
    {
      this.card, this.highCapacity, this.writeBlLen, this.eraseGrpSize := card, highCapacity, writeBlLen, eraseGrpSize;
    }

    /** Start address, end address, erase. */
    method EraseT(start: nat, count: nat, kind: nat) returns (ok: bool)
      modifies card
      ensures card.faults >= old(card.faults)
      ensures ok <==> card.faults == old(card.faults) && !old(card.busy)
      ensures card.log
              == if ok then
                   old(card.log) + [Erased(AddressesOf(Piece(start, count, kind), highCapacity, writeBlLen), kind)]
                 else old(card.log)
    {
      var first, last: int;
      if highCapacity {
        first, last := start, start + count - 1;
      } else {
        first, last := start * writeBlLen, (start + count - 1) * writeBlLen;
      }
      ok := card.GroupStart(first % TWO_32);
      if !ok {
        return;
      }
      ok := card.GroupEnd(last % TWO_32);
      if !ok {
        return;
      }
      ok := card.Erase(kind);
    }

    /** MAIN: the acknowledged commands are always the first pieces of the range in order.
        A positive result is the length they cover; the whole length means all of them; -1
        means that the leading partial group failed and nothing was erased. Only when the
        card stays `busy` after some piece does zero say nothing. */
    method BlockEraseRange(start: nat, count: nat) returns (result: int, ghost done: nat, ghost busy: bool)
      requires eraseGrpSize > 0
      modifies card
      ensures card.faults == old(card.faults) && !old(card.busy) ==>
        result == count && done == |Pieces(start, count, eraseGrpSize)| && !card.busy
      ensures result == count > 0 || (result == count && !busy) ==> card.faults == old(card.faults)
      ensures done <= |Pieces(start, count, eraseGrpSize)|
      ensures card.log == old(card.log) + Commands(Pieces(start, count, eraseGrpSize)[..done], highCapacity, writeBlLen)
      ensures result == -1 || 0 <= result <= count
      ensures busy ==> result == 0 && done > 0
      ensures !busy && result >= 0 ==> result == Total(Pieces(start, count, eraseGrpSize)[..done])
      ensures result == count > 0 ==> done == |Pieces(start, count, eraseGrpSize)|
      ensures result == -1 ==> done == 0 && start % eraseGrpSize != 0
    {
      hide Pieces, Groups, Progress, Commands, Total, AddressesOf;
      ghost var ps := Pieces(start, count, eraseGrpSize);
      ghost var log0 := card.log;
      done := 0;
      var blk: nat := 0;
      ProgressStart(start, count, eraseGrpSize, highCapacity, writeBlLen, card.log);
      if start % eraseGrpSize != 0 {
        var r := HeadLength(start, count, eraseGrpSize);
        var ok := EraseT(start, r, TRIM);
        if !ok {
          return -1, 0, false;
        }
        blk := blk + r;
        done := 1;
        ProgressEnd(ps, start, count, eraseGrpSize, highCapacity, writeBlLen, log0, card.log, done, blk);
        ok := card.WaitReady();
        if !ok {
          return 0, done, true;
        }
      }
      result, done, busy := EraseGroups(ps, log0, done, start, blk, count);
    }

    /** The loop over the rest of the range, `blk` blocks of which are done. */
    method EraseGroups(ghost ps: seq<Piece>, ghost log0: seq<Erased>, ghost done0: nat, start: nat, blk0: nat,
                       count: nat)
      returns (result: int, ghost done: nat, ghost busy: bool)
      requires eraseGrpSize > 0
        && Progress(ps, start, count, eraseGrpSize, highCapacity, writeBlLen, log0, card.log, done0, blk0)
      modifies card
      ensures card.faults >= old(card.faults) && (result == count && !busy ==> card.faults == old(card.faults))
      ensures card.faults == old(card.faults) && !old(card.busy) ==>
        result == count && !busy && done == |ps| && !card.busy
      ensures done <= |ps| && card.log == log0 + Commands(ps[..done], highCapacity, writeBlLen)
      ensures 0 <= result <= count
      ensures busy ==> result == 0 && done > 0
      ensures !busy ==> result == Total(ps[..done])
      ensures result == count > 0 ==> done == |ps|
    {
      hide Pieces, Groups, Progress, Commands, Total, AddressesOf;
      var blk := blk0;
      done := done0;
      ProgressEnd(ps, start, count, eraseGrpSize, highCapacity, writeBlLen, log0, card.log, done, blk);
      while blk < count
        invariant card.faults == old(card.faults) && (!old(card.busy) ==> !card.busy)
        invariant blk <= count
          && Progress(ps, start, count, eraseGrpSize, highCapacity, writeBlLen, log0, card.log, done, blk)
      {
        ProgressStep(ps, start, count, eraseGrpSize, highCapacity, writeBlLen, log0, card.log, done, blk);
        var r := if count - blk >= eraseGrpSize then eraseGrpSize else count - blk;
        var ok;
        if count - blk >= eraseGrpSize {
          ok := EraseT(start + blk, r, ERASE);
        } else {
          ok := EraseT(start + blk, r, TRIM);
        }
        if !ok {
          break;
        }
        blk := blk + r;
        done := done + 1;
        ProgressEnd(ps, start, count, eraseGrpSize, highCapacity, writeBlLen, log0, card.log, done, blk);
        ok := card.WaitReady();
        if !ok {
          return 0, done, true;
        }
      }
      ProgressEnd(ps, start, count, eraseGrpSize, highCapacity, writeBlLen, log0, card.log, done, blk);
      result, busy := blk, false;
    }
  }
}
