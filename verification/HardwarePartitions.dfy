/** The driver's partition configuration (sprd_mmc.c) as it talks to the card, one EXT_CSD
    byte at a time, and the decoding at start-up. */
module HardwarePartitions {
  import opened Basics
  import opened PartitionPlan

  datatype Status = Ok | Invalid | Medium | Permission | Io

  const EXT_CSD_REV: nat := 192

  /** The version an EXT_CSD revision stands for; other revisions say nothing. */
  function VersionOf(rev: Byte, was: nat): nat {
    match rev
    case 1 => 0x4004_0100
    case 2 => 0x4004_0200
    case 3 => 0x4004_0300
    case 5 => VERSION_4_41
    case 6 => 0x4004_0500
    case 7 => 0x4005_0000
    case _ => was
  }

  /** The number of an eMMC version. */
  function Made(major: nat, minor: nat, change: nat): nat {
    0x4000_0000 + major * 0x1_0000 + minor * 0x100 + change
  }

  /** MAIN: revisions 5, 6 and 7 are versions 4.41, 4.5 and 5.0, on which partitioning is
      possible; 1, 2 and 3 are older ones, on which no request is accepted. */
  lemma {:induction false} RevisionsThatPartition(rev: Byte, was: nat, isSd: bool, partSupport: nat, hc: nat,
                                                  conf: Conf, mode: nat, c: seq<Byte>)
    requires IsConf(conf) && |c| == CSD_BYTES
    ensures rev == 5 ==> VersionOf(rev, was) == Made(4, 4, 1)
    ensures rev == 6 ==> VersionOf(rev, was) == Made(4, 5, 0)
    ensures rev == 7 ==> VersionOf(rev, was) == Made(5, 0, 0)
    ensures 1 <= rev <= 3 ==> VersionOf(rev, was) == Made(4, rev as int, 0)
    ensures !(1 <= rev <= 3 || 5 <= rev <= 7) ==> VersionOf(rev, was) == was
    ensures VersionOf(rev, was) >= VERSION_4_41 <==>
      5 <= rev <= 7 || (!(1 <= rev <= 3) && was >= Made(4, 4, 1))
    ensures 1 <= rev <= 3 ==> !Accepted(isSd, VersionOf(rev, was), partSupport, hc, conf, mode, c)
  {
    if 1 <= rev <= 3 { assert VersionOf(rev, was) == Made(4, rev as int, 0); }
  }

  /** Only partition bytes, the reliability byte and the erase-group switch may differ. */
  ghost predicate SameElsewhere(c: seq<Byte>, c': seq<Byte>) {
    && |c'| == |c|
    && forall j :: 0 <= j < |c|
                   && !(ENH_START_ADDR <= j <= PARTITIONS_ATTRIBUTE || j == WR_REL_SET || j == ERASE_GROUP_DEF) ==>
      c'[j] == c[j]
  }

  lemma {:induction false} SameItself(c: seq<Byte>)
    ensures SameElsewhere(c, c)
  {
  }

  lemma {:induction false} SameGroupSize(c: seq<Byte>, c': seq<Byte>)
    requires |c| == CSD_BYTES && SameElsewhere(c, c')
    ensures |c'| == CSD_BYTES && HcWpGrpSize(c') == HcWpGrpSize(c)
      && c'[PARTITIONING_SUPPORT] == c[PARTITIONING_SUPPORT]
  {
  }

  /** The card's EXT_CSD and every byte write it was ever sent. Every command may fail; `faults`
      counts those that did. */
  class Card {
    var csd: seq<Byte>
    var sent: seq<Write>
    ghost var faults: nat

    constructor (csd: seq<Byte>)
      ensures this.csd == csd && sent == []
    {
      this.csd, sent := csd, [];
    }

    /** Writes one byte. When the switch or the wait for the card fails, the byte may or
        may not have been taken. */
    method Switch(index: nat, value: Byte) returns (ok: bool)
      requires index < |csd|
      modifies this
      ensures sent == old(sent) + [Write(index, value)]
      ensures ok <==> faults == old(faults)
      ensures faults >= old(faults)
      ensures ok ==> csd == old(csd)[index := value]
      ensures csd == old(csd) || csd == old(csd)[index := value]
    {
      sent := sent + [Write(index, value)];
      var taken: bool := *;
      ok := *;
      ok := ok && taken;
      if !ok {
        faults := faults + 1;
      }
      if taken {
        csd := csd[index := value];
      }
    }

    method SendExtCsd() returns (ok: bool, data: seq<Byte>)
      modifies this`faults
      ensures ok <==> faults == old(faults)
      ensures faults >= old(faults)
      ensures ok ==> data == csd
    {
      ok := *;
      if !ok {
        faults := faults + 1;
      }
      data := csd;
    }
  }

  /** The card has, or is being given, partitions: the table is complete, or some size or
      attribute is already set. */
  ghost predicate HasPartitions(c: seq<Byte>)
    requires |c| == CSD_BYTES
  {
    || Completed(c)
    || (exists i :: 0 <= i < 4 && Number3(c, GP_SIZE_MULT + 3 * i) != 0)
    || (Bit(c[PARTITIONING_SUPPORT], 0) && c[PARTITIONS_ATTRIBUTE] as int % 32 != 0)
  }

  /** MAIN: a table that has been set but not completed is seen at start-up if and only if it
      has an area of some size. */
  lemma {:induction false} PartitionsSeenIff(c: seq<Byte>, conf: Conf)
    requires |c| == CSD_BYTES && IsConf(conf) && HcWpGrpSize(c) > 0
    requires Asked(c, conf) && !Completed(c) && Bit(c[PARTITIONING_SUPPORT], 0)
    ensures HasPartitions(c) <==> conf.enhSize != 0 || exists i :: 0 <= i < 4 && conf.gp[i].size != 0
  {
    hide Number3, Attributes, Bit;
    forall i | 0 <= i < 4
      ensures Number3(c, GP_SIZE_MULT + 3 * i) == 0 <==> conf.gp[i].size == 0
    {
      assert CapacityGp(c, i) == 512 * conf.gp[i].size;
      SomeBytes(Number3(c, GP_SIZE_MULT + 3 * i), c);
    }
    AttributesSmall(conf, 4);
    AttributesZero(conf);
    assert c[PARTITIONS_ATTRIBUTE] as int % 32 == 0 <==> Attributes(conf, 4) == 0;
    if i :| 0 <= i < 4 && conf.gp[i].size != 0 { assert Number3(c, GP_SIZE_MULT + 3 * i) != 0; }
    if i :| 0 <= i < 4 && Number3(c, GP_SIZE_MULT + 3 * i) != 0 { assert conf.gp[i].size != 0; }
  }

  lemma {:induction false} SomeBytes(mult: nat, c: seq<Byte>)
    requires |c| == CSD_BYTES && HcWpGrpSize(c) > 0
    ensures GroupBytes(mult, c) == 0 <==> mult == 0
  {
    var e, w := c[HC_ERASE_GRP_SIZE] as int, c[HC_WP_GRP_SIZE] as int;
    assert e > 0 && w > 0;
    if mult > 0 { assert mult * e > 0 && mult * e * w > 0; }
  }

  /** The writes so far have all been taken. */
  ghost predicate Sent(card: Card, c0: seq<Byte>, sent0: seq<Write>, ws: seq<Write>)
    reads card
  {
    card.csd == Apply(c0, ws) && card.sent == sent0 + ws && SameElsewhere(c0, card.csd)
  }

  /** Some first part of the plan has been sent, and the card has taken all of it, or all but
      the last write. */
  ghost predicate Stopped(card: Card, c0: seq<Byte>, sent0: seq<Write>, plan: seq<Write>)
    reads card
  {
    && (exists n :: 0 <= n <= |plan| && card.sent == sent0 + plan[..n] && TakenUpTo(card.csd, c0, plan, n))
    && SameElsewhere(c0, card.csd)
  }

  ghost predicate TakenUpTo(csd: seq<Byte>, c0: seq<Byte>, plan: seq<Write>, n: nat)
    requires n <= |plan|
  {
    csd == Apply(c0, plan[..n]) || (n > 0 && csd == Apply(c0, plan[..n - 1]))
  }

  lemma {:induction false} SentStopped(card: Card, c0: seq<Byte>, sent0: seq<Write>, ws: seq<Write>, plan: seq<Write>)
    requires Sent(card, c0, sent0, ws) && ws <= plan
    ensures Stopped(card, c0, sent0, plan)
  {
    assert plan[..|ws|] == ws;
    assert TakenUpTo(card.csd, c0, plan, |ws|);
  }

  lemma {:induction false} StoppedEarlier(card: Card, c0: seq<Byte>, sent0: seq<Write>, ws: seq<Write>,
                                          plan: seq<Write>)
    requires Stopped(card, c0, sent0, ws) && ws <= plan
    ensures Stopped(card, c0, sent0, plan)
  {
    var n :| 0 <= n <= |ws| && card.sent == sent0 + ws[..n] && TakenUpTo(card.csd, c0, ws, n);
    assert plan[..n] == ws[..n];
    if n > 0 { assert plan[..n - 1] == ws[..n - 1]; }
    assert TakenUpTo(card.csd, c0, plan, n);
  }

  /** MAIN: wherever a run stops, with whatever error: the table on the card is marked
      complete only when all of it is on the card. */
  lemma {:induction false} CompletedIsWhole(csd: seq<Byte>, c0: seq<Byte>, conf: Conf, mode: nat, hc: nat,
                                            highCapacity: bool, n: nat)
    requires IsConf(conf) && |c0| == CSD_BYTES && hc > 0 && mode <= COMPLETE
    requires n <= |Plan(conf, mode, c0, hc, highCapacity)|
    requires TakenUpTo(csd, c0, Plan(conf, mode, c0, hc, highCapacity), n)
    requires !Completed(c0)
    ensures |csd| == CSD_BYTES
    ensures Completed(csd) ==> mode == COMPLETE && csd == Apply(c0, Plan(conf, COMPLETE, c0, hc, highCapacity))
  {
    hide Plan, Apply;
    var plan := Plan(conf, mode, c0, hc, highCapacity);
    var m: nat := if csd == Apply(c0, plan[..n]) then n else n - 1;
    WriteOrder(conf, mode, c0, hc, highCapacity, plan[..m]);
    if !Writes(plan[..m], PARTITION_SETTING) { Unwritten(c0, plan[..m], PARTITION_SETTING); }
  }

  /** A byte nobody writes stays. */
  lemma {:induction false} Unwritten(c: seq<Byte>, ws: seq<Write>, index: nat)
    requires index < |c| && !Writes(ws, index)
    ensures Apply(c, ws)[index] == c[index]
  {
    if |ws| > 0 { Unwritten(c, ws[..|ws| - 1], index); }
  }

  class Mmc {
    const card: Card
    const isSd: bool
    var version: nat
    const highCapacity: bool
    const csdEraseSize: nat
    var partSupport: nat
    var hcWpGrpSize: nat
    var eraseGrpSize: nat
    var partAttr: nat
    var enhUserSize: nat
    var enhUserStart: nat
    var capacityGp: seq<nat>

    constructor (card: Card, isSd: bool, version: nat, highCapacity: bool, csdEraseSize: nat)
      ensures this.card == card && this.isSd == isSd && this.version == version && this.highCapacity == highCapacity
      ensures capacityGp == [0, 0, 0, 0]
    {
      this.card, this.isSd, this.version, this.highCapacity, this.csdEraseSize := card, isSd, version, highCapacity,
        csdEraseSize;
      partSupport, hcWpGrpSize, eraseGrpSize, partAttr := 0, 0, 1, 0;
      enhUserSize, enhUserStart, capacityGp := 0, 0, [0, 0, 0, 0];
    }

    /** What start-up has read is still what the card says. */
    ghost predicate Started()
      reads this, card
    {
      |card.csd| == CSD_BYTES && hcWpGrpSize == HcWpGrpSize(card.csd) && partSupport == card.csd[PARTITIONING_SUPPORT]
    }

    /** The request is one this card accepts. */
    ghost predicate Acceptable(conf: Conf, mode: nat, c: seq<Byte>)
      requires IsConf(conf) && |c| == CSD_BYTES
      reads this
    {
      Accepted(isSd, version, partSupport, hcWpGrpSize, conf, mode, c)
    }

    /** The size checks and the attribute byte. */
    method CheckSizes(conf: Conf) returns (aligned: bool, attributes: Byte, total: nat)
      requires IsConf(conf) && hcWpGrpSize > 0
      ensures aligned <==> Aligned(conf, hcWpGrpSize, 4)
      ensures aligned ==> attributes == Attributes(conf, 4) && total == TotalEnhanced(conf, hcWpGrpSize, 4)
    {
      hide BitInByte;
      attributes, total := 0, 0;
      if conf.enhSize != 0 {
        if conf.enhSize % hcWpGrpSize != 0 || conf.enhStart % hcWpGrpSize != 0 {
          return false, 0, 0;
        }
        attributes := BitInByte(attributes, 0, true);
      }
      total := conf.enhSize / hcWpGrpSize;
      aligned, attributes, total := CheckGps(conf, hcWpGrpSize, attributes, total);
    }

    /** The same for the general-purpose partitions. */
    static method CheckGps(conf: Conf, hc: nat, attributes0: Byte, total0: nat)
      returns (aligned: bool, attributes: Byte, total: nat)
      requires IsConf(conf) && hc > 0 && Aligned(conf, hc, 0)
      requires attributes0 == Attributes(conf, 0) && total0 == TotalEnhanced(conf, hc, 0)
      ensures aligned <==> Aligned(conf, hc, 4)
      ensures aligned ==> attributes == Attributes(conf, 4) && total == TotalEnhanced(conf, hc, 4)
    {
      hide BitInByte;
      attributes, total := attributes0, total0;
      for i := 0 to 4
        invariant Aligned(conf, hc, i)
        invariant attributes == Attributes(conf, i) && total == TotalEnhanced(conf, hc, i)
      {
        if conf.gp[i].size % hc != 0 {
          return false, 0, 0;
        }
        if conf.gp[i].size != 0 && conf.gp[i].enhanced {
          attributes := BitInByte(attributes, i + 1, true);
          total := total + conf.gp[i].size / hc;
        }
      }
      aligned := true;
    }

    /** The reliability byte the request leads to. */
    method WantedReliability(conf: Conf, was: Byte) returns (r: Byte)
      requires IsConf(conf)
      ensures r == Reliability(was, conf, 4)
    {
      r := was;
      if conf.wrRelChange {
        r := BitInByte(r, 0, conf.wrRelSet);
      }
      for i := 0 to 4
        invariant r == Reliability(was, conf, i)
      {
        if conf.gp[i].wrRelChange {
          r := BitInByte(r, i + 1, conf.gp[i].wrRelSet);
        }
      }
    }

    /** Everything up to the first write: the request is accepted exactly when it is
        `Acceptable`, unless the EXT_CSD cannot be read. */
    method Check(conf: Conf, mode: nat) returns (status: Status, attributes: Byte, reliability: Byte, ext: seq<Byte>)
      requires IsConf(conf) && |card.csd| == CSD_BYTES
      modifies card`faults
      ensures card.faults >= old(card.faults)
      ensures status == Io <==> card.faults > old(card.faults)
      ensures status == Ok <==> card.faults == old(card.faults) && Acceptable(conf, mode, card.csd)
      ensures status == Ok ==> Acceptable(conf, mode, card.csd) && ext == card.csd
                               && attributes == Attributes(conf, 4)
                               && reliability == Reliability(ext[WR_REL_SET], conf, 4)
      ensures status != Ok && status != Io ==> !Acceptable(conf, mode, card.csd)
      ensures status == Invalid ==> mode > COMPLETE || (hcWpGrpSize > 0 && !Aligned(conf, hcWpGrpSize, 4))
      ensures status == Permission ==> Completed(card.csd)
    {
      attributes, reliability, ext := 0, 0, card.csd;
      if mode > COMPLETE {
        return Invalid, 0, 0, ext;
      }
      if isSd || version < VERSION_4_41 {
        return Medium, 0, 0, ext;
      }
      if !Bit(partSupport, 0) {
        return Medium, 0, 0, ext;
      }
      if hcWpGrpSize == 0 {
        return Medium, 0, 0, ext;
      }
      var aligned, total;
      aligned, attributes, total := CheckSizes(conf);
      if !aligned {
        return Invalid, 0, 0, ext;
      }
      if attributes != 0 && !Bit(partSupport, 1) {
        return Medium, 0, 0, ext;
      }
      var ok;
      ok, ext := card.SendExtCsd();
      if !ok {
        return Io, 0, 0, ext;
      }
      if total > Number3(ext, MAX_ENH_SIZE_MULT) {
        return Medium, 0, 0, ext;
      }
      reliability := WantedReliability(conf, ext[WR_REL_SET]);
      if reliability != ext[WR_REL_SET] && !Bit(ext[WR_REL_PARAM], 0) {
        return Medium, 0, 0, ext;
      }
      if Bit(ext[PARTITION_SETTING], 0) {
        return Permission, 0, 0, ext;
      }
      status := Ok;
    }

    /** Sends one more byte of the plan. */
    method SendByte(ghost c0: seq<Byte>, ghost sent0: seq<Write>, ghost ws: seq<Write>, index: nat, value: Byte)
      returns (ok: bool)
      requires |c0| == CSD_BYTES && Sent(card, c0, sent0, ws)
      requires ENH_START_ADDR <= index <= PARTITIONS_ATTRIBUTE || index == WR_REL_SET || index == ERASE_GROUP_DEF
      modifies card
      ensures ok <==> card.faults == old(card.faults)
      ensures card.faults >= old(card.faults)
      ensures ok ==> Sent(card, c0, sent0, ws + [Write(index, value)])
      ensures Stopped(card, c0, sent0, ws + [Write(index, value)])
    {
      ghost var w := Write(index, value);
      ok := card.Switch(index, value);
      ApplyConcat(c0, ws, [w]);
      ApplyOne(Apply(c0, ws), w);
      assert (ws + [w])[..|ws| + 1] == ws + [w];
      assert (ws + [w])[..|ws|] == ws;
      assert TakenUpTo(card.csd, c0, ws + [w], |ws| + 1);
      assert sent0 + (ws + [w]) == sent0 + ws + [w];
    }

    /** Sends the bytes of a number, least significant first. */
    method SendBytes(ghost c0: seq<Byte>, ghost sent0: seq<Write>, ghost ws: seq<Write>, index: nat, x: nat, n: nat)
      returns (ok: bool)
      requires |c0| == CSD_BYTES && Sent(card, c0, sent0, ws)
      requires ENH_START_ADDR <= index && index + n <= PARTITIONS_ATTRIBUTE
      modifies card
      ensures ok <==> card.faults == old(card.faults)
      ensures card.faults >= old(card.faults)
      ensures ok ==> Sent(card, c0, sent0, ws + ByteWrites(index, x, n))
      ensures Stopped(card, c0, sent0, ws + ByteWrites(index, x, n))
    {
      hide Sent, Stopped;
      assert ws + ByteWrites(index, x, 0) == ws;
      for i := 0 to n
        invariant card.faults == old(card.faults)
        invariant Sent(card, c0, sent0, ws + ByteWrites(index, x, i))
      {
        ghost var before := ws + ByteWrites(index, x, i);
        ok := SendByte(c0, sent0, before, index + i, ByteOf(x, i));
        assert before + [Write(index + i, ByteOf(x, i))] == ws + ByteWrites(index, x, i + 1);
        if !ok {
          ByteWritesPrefix(index, x, i + 1, n);
          StoppedEarlier(card, c0, sent0, ws + ByteWrites(index, x, i + 1), ws + ByteWrites(index, x, n));
          return;
        }
      }
      SentStopped(card, c0, sent0, ws + ByteWrites(index, x, n), ws + ByteWrites(index, x, n));
      ok := true;
    }

    lemma {:induction false} ByteWritesPrefix(index: nat, x: nat, m: nat, n: nat)
      requires m <= n
      ensures ByteWrites(index, x, m) <= ByteWrites(index, x, n)
      decreases n
    {
      if m < n { ByteWritesPrefix(index, x, m, n - 1); }
    }

    /** Sends the partition table. */
    method SendSettings(ghost c0: seq<Byte>, ghost sent0: seq<Write>, ghost ws: seq<Write>, conf: Conf,
                        attributes: Byte) returns (ok: bool)
      requires |c0| == CSD_BYTES && Sent(card, c0, sent0, ws)
      requires IsConf(conf) && hcWpGrpSize > 0 && attributes == Attributes(conf, 4)
      modifies card
      ensures ok <==> card.faults == old(card.faults)
      ensures card.faults >= old(card.faults)
      ensures ok ==> Sent(card, c0, sent0, ws + Settings(conf, hcWpGrpSize, highCapacity))
      ensures Stopped(card, c0, sent0, ws + Settings(conf, hcWpGrpSize, highCapacity))
    {
      hide Sent, Stopped, ByteWrites, GpWrites;
      var address := StartAddress(conf, highCapacity);
      ghost var s1, s2 := ByteWrites(ENH_START_ADDR, address, 4),
        ByteWrites(ENH_SIZE_MULT, conf.enhSize / hcWpGrpSize, 3);
      ghost var w := Write(PARTITIONS_ATTRIBUTE, attributes);
      ghost var all := ws + Settings(conf, hcWpGrpSize, highCapacity);
      assert all == ws + s1 + s2 + GpWrites(conf, hcWpGrpSize, 4) + [w];
      ok := SendBytes(c0, sent0, ws, ENH_START_ADDR, address, 4);
      if !ok {
        StoppedEarlier(card, c0, sent0, ws + s1, all);
        return;
      }
      ok := SendBytes(c0, sent0, ws + s1, ENH_SIZE_MULT, conf.enhSize / hcWpGrpSize, 3);
      if !ok {
        StoppedEarlier(card, c0, sent0, ws + s1 + s2, all);
        return;
      }
      ok := SendGps(c0, sent0, ws + s1 + s2, conf);
      if !ok {
        StoppedEarlier(card, c0, sent0, ws + s1 + s2 + GpWrites(conf, hcWpGrpSize, 4), all);
        return;
      }
      ok := SendByte(c0, sent0, ws + s1 + s2 + GpWrites(conf, hcWpGrpSize, 4), PARTITIONS_ATTRIBUTE, attributes);
    }

    method SendGps(ghost c0: seq<Byte>, ghost sent0: seq<Write>, ghost ws: seq<Write>, conf: Conf) returns (ok: bool)
      requires |c0| == CSD_BYTES && Sent(card, c0, sent0, ws)
      requires IsConf(conf) && hcWpGrpSize > 0
      modifies card
      ensures ok <==> card.faults == old(card.faults)
      ensures card.faults >= old(card.faults)
      ensures ok ==> Sent(card, c0, sent0, ws + GpWrites(conf, hcWpGrpSize, 4))
      ensures Stopped(card, c0, sent0, ws + GpWrites(conf, hcWpGrpSize, 4))
    {
      hide Sent, Stopped, ByteWrites;
      assert ws + GpWrites(conf, hcWpGrpSize, 0) == ws;
      for p := 0 to 4
        invariant card.faults == old(card.faults)
        invariant Sent(card, c0, sent0, ws + GpWrites(conf, hcWpGrpSize, p))
      {
        ghost var before, more := ws + GpWrites(conf, hcWpGrpSize, p),
          ByteWrites(GP_SIZE_MULT + 3 * p, conf.gp[p].size / hcWpGrpSize, 3);
        ok := SendBytes(c0, sent0, before, GP_SIZE_MULT + p * 3, conf.gp[p].size / hcWpGrpSize, 3);
        assert before + more == ws + GpWrites(conf, hcWpGrpSize, p + 1);
        if !ok {
          GpWritesPrefix(conf, hcWpGrpSize, p + 1);
          StoppedEarlier(card, c0, sent0, before + more, ws + GpWrites(conf, hcWpGrpSize, 4));
          return;
        }
      }
      SentStopped(card, c0, sent0, ws + GpWrites(conf, hcWpGrpSize, 4), ws + GpWrites(conf, hcWpGrpSize, 4));
      ok := true;
    }

    lemma {:induction false} GpWritesPrefix(conf: Conf, hc: nat, m: nat)
      requires m <= 4 && |conf.gp| == 4 && hc > 0
      ensures GpWrites(conf, hc, m) <= GpWrites(conf, hc, 4)
      decreases 4 - m
    {
      if m < 4 { GpWritesPrefix(conf, hc, m + 1); }
    }

    /** MAIN: partitions the card. A request is either rejected or merely checked, and then
        nothing is sent; or it is acceptable and what is sent is the plan, up to the first
        failure, and the whole of it on success. */
    method HwpartConfig(conf: Conf, mode: nat) returns (status: Status)
      requires IsConf(conf) && Started()
      modifies this`eraseGrpSize, card
      ensures Started() && SameElsewhere(old(card.csd), card.csd)
      ensures old(card.sent) <= card.sent
      ensures card.sent != old(card.sent) ==> Acceptable(conf, mode, old(card.csd)) && mode != CHECK
      ensures status == Ok <==> card.faults == old(card.faults) && Acceptable(conf, mode, old(card.csd))
      ensures status == Io <==> card.faults > old(card.faults)
      ensures status != Ok && status != Io ==> !Acceptable(conf, mode, old(card.csd)) && card.sent == old(card.sent)
      ensures Acceptable(conf, mode, old(card.csd)) ==>
        card.sent[|old(card.sent)|..] <= Plan(conf, mode, old(card.csd), hcWpGrpSize, highCapacity)
      ensures card.sent == old(card.sent) ==> card.csd == old(card.csd)
      ensures card.sent != old(card.sent) ==>
        Stopped(card, old(card.csd), old(card.sent), Plan(conf, mode, old(card.csd), hcWpGrpSize, highCapacity))
      ensures |card.sent| > |old(card.sent)| ==>
        Bit(old(card.csd)[ERASE_GROUP_DEF], 0) || card.sent[|old(card.sent)|] == Write(ERASE_GROUP_DEF, 1)
      ensures status == Ok && mode != CHECK ==>
        Asked(card.csd, conf) && (Completed(card.csd) <==> mode == COMPLETE)
      ensures !Completed(old(card.csd)) && Completed(card.csd) ==>
        && Acceptable(conf, mode, old(card.csd)) && mode == COMPLETE
        && card.csd == Apply(old(card.csd), Plan(conf, COMPLETE, old(card.csd), hcWpGrpSize, highCapacity))
      ensures status == Ok ==>
        && card.sent == old(card.sent) + Plan(conf, mode, old(card.csd), hcWpGrpSize, highCapacity)
        && card.csd == Apply(old(card.csd), Plan(conf, mode, old(card.csd), hcWpGrpSize, highCapacity))
        && eraseGrpSize == if mode == CHECK || Bit(old(card.csd)[ERASE_GROUP_DEF], 0) then old(eraseGrpSize)
                           else old(card.csd)[HC_ERASE_GRP_SIZE] as int * 1024
    {
      hide Apply, Asked, Attributes, Reliability, Stopped, SameElsewhere, HcWpGrpSize, Aligned, TotalEnhanced, Number3;
      var attributes, reliability, ext;
      status, attributes, reliability, ext := Check(conf, mode);
      SameItself(old(card.csd));
      if status != Ok {
        return;
      }
      PlanTaken(ext, conf, mode, hcWpGrpSize, highCapacity);
      if mode == CHECK {
        return;
      }
      var ok := ProgramChecked(conf, mode, ext, attributes, reliability);
      status := if ok then Ok else Io;
      SameGroupSize(ext, card.csd);
    }

    /** The part of HwpartConfig that writes. */
    method ProgramChecked(conf: Conf, mode: nat, ext: seq<Byte>, attributes: Byte, reliability: Byte)
      returns (ok: bool)
      requires IsConf(conf) && Started() && hcWpGrpSize > 0 && ext == card.csd && (mode == SET || mode == COMPLETE)
      requires attributes == Attributes(conf, 4) && reliability == Reliability(ext[WR_REL_SET], conf, 4)
      requires !Completed(ext) && Aligned(conf, hcWpGrpSize, 4)
      modifies this`eraseGrpSize, card
      ensures ok <==> card.faults == old(card.faults)
      ensures card.faults >= old(card.faults)
      ensures SameElsewhere(ext, card.csd)
      ensures var plan := Plan(conf, mode, ext, hcWpGrpSize, highCapacity);
        && Stopped(card, ext, old(card.sent), plan)
        && old(card.sent) <= card.sent && card.sent[|old(card.sent)|..] <= plan
        && (ok ==> card.sent == old(card.sent) + plan && card.csd == Apply(ext, plan))
      ensures card.sent == old(card.sent) ==> card.csd == ext
      ensures |card.sent| > |old(card.sent)| ==>
        Bit(ext[ERASE_GROUP_DEF], 0) || card.sent[|old(card.sent)|] == Write(ERASE_GROUP_DEF, 1)
      ensures Completed(card.csd) ==>
        mode == COMPLETE && card.csd == Apply(ext, Plan(conf, COMPLETE, ext, hcWpGrpSize, highCapacity))
      ensures ok ==> Asked(card.csd, conf) && (Completed(card.csd) <==> mode == COMPLETE)
      ensures ok ==> eraseGrpSize == if Bit(ext[ERASE_GROUP_DEF], 0) then old(eraseGrpSize)
                                     else ext[HC_ERASE_GRP_SIZE] as int * 1024
    {
      hide Apply, Plan, Attributes, Reliability, Asked, SameElsewhere, TakenUpTo, HcWpGrpSize;
      ghost var plan := Plan(conf, mode, ext, hcWpGrpSize, highCapacity);
      ok := Program(conf, mode, ext, attributes, reliability);
      ghost var n :| 0 <= n <= |plan| && card.sent == old(card.sent) + plan[..n] && TakenUpTo(card.csd, ext, plan, n);
      TakenNone(card.csd, ext, plan, n);
      CompletedIsWhole(card.csd, ext, conf, mode, hcWpGrpSize, highCapacity, n);
      if n > 0 { SwitchedFirst(conf, mode, ext, hcWpGrpSize, highCapacity, plan[..n]); }
      if ok { PlanRoundTrip(ext, conf, mode, highCapacity); }
    }

    static lemma {:induction false} PlanTaken(c: seq<Byte>, conf: Conf, mode: nat, hc: nat, highCapacity: bool)
      requires IsConf(conf) && |c| == CSD_BYTES && hc > 0
      ensures mode == CHECK ==> Plan(conf, mode, c, hc, highCapacity) == [] && Apply(c, []) == c
    {
    }

    static lemma {:induction false} TakenNone(csd: seq<Byte>, c: seq<Byte>, plan: seq<Write>, n: nat)
      requires n <= |plan| && TakenUpTo(csd, c, plan, n)
      ensures n == 0 ==> csd == c
    {
    }

    method Program(conf: Conf, mode: nat, ext: seq<Byte>, attributes: Byte, reliability: Byte) returns (ok: bool)
      requires IsConf(conf) && Started() && hcWpGrpSize > 0 && ext == card.csd && (mode == SET || mode == COMPLETE)
      requires attributes == Attributes(conf, 4) && reliability == Reliability(ext[WR_REL_SET], conf, 4)
      modifies this`eraseGrpSize, card
      ensures ok <==> card.faults == old(card.faults)
      ensures card.faults >= old(card.faults)
      ensures Stopped(card, ext, old(card.sent), Plan(conf, mode, ext, hcWpGrpSize, highCapacity))
      ensures ok ==> Sent(card, ext, old(card.sent), Plan(conf, mode, ext, hcWpGrpSize, highCapacity))
      ensures ok ==> eraseGrpSize == if Bit(ext[ERASE_GROUP_DEF], 0) then old(eraseGrpSize)
        else ext[HC_ERASE_GRP_SIZE] as int * 1024
    {
      hide Sent, Stopped, Settings, Opening, Closing;
      ghost var sent0, open, table := card.sent, Opening(ext), Settings(conf, hcWpGrpSize, highCapacity);
      ghost var plan := Plan(conf, mode, ext, hcWpGrpSize, highCapacity);
      ok := Open(ext);
      if !ok {
        StoppedEarlier(card, ext, sent0, open, plan);
        return;
      }
      ok := SendSettings(ext, sent0, open, conf, attributes);
      if !ok {
        StoppedEarlier(card, ext, sent0, open + table, plan);
        return;
      }
      if mode == SET {
        SentStopped(card, ext, sent0, plan, plan);
        return;
      }
      ok := Close(sent0, open + table, conf, ext, reliability);
    }

    /** Partitioning needs the high-capacity group sizes. */
    method Open(ext: seq<Byte>) returns (ok: bool)
      requires |ext| == CSD_BYTES && ext == card.csd
      modifies this`eraseGrpSize, card
      ensures ok <==> card.faults == old(card.faults)
      ensures card.faults >= old(card.faults)
      ensures Stopped(card, ext, old(card.sent), Opening(ext))
      ensures ok ==> Sent(card, ext, old(card.sent), Opening(ext))
      ensures eraseGrpSize == if ok && !Bit(ext[ERASE_GROUP_DEF], 0) then ext[HC_ERASE_GRP_SIZE] as int * 1024
        else old(eraseGrpSize)
    {
      ghost var sent0 := card.sent;
      assert Sent(card, ext, sent0, []);
      hide Sent, Stopped;
      if !Bit(ext[ERASE_GROUP_DEF], 0) {
        ok := SendByte(ext, sent0, [], ERASE_GROUP_DEF, 1);
        assert [] + [Write(ERASE_GROUP_DEF, 1)] == Opening(ext);
        if ok {
          eraseGrpSize := ext[HC_ERASE_GRP_SIZE] as int * 1024;
        }
        return;
      }
      SentStopped(card, ext, sent0, [], []);
      ok := true;
    }

    /** Reliability, if it changes, then completion. */
    method Close(ghost sent0: seq<Write>, ghost ws: seq<Write>, conf: Conf, ext: seq<Byte>, reliability: Byte)
      returns (ok: bool)
      requires IsConf(conf) && |ext| == CSD_BYTES && Sent(card, ext, sent0, ws)
        && reliability == Reliability(ext[WR_REL_SET], conf, 4)
      modifies card
      ensures ok <==> card.faults == old(card.faults)
      ensures card.faults >= old(card.faults)
      ensures Stopped(card, ext, sent0, ws + Closing(conf, ext))
      ensures ok ==> Sent(card, ext, sent0, ws + Closing(conf, ext))
    {
      hide Sent, Stopped;
      ghost var before := ws;
      if reliability != ext[WR_REL_SET] {
        ok := SendByte(ext, sent0, ws, WR_REL_SET, reliability);
        before := ws + [Write(WR_REL_SET, reliability)];
        if !ok {
          StoppedEarlier(card, ext, sent0, before, ws + Closing(conf, ext));
          return;
        }
      }
      assert ws + Closing(conf, ext) == before + [Write(PARTITION_SETTING, 1)];
      ok := SendByte(ext, sent0, before, PARTITION_SETTING, 1);
    }

    /** The part of start-up that decodes the partitions. SD cards and early versions have
        none. */
    method Startup() returns (ok: bool)
      requires |card.csd| == CSD_BYTES && |capacityGp| == 4
      modifies this, card
      ensures ok <==> card.faults == old(card.faults)
      ensures |capacityGp| == 4
      ensures isSd || old(version) < VERSION_4 ==>
        && ok && eraseGrpSize == 1 && card.csd == old(card.csd) && version == old(version)
        && partSupport == old(partSupport) && hcWpGrpSize == old(hcWpGrpSize) && partAttr == old(partAttr)
        && enhUserSize == old(enhUserSize) && enhUserStart == old(enhUserStart) && capacityGp == old(capacityGp)
      ensures !isSd && old(version) >= VERSION_4 && ok ==>
        && Started() && Decoded(old(card.csd), old(enhUserSize), old(enhUserStart), old(capacityGp))
        && version == VersionOf(old(card.csd)[EXT_CSD_REV], old(version))
        && (Completed(old(card.csd)) && Bit(old(card.csd)[PARTITIONING_SUPPORT], 1) ==>
            partAttr == old(card.csd)[PARTITIONS_ATTRIBUTE])
        && card.csd[ERASE_GROUP_DEF] == (if HasPartitions(old(card.csd)) then 1 else old(card.csd)[ERASE_GROUP_DEF])
        && eraseGrpSize == if Bit(card.csd[ERASE_GROUP_DEF], 0) then card.csd[HC_ERASE_GRP_SIZE] as int * 1024
          else csdEraseSize
      ensures |card.csd| == CSD_BYTES && forall j :: 0 <= j < CSD_BYTES && j != ERASE_GROUP_DEF ==>
        card.csd[j] == old(card.csd[j])
    {
      hide EnhUserSize, EnhUserStart, CapacityGp, HcWpGrpSize, Number3, VersionOf;
      eraseGrpSize := 1;
      if isSd || version < VERSION_4 {
        return true;
      }
      var ext;
      ok, ext := card.SendExtCsd();
      if !ok {
        return;
      }
      version := VersionOf(ext[EXT_CSD_REV], version);
      var completed := Bit(ext[PARTITION_SETTING], 0);
      partSupport := ext[PARTITIONING_SUPPORT];
      if completed && Bit(ext[PARTITIONING_SUPPORT], 1) {
        partAttr := ext[PARTITIONS_ATTRIBUTE];
      }
      var hasParts := DecodeGps(ext, completed);
      if completed {
        DecodeUserArea(ext);
        hasParts := true;
      }
      if Bit(ext[PARTITIONING_SUPPORT], 0) && ext[PARTITIONS_ATTRIBUTE] as int % 32 != 0 {
        hasParts := true;
      }
      ok := FinishStartup(ext, hasParts);
      SameGroupSize(ext, card.csd);
    }

    /** The sizes are those of the EXT_CSD when partitioning is complete, else the old ones. */
    ghost predicate Decoded(c: seq<Byte>, size: nat, start: nat, gp: seq<nat>)
      requires |c| == CSD_BYTES && |capacityGp| == 4
      reads this
    {
      if Completed(c) then
        && enhUserSize == EnhUserSize(c) && enhUserStart == EnhUserStart(c, highCapacity)
        && forall i :: 0 <= i < 4 ==> capacityGp[i] == CapacityGp(c, i)
      else
        enhUserSize == size && enhUserStart == start && capacityGp == gp
    }

    method DecodeUserArea(ext: seq<Byte>)
      requires |ext| == CSD_BYTES
      modifies this`enhUserSize, this`enhUserStart
      ensures enhUserSize == EnhUserSize(ext) && enhUserStart == EnhUserStart(ext, highCapacity)
    {
      NumberFits3(ext, ENH_SIZE_MULT);
      GroupBytesFit(Number3(ext, ENH_SIZE_MULT), ext);
      enhUserSize := GroupBytes(Number3(ext, ENH_SIZE_MULT), ext) % TWO_64;
      enhUserStart := Number4(ext, ENH_START_ADDR);
      if highCapacity {
        enhUserStart := enhUserStart * 512;
      }
    }

    method DecodeGps(ext: seq<Byte>, completed: bool) returns (hasParts: bool)
      requires |ext| == CSD_BYTES && |capacityGp| == 4
      modifies this`capacityGp
      ensures |capacityGp| == 4
      ensures completed ==> forall i :: 0 <= i < 4 ==> capacityGp[i] == CapacityGp(ext, i)
      ensures !completed ==> capacityGp == old(capacityGp)
      ensures hasParts <==> exists i :: 0 <= i < 4 && Number3(ext, GP_SIZE_MULT + 3 * i) != 0
    {
      hasParts := false;
      for i := 0 to 4
        invariant |capacityGp| == 4
        invariant completed ==> forall k :: 0 <= k < i ==> capacityGp[k] == CapacityGp(ext, k)
        invariant !completed ==> capacityGp == old(capacityGp)
        invariant hasParts <==> exists k :: 0 <= k < i && Number3(ext, GP_SIZE_MULT + 3 * k) != 0
      {
        var mult := Number3(ext, GP_SIZE_MULT + 3 * i);
        if mult != 0 {
          hasParts := true;
        }
        if !completed {
          continue;
        }
        NumberFits3(ext, GP_SIZE_MULT + 3 * i);
        GroupBytesFit(mult, ext);
        capacityGp := capacityGp[i := GroupBytes(mult, ext) % TWO_64];
      }
    }

    /** Switches to high-capacity erase groups when there are partitions. */
    method FinishStartup(ext: seq<Byte>, hasParts: bool) returns (ok: bool)
      requires |ext| == CSD_BYTES && ext == card.csd
      modifies this`eraseGrpSize, this`hcWpGrpSize, card
      ensures ok <==> card.faults == old(card.faults)
      ensures card.faults >= old(card.faults)
      ensures hcWpGrpSize == if ok then HcWpGrpSize(ext) else old(hcWpGrpSize)
      ensures |card.csd| == |ext| && forall j :: 0 <= j < |ext| && j != ERASE_GROUP_DEF ==> card.csd[j] == ext[j]
      ensures ok ==> card.csd[ERASE_GROUP_DEF] == if hasParts then 1 else ext[ERASE_GROUP_DEF]
      ensures ok ==> eraseGrpSize == if Bit(card.csd[ERASE_GROUP_DEF], 0)
        then card.csd[HC_ERASE_GRP_SIZE] as int * 1024 else csdEraseSize
    {
      var def := ext[ERASE_GROUP_DEF];
      if hasParts {
        ok := card.Switch(ERASE_GROUP_DEF, 1);
        if !ok {
          return;
        }
        def := 1;
      }
      if Bit(def, 0) {
        eraseGrpSize := ext[HC_ERASE_GRP_SIZE] as int * 1024;
      } else {
        eraseGrpSize := csdEraseSize;
      }
      hcWpGrpSize := 1024 * (ext[HC_ERASE_GRP_SIZE] as int) * (ext[HC_WP_GRP_SIZE] as int);
      ok := true;
    }

    /** MAIN: whenever a configuration leaves a card that was not complete marked complete,
        and it does so when it succeeds, the driver reports after a restart the sizes that
        were asked for. */
    method ConfigureAndRestart(conf: Conf) returns (status: Status, restarted: bool)
      requires IsConf(conf) && Started() && |capacityGp| == 4
      modifies this, card
      ensures |card.csd| == CSD_BYTES
      ensures status == Ok ==> !Completed(old(card.csd)) && Completed(card.csd)
      ensures restarted && !Completed(old(card.csd)) && Completed(card.csd) ==>
        && enhUserSize == 512 * conf.enhSize && |capacityGp| == 4
        && (forall i :: 0 <= i < 4 ==> capacityGp[i] == 512 * conf.gp[i].size)
        && (enhUserStart == 512 * conf.enhStart
            <==> if conf.enhSize != 0 then highCapacity || conf.enhStart < 0x80_0000 else conf.enhStart == 0)
    {
      hide Plan, Apply, EnhUserSize, EnhUserStart, CapacityGp;
      ghost var c0 := card.csd;
      status := HwpartConfig(conf, COMPLETE);
      if status == Ok || (!Completed(c0) && Completed(card.csd)) { PlanRoundTrip(c0, conf, COMPLETE, highCapacity); }
      restarted := Startup();
    }
  }
}
