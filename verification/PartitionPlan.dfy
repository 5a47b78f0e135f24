/** Partitioning an eMMC card, as values: the EXT_CSD bytes a request is turned into
    (sprd_mmc.c, `mmc_hwpart_config`) and what start-up later makes of them
    (`mmc_startup`). */
module PartitionPlan {

  import opened Basics

  // EXT_CSD bytes
  const ENH_START_ADDR: nat := 136
  const ENH_SIZE_MULT: nat := 140
  const GP_SIZE_MULT: nat := 143
  const PARTITION_SETTING: nat := 155
  const PARTITIONS_ATTRIBUTE: nat := 156
  const MAX_ENH_SIZE_MULT: nat := 157
  const PARTITIONING_SUPPORT: nat := 160
  const WR_REL_PARAM: nat := 166
  const WR_REL_SET: nat := 167
  const ERASE_GROUP_DEF: nat := 175
  const HC_WP_GRP_SIZE: nat := 221
  const HC_ERASE_GRP_SIZE: nat := 224
  const CSD_BYTES: nat := 512

  // ---- bits of a byte ----

  function Bit(x: nat, k: nat): (b: bool) {
    if k == 0 then x % 2 == 1 else Bit(x / 2, k - 1)
  }

  function WithBit(x: nat, k: nat, on: bool): (y: nat) {
    if k == 0 then x - x % 2 + (if on then 1 else 0) else 2 * WithBit(x / 2, k - 1, on) + x % 2
  }

  function Power2(n: nat): (p: nat)
    ensures p > 0
  {
    if n == 0 then 1 else 2 * Power2(n - 1)
  }

  lemma {:induction false} BitSet(x: nat, k: nat, on: bool, j: nat)
    ensures Bit(WithBit(x, k, on), j) == if j == k then on else Bit(x, j)
    decreases k
  {
    if k > 0 {
      assert WithBit(x, k, on) / 2 == WithBit(x / 2, k - 1, on);
      if j > 0 { BitSet(x / 2, k - 1, on, j - 1); }
    } else {
      assert WithBit(x, 0, on) / 2 == x / 2;
    }
  }

  lemma {:induction false} BitBound(x: nat, k: nat, on: bool, n: nat)
    requires x < Power2(n) && k < n
    ensures WithBit(x, k, on) < Power2(n)
    decreases k
  {
    if k > 0 { BitBound(x / 2, k - 1, on, n - 1); }
  }

  lemma {:induction false} BitsZero(x: nat, n: nat)
    requires x < Power2(n) && forall j :: 0 <= j < n ==> !Bit(x, j)
    ensures x == 0
    decreases n
  {
    if n > 0 {
      assert !Bit(x, 0);
      forall j | 0 <= j < n - 1 ensures !Bit(x / 2, j) { assert !Bit(x, j + 1); }
      BitsZero(x / 2, n - 1);
    }
  }

  lemma {:induction false} SameBits(x: nat, y: nat, n: nat)
    requires x < Power2(n) && y < Power2(n) && forall j :: 0 <= j < n ==> Bit(x, j) == Bit(y, j)
    ensures x == y
    decreases n
  {
    if n > 0 {
      assert Bit(x, 0) == Bit(y, 0);
      forall j | 0 <= j < n - 1 ensures Bit(x / 2, j) == Bit(y / 2, j) { assert Bit(x, j + 1) == Bit(y, j + 1); }
      SameBits(x / 2, y / 2, n - 1);
    }
  }

  /** Changes one bit of a byte. */
  function BitInByte(x: Byte, k: nat, on: bool): (y: Byte)
    requires k < 8
  {
    ByteBound();
    BitBound(x, k, on, 8);
    WithBit(x, k, on)
  }

  lemma {:induction false} ByteBound()
    ensures Power2(8) == 256
  {
    assert Power2(4) == 16;
  }

  // ---- writes to the EXT_CSD ----

  datatype Write = Write(index: nat, value: Byte)

  function Apply(c: seq<Byte>, ws: seq<Write>): (c': seq<Byte>)
    ensures |c'| == |c|
  {
    if |ws| == 0 then c
    else
      var before, w := Apply(c, ws[..|ws| - 1]), ws[|ws| - 1];
      if w.index < |c| then before[w.index := w.value] else before
  }

  lemma {:induction false} ApplyConcat(c: seq<Byte>, a: seq<Write>, b: seq<Write>)
    ensures Apply(c, a + b) == Apply(Apply(c, a), b)
    decreases |b|
  {
    if |b| == 0 {
      assert a + b == a;
    } else {
      ApplyConcat(c, a, b[..|b| - 1]);
      assert (a + b)[..|a + b| - 1] == a + b[..|b| - 1];
    }
  }

  lemma {:induction false} ApplyOne(c: seq<Byte>, w: Write)
    requires w.index < |c|
    ensures Apply(c, [w]) == c[w.index := w.value]
  {
    assert [w][..0] == [];
    assert Apply(c, []) == c;
  }

  /** Byte `i` of a 32-bit number, least significant first. */
  function ByteOf(x: nat, i: nat): (b: Byte) {
    (if i == 0 then x else if i == 1 then x / 0x100 else if i == 2 then x / 0x1_0000 else x / 0x100_0000) % 256
  }

  function ByteWrites(index: nat, x: nat, n: nat): (ws: seq<Write>) {
    if n == 0 then [] else ByteWrites(index, x, n - 1) + [Write(index + n - 1, ByteOf(x, n - 1))]
  }

  /** `c'` holds the first `n` bytes of `x` at `index` and is otherwise `c`. */
  ghost predicate Placed(c: seq<Byte>, c': seq<Byte>, index: nat, x: nat, n: nat) {
    && |c'| == |c| && index + n <= |c|
    && (forall i :: 0 <= i < n ==> c'[index + i] == ByteOf(x, i))
    && (forall j :: 0 <= j < |c| && !(index <= j < index + n) ==> c'[j] == c[j])
  }

  lemma {:induction false} BytesPlaced(c: seq<Byte>, index: nat, x: nat, n: nat)
    requires index + n <= |c|
    ensures Placed(c, Apply(c, ByteWrites(index, x, n)), index, x, n)
    decreases n
  {
    if n > 0 {
      hide ByteOf, Apply;
      BytesPlaced(c, index, x, n - 1);
      var ws, w := ByteWrites(index, x, n - 1), Write(index + n - 1, ByteOf(x, n - 1));
      ApplyConcat(c, ws, [w]);
      ApplyOne(Apply(c, ws), w);
    }
  }

  function Number3(c: seq<Byte>, at: nat): (n: nat)
    requires at + 3 <= |c|
  {
    c[at + 2] as int * 0x1_0000 + c[at + 1] as int * 0x100 + c[at] as int
  }

  function Number4(c: seq<Byte>, at: nat): (n: nat)
    requires at + 4 <= |c|
  {
    c[at + 3] as int * 0x100_0000 + c[at + 2] as int * 0x1_0000 + c[at + 1] as int * 0x100 + c[at] as int
  }

  lemma {:induction false} DigitsOf3(x: nat)
    requires x < 0x100_0000
    ensures ByteOf(x, 2) * 0x1_0000 + ByteOf(x, 1) * 0x100 + ByteOf(x, 0) == x
  {
  }

  lemma {:induction false} DigitsOf4(x: nat)
    requires x < TWO_32
    ensures ByteOf(x, 3) * 0x100_0000 + ByteOf(x, 2) * 0x1_0000 + ByteOf(x, 1) * 0x100 + ByteOf(x, 0) == x
  {
    var a, b, c := x / 0x100, x / 0x1_0000, x / 0x100_0000;
    assert b == a / 0x100 && c == b / 0x100 && c < 0x100;
    assert x == a * 0x100 + ByteOf(x, 0) && a == b * 0x100 + ByteOf(x, 1) && b == c * 0x100 + ByteOf(x, 2)
      && c == ByteOf(x, 3);
  }

  lemma {:induction false} Reads3(c: seq<Byte>, c': seq<Byte>, index: nat, x: nat)
    requires Placed(c, c', index, x, 3) && x < 0x100_0000
    ensures Number3(c', index) == x
  {
    DigitsOf3(x);
    assert c'[index + 0] == ByteOf(x, 0) && c'[index + 1] == ByteOf(x, 1) && c'[index + 2] == ByteOf(x, 2);
  }

  lemma {:induction false} Reads4(c: seq<Byte>, c': seq<Byte>, index: nat, x: nat)
    requires Placed(c, c', index, x, 4) && x < TWO_32
    ensures Number4(c', index) == x
  {
    DigitsOf4(x);
    assert c'[index + 0] == ByteOf(x, 0) && c'[index + 1] == ByteOf(x, 1);
    assert c'[index + 2] == ByteOf(x, 2) && c'[index + 3] == ByteOf(x, 3);
  }

  // ---- the request ----

  datatype GpConf = GpConf(size: nat, enhanced: bool, wrRelChange: bool, wrRelSet: bool)

  /** Sizes and the start are 32-bit numbers of 512-byte sectors. */
  datatype Conf = Conf(enhStart: nat, enhSize: nat, wrRelChange: bool, wrRelSet: bool, gp: seq<GpConf>)

  predicate IsConf(conf: Conf) {
    && conf.enhStart < TWO_32 && conf.enhSize < TWO_32 && |conf.gp| == 4
    && forall i :: 0 <= i < 4 ==> conf.gp[i].size < TWO_32
  }

  const CHECK: nat := 0
  const SET: nat := 1
  const COMPLETE: nat := 2

  /** The attribute byte once the user area and `n` general-purpose partitions are in. */
  function Attributes(conf: Conf, n: nat): (a: Byte)
    requires n <= 4 && |conf.gp| == 4
  {
    if n == 0 then (if conf.enhSize != 0 then BitInByte(0, 0, true) else 0)
    else
      var a := Attributes(conf, n - 1);
      if conf.gp[n - 1].size != 0 && conf.gp[n - 1].enhanced then BitInByte(a, n, true) else a
  }

  lemma {:induction false} NoBits(j: nat)
    ensures !Bit(0, j)
    decreases j
  {
    if j > 0 { NoBits(j - 1); }
  }

  /** MAIN: the attribute bits name exactly the enhanced areas of non-zero size. */
  lemma {:induction false} AttributesMeaning(conf: Conf, n: nat, j: nat)
    requires n <= 4 && |conf.gp| == 4
    ensures Bit(Attributes(conf, n), j)
            <==> (j == 0 && conf.enhSize != 0) || (1 <= j <= n && conf.gp[j - 1].size != 0 && conf.gp[j - 1].enhanced)
    decreases n
  {
    NoBits(j);
    BitSet(0, 0, true, j);
    if n > 0 {
      AttributesMeaning(conf, n - 1, j);
      BitSet(Attributes(conf, n - 1), n, true, j);
    }
  }

  /** The card needs the enhanced attribute exactly when some area is enhanced. */
  lemma {:induction false} AttributesZero(conf: Conf)
    requires |conf.gp| == 4
    ensures Attributes(conf, 4) == 0
            <==> conf.enhSize == 0 && forall i :: 0 <= i < 4 ==> conf.gp[i].size == 0 || !conf.gp[i].enhanced
  {
    forall j: nat ensures Bit(Attributes(conf, 4), j)
            <==> (j == 0 && conf.enhSize != 0) || (1 <= j <= 4 && conf.gp[j - 1].size != 0 && conf.gp[j - 1].enhanced)
    {
      AttributesMeaning(conf, 4, j);
    }
    if Attributes(conf, 4) == 0 {
      NoBits(0);
      forall i | 0 <= i < 4 ensures conf.gp[i].size == 0 || !conf.gp[i].enhanced { NoBits(i + 1); }
    } else if conf.enhSize == 0 && forall i :: 0 <= i < 4 ==> conf.gp[i].size == 0 || !conf.gp[i].enhanced {
      ByteBound();
      BitsZero(Attributes(conf, 4), 8);
    }
  }

  lemma {:induction false} AttributesSmall(conf: Conf, n: nat)
    requires n <= 4 && |conf.gp| == 4
    ensures Attributes(conf, n) < 32 && Power2(5) == 32
  {
    assert Power2(3) == 8;
    BitBound(0, 0, true, 5);
    if n > 0 {
      AttributesSmall(conf, n - 1);
      BitBound(Attributes(conf, n - 1), n, true, 5);
    }
  }

  /** The reliability byte once the user area and `n` partitions are in. */
  function Reliability(was: Byte, conf: Conf, n: nat): (r: Byte)
    requires n <= 4 && |conf.gp| == 4
  {
    if n == 0 then (if conf.wrRelChange then BitInByte(was, 0, conf.wrRelSet) else was)
    else
      var r := Reliability(was, conf, n - 1);
      if conf.gp[n - 1].wrRelChange then BitInByte(r, n, conf.gp[n - 1].wrRelSet) else r
  }

  /** MAIN: exactly the bits whose change is asked for take the requested value. */
  lemma {:induction false} ReliabilityMeaning(was: Byte, conf: Conf, n: nat, j: nat)
    requires n <= 4 && |conf.gp| == 4
    ensures Bit(Reliability(was, conf, n), j)
            == if j == 0 && conf.wrRelChange then conf.wrRelSet
               else if 1 <= j <= n && conf.gp[j - 1].wrRelChange then conf.gp[j - 1].wrRelSet
               else Bit(was, j)
    decreases n
  {
    BitSet(was, 0, conf.wrRelSet, j);
    if n > 0 {
      ReliabilityMeaning(was, conf, n - 1, j);
      BitSet(Reliability(was, conf, n - 1), n, conf.gp[n - 1].wrRelSet, j);
    }
  }

  /** Every reliability bit whose change is asked for has the requested value already. */
  predicate AlreadySo(was: Byte, conf: Conf)
    requires |conf.gp| == 4
  {
    && (conf.wrRelChange ==> Bit(was, 0) == conf.wrRelSet)
    && forall i :: 0 <= i < 4 && conf.gp[i].wrRelChange ==> Bit(was, i + 1) == conf.gp[i].wrRelSet
  }

  lemma {:induction false} ReliabilitySameIff(was: Byte, conf: Conf)
    requires |conf.gp| == 4
    ensures Reliability(was, conf, 4) == was <==> AlreadySo(was, conf)
  {
    forall j: nat
      ensures Bit(Reliability(was, conf, 4), j)
              == if j == 0 && conf.wrRelChange then conf.wrRelSet
                 else if 1 <= j <= 4 && conf.gp[j - 1].wrRelChange then conf.gp[j - 1].wrRelSet
                 else Bit(was, j)
    {
      ReliabilityMeaning(was, conf, 4, j);
    }
    hide Reliability, Bit;
    if AlreadySo(was, conf) {
      ByteBound();
      SameBits(Reliability(was, conf, 4), was, 8);
    } else if Reliability(was, conf, 4) == was {
      forall i | 0 <= i < 4 && conf.gp[i].wrRelChange
        ensures Bit(was, i + 1) == conf.gp[i].wrRelSet
      {
        assert Bit(Reliability(was, conf, 4), i + 1) == conf.gp[i].wrRelSet;
      }
    }
  }

  /** The write-protect groups of a size. */
  function GroupsOf(size: nat, hc: nat): (n: nat)
    requires hc > 0
  {
    size / hc
  }

  /** The enhanced groups of the user area and the first `n` partitions. */
  function TotalEnhanced(conf: Conf, hc: nat, n: nat): (t: nat)
    requires n <= 4 && |conf.gp| == 4 && hc > 0
  {
    if n == 0 then GroupsOf(conf.enhSize, hc)
    else
      var t := TotalEnhanced(conf, hc, n - 1);
      if conf.gp[n - 1].size != 0 && conf.gp[n - 1].enhanced then t + GroupsOf(conf.gp[n - 1].size, hc) else t
  }

  /** The size of a partition asked for as enhanced. */
  function EnhancedSize(gp: GpConf): nat {
    if gp.enhanced then gp.size else 0
  }

  /** MAIN: the enhanced groups of an aligned request are those of the enhanced user area and of
      every general-purpose partition that is enhanced, so they fit the card's maximum if and
      only if the sizes together do. */
  lemma {:induction false} EnhancedFitsIff(conf: Conf, hc: nat, max: nat)
    requires IsConf(conf) && hc > 0 && Aligned(conf, hc, 4)
    ensures TotalEnhanced(conf, hc, 4) <= max <==>
      conf.enhSize + EnhancedSize(conf.gp[0]) + EnhancedSize(conf.gp[1]) + EnhancedSize(conf.gp[2])
      + EnhancedSize(conf.gp[3]) <= max * hc
  {
    EnhancedSum(conf, hc, 4);
    hide TotalEnhanced, EnhancedSize, Aligned;
    TimesOrder(TotalEnhanced(conf, hc, 4), max, hc);
  }

  lemma {:induction false} TimesOrder(a: nat, b: nat, hc: nat)
    requires hc > 0
    ensures a <= b <==> a * hc <= b * hc
  {
    if a <= b { TimesMono(a, b, hc); } else { TimesMono(b + 1, a, hc); }
  }

  lemma {:induction false} TimesMono(a: nat, b: nat, hc: nat)
    requires a <= b
    ensures a * hc <= b * hc && (a + 1) * hc == a * hc + hc && b * hc + hc == (b + 1) * hc
    ensures a > 0 ==> a * hc == (a - 1) * hc + hc
  {
  }

  lemma {:induction false} EnhancedSum(conf: Conf, hc: nat, n: nat)
    requires IsConf(conf) && hc > 0 && Aligned(conf, hc, 4) && n <= 4
    ensures TotalEnhanced(conf, hc, n) * hc
            == conf.enhSize
               + (if n > 0 then EnhancedSize(conf.gp[0]) else 0) + (if n > 1 then EnhancedSize(conf.gp[1]) else 0)
               + (if n > 2 then EnhancedSize(conf.gp[2]) else 0) + (if n > 3 then EnhancedSize(conf.gp[3]) else 0)
  {
    if n == 0 {
      WholeGroups(conf.enhSize, hc);
    } else {
      EnhancedSum(conf, hc, n - 1);
      WholeGroups(conf.gp[n - 1].size, hc);
      Sum(TotalEnhanced(conf, hc, n - 1), GroupsOf(conf.gp[n - 1].size, hc), hc);
    }
  }

  lemma {:induction false} WholeGroups(size: nat, hc: nat)
    requires hc > 0 && (size == 0 || size % hc == 0)
    ensures GroupsOf(size, hc) * hc == size
  {
  }

  lemma {:induction false} Sum(a: nat, b: nat, hc: nat)
    ensures (a + b) * hc == a * hc + b * hc
  {
  }

  /** Every size and the start are whole write-protect groups. */
  predicate Aligned(conf: Conf, hc: nat, n: nat)
    requires n <= 4 && |conf.gp| == 4 && hc > 0
  {
    && (conf.enhSize != 0 ==> conf.enhSize % hc == 0 && conf.enhStart % hc == 0)
    && forall i :: 0 <= i < n ==> conf.gp[i].size % hc == 0
  }

  const VERSION_4: nat := 0x4004_0000
  const VERSION_4_41: nat := 0x4004_0401

  /** What a request must satisfy to be accepted, in a form free of order. */
  ghost predicate Accepted(isSd: bool, version: nat, partSupport: nat, hc: nat, conf: Conf, mode: nat, c: seq<Byte>)
    requires IsConf(conf) && |c| == CSD_BYTES
  {
    && mode <= COMPLETE && !isSd && version >= VERSION_4_41
    && Bit(partSupport, 0) && hc > 0 && Aligned(conf, hc, 4)
    && (Attributes(conf, 4) != 0 ==> Bit(partSupport, 1))
    && TotalEnhanced(conf, hc, 4) <= Number3(c, MAX_ENH_SIZE_MULT)
    && (Reliability(c[WR_REL_SET], conf, 4) != c[WR_REL_SET] ==> Bit(c[WR_REL_PARAM], 0))
    && !Completed(c)
  }

  /** MAIN: which requests are accepted, by their sizes and the card's abilities: version 4.41
      or later with partitioning, sizes and start in whole write-protect groups, no enhanced
      area unless the card has the attribute, not more of them than its maximum, no change of
      reliability unless the host controls it, and a table not yet complete. */
  lemma {:induction false} AcceptedIff(isSd: bool, version: nat, partSupport: nat, hc: nat, conf: Conf, mode: nat,
                                       c: seq<Byte>)
    requires IsConf(conf) && |c| == CSD_BYTES
    ensures Accepted(isSd, version, partSupport, hc, conf, mode, c) <==>
      && mode <= 2 && !isSd && version >= 0x4004_0401 && Bit(partSupport, 0) && hc > 0
      && (conf.enhSize != 0 ==> conf.enhSize % hc == 0 && conf.enhStart % hc == 0)
      && (forall i :: 0 <= i < 4 ==> conf.gp[i].size % hc == 0)
      && (Bit(partSupport, 1)
          || (conf.enhSize == 0 && forall i :: 0 <= i < 4 ==> conf.gp[i].size == 0 || !conf.gp[i].enhanced))
      && conf.enhSize + EnhancedSize(conf.gp[0]) + EnhancedSize(conf.gp[1]) + EnhancedSize(conf.gp[2])
         + EnhancedSize(conf.gp[3]) <= Number3(c, MAX_ENH_SIZE_MULT) * hc
      && (Bit(c[WR_REL_PARAM], 0) || AlreadySo(c[WR_REL_SET], conf))
      && !Bit(c[PARTITION_SETTING], 0)
  {
    hide Attributes, Reliability, TotalEnhanced, EnhancedSize, AlreadySo, Bit, Number3;
    AttributesZero(conf);
    ReliabilitySameIff(c[WR_REL_SET], conf);
    if hc > 0 && Aligned(conf, hc, 4) { EnhancedFitsIff(conf, hc, Number3(c, MAX_ENH_SIZE_MULT)); }
  }

  /** The start address as it goes to the card: sectors, or bytes cut to 32 bits. */
  function StartAddress(conf: Conf, highCapacity: bool): (a: nat)
    requires IsConf(conf)
    ensures a < TWO_32
  {
    if conf.enhSize == 0 then 0 else if highCapacity then conf.enhStart else conf.enhStart * 512 % TWO_32
  }

  // ---- the plan ----

  function GpWrites(conf: Conf, hc: nat, n: nat): (ws: seq<Write>)
    requires n <= 4 && |conf.gp| == 4 && hc > 0
  {
    if n == 0 then []
    else GpWrites(conf, hc, n - 1) + ByteWrites(GP_SIZE_MULT + 3 * (n - 1), conf.gp[n - 1].size / hc, 3)
  }

  /** The partition table. */
  function Settings(conf: Conf, hc: nat, highCapacity: bool): (ws: seq<Write>)
    requires IsConf(conf) && hc > 0
  {
    ByteWrites(ENH_START_ADDR, StartAddress(conf, highCapacity), 4)
    + ByteWrites(ENH_SIZE_MULT, conf.enhSize / hc, 3)
    + GpWrites(conf, hc, 4)
    + [Write(PARTITIONS_ATTRIBUTE, Attributes(conf, 4))]
  }

  function Opening(c: seq<Byte>): (ws: seq<Write>)
    requires |c| == CSD_BYTES
  {
    if Bit(c[ERASE_GROUP_DEF], 0) then [] else [Write(ERASE_GROUP_DEF, 1)]
  }

  /** What makes the table take effect: reliability, if it changes, then completion. */
  function Closing(conf: Conf, c: seq<Byte>): (ws: seq<Write>)
    requires IsConf(conf) && |c| == CSD_BYTES
  {
    (if Reliability(c[WR_REL_SET], conf, 4) != c[WR_REL_SET]
     then [Write(WR_REL_SET, Reliability(c[WR_REL_SET], conf, 4))] else [])
    + [Write(PARTITION_SETTING, 1)]
  }

  /** Everything an accepted request sends to the card. */
  function Plan(conf: Conf, mode: nat, c: seq<Byte>, hc: nat, highCapacity: bool): (ws: seq<Write>)
    requires IsConf(conf) && |c| == CSD_BYTES && hc > 0
  {
    if mode == CHECK then []
    else if mode == SET then Opening(c) + Settings(conf, hc, highCapacity)
    else Opening(c) + Settings(conf, hc, highCapacity) + Closing(conf, c)
  }

  // ---- order ----

  lemma {:induction false} ByteWritesIndices(index: nat, x: nat, n: nat)
    ensures forall w :: w in ByteWrites(index, x, n) ==> index <= w.index < index + n
    decreases n
  {
    if n > 0 { ByteWritesIndices(index, x, n - 1); }
  }

  lemma {:induction false} GpWritesIndices(conf: Conf, hc: nat, n: nat)
    requires n <= 4 && |conf.gp| == 4 && hc > 0
    ensures forall w :: w in GpWrites(conf, hc, n) ==> GP_SIZE_MULT <= w.index < GP_SIZE_MULT + 3 * n
    decreases n
  {
    if n > 0 {
      GpWritesIndices(conf, hc, n - 1);
      ByteWritesIndices(GP_SIZE_MULT + 3 * (n - 1), conf.gp[n - 1].size / hc, 3);
    }
  }

  lemma {:induction false} SettingsIndices(conf: Conf, hc: nat, highCapacity: bool)
    requires IsConf(conf) && hc > 0
    ensures forall w :: w in Settings(conf, hc, highCapacity) ==>
              ENH_START_ADDR <= w.index <= PARTITIONS_ATTRIBUTE && w.index != PARTITION_SETTING
  {
    ByteWritesIndices(ENH_START_ADDR, StartAddress(conf, highCapacity), 4);
    ByteWritesIndices(ENH_SIZE_MULT, conf.enhSize / hc, 3);
    GpWritesIndices(conf, hc, 4);
  }

  ghost predicate Writes(ws: seq<Write>, index: nat) {
    exists i :: 0 <= i < |ws| && ws[i].index == index
  }

  /** MAIN: the card is switched to high-capacity units before anything of the table is sent,
      unless it was switched already. */
  lemma {:induction false} SwitchedFirst(conf: Conf, mode: nat, c: seq<Byte>, hc: nat, highCapacity: bool,
                                         sent: seq<Write>)
    requires IsConf(conf) && |c| == CSD_BYTES && hc > 0 && mode <= COMPLETE
    requires sent <= Plan(conf, mode, c, hc, highCapacity) && |sent| > 0
    ensures Bit(c[ERASE_GROUP_DEF], 0) || sent[0] == Write(ERASE_GROUP_DEF, 1)
    ensures forall i :: 0 <= i < |sent| && sent[i].index == ERASE_GROUP_DEF ==> i == 0 && !Bit(c[ERASE_GROUP_DEF], 0)
  {
    var o, table := Opening(c), Settings(conf, hc, highCapacity);
    var plan := Plan(conf, mode, c, hc, highCapacity);
    SettingsIndices(conf, hc, highCapacity);
    assert mode == SET ==> plan == o + table;
    assert mode == COMPLETE ==> plan == o + table + Closing(conf, c);
    forall i | 0 <= i < |sent|
      ensures sent[i] == plan[i] && (|o| <= i ==> sent[i].index != ERASE_GROUP_DEF)
    {
      if |o| <= i < |o| + |table| { assert plan[i] == table[i - |o|] && table[i - |o|] in table; }
    }
  }

  /** MAIN: what can have been sent when any run stops, wherever it stops. Checking sends
      nothing; setting never touches the write-once bytes; completion is the very last
      write, after the reliability byte and the whole table. */
  lemma {:induction false} WriteOrder(conf: Conf, mode: nat, c: seq<Byte>, hc: nat, highCapacity: bool,
                                      sent: seq<Write>)
    requires IsConf(conf) && |c| == CSD_BYTES && hc > 0 && mode <= COMPLETE
    requires sent <= Plan(conf, mode, c, hc, highCapacity)
    ensures mode == CHECK ==> sent == []
    ensures mode == SET ==> !Writes(sent, WR_REL_SET) && !Writes(sent, PARTITION_SETTING)
    ensures Writes(sent, PARTITION_SETTING) ==> sent == Plan(conf, COMPLETE, c, hc, highCapacity)
    ensures Writes(sent, WR_REL_SET) ==> Opening(c) + Settings(conf, hc, highCapacity) <= sent
    ensures forall i :: 0 <= i < |sent| && sent[i].index == PARTITION_SETTING ==> i == |sent| - 1
    ensures Writes(sent, PARTITION_SETTING) && Reliability(c[WR_REL_SET], conf, 4) != c[WR_REL_SET] ==>
      Writes(sent, WR_REL_SET)
  {
    SettingsIndices(conf, hc, highCapacity);
    var table := Opening(c) + Settings(conf, hc, highCapacity);
    assert forall w :: w in table ==> w.index != PARTITION_SETTING && w.index != WR_REL_SET;
    var plan := Plan(conf, mode, c, hc, highCapacity);
    forall i | 0 <= i < |sent| ensures sent[i] == plan[i] { }
    if mode == COMPLETE {
      assert plan == table + Closing(conf, c);
      forall i | 0 <= i < |table| ensures plan[i] == table[i] { }
      if Reliability(c[WR_REL_SET], conf, 4) != c[WR_REL_SET] && |sent| == |plan| {
        assert sent[|sent| - 2].index == WR_REL_SET;
      }
      forall i | 0 <= i < |sent| && sent[i].index == PARTITION_SETTING ensures i == |plan| - 1 { }
      if Writes(sent, PARTITION_SETTING) { assert sent == plan; }
      if Writes(sent, WR_REL_SET) { assert |sent| > |table|; }
    }
  }

  // ---- round trip ----

  /** `c'` holds the sizes of the first `n` partitions and is otherwise `c`. */
  ghost predicate GpTabled(c: seq<Byte>, c': seq<Byte>, conf: Conf, hc: nat, n: nat)
    requires |c| == CSD_BYTES && n <= 4 && |conf.gp| == 4 && hc > 0
  {
    && |c'| == |c|
    && (forall p :: 0 <= p < n ==> Number3(c', GP_SIZE_MULT + 3 * p) == conf.gp[p].size / hc)
    && (forall j :: 0 <= j < |c| && !(GP_SIZE_MULT <= j < GP_SIZE_MULT + 3 * n) ==> c'[j] == c[j])
  }

  lemma {:induction false} GpPlaced(c: seq<Byte>, conf: Conf, hc: nat, n: nat)
    requires |c| == CSD_BYTES && n <= 4 && IsConf(conf) && hc >= 1024
    ensures GpTabled(c, Apply(c, GpWrites(conf, hc, n)), conf, hc, n)
    decreases n
  {
    if n > 0 {
      GpPlaced(c, conf, hc, n - 1);
      var b := Apply(c, GpWrites(conf, hc, n - 1));
      var at, mult := GP_SIZE_MULT + 3 * (n - 1), conf.gp[n - 1].size / hc;
      ApplyConcat(c, GpWrites(conf, hc, n - 1), ByteWrites(at, mult, 3));
      BytesPlaced(b, at, mult, 3);
      MultiplierFits(conf.gp[n - 1].size, hc);
      GpNext(c, b, Apply(b, ByteWrites(at, mult, 3)), conf, hc, n);
    }
  }

  lemma {:induction false} GpNext(c: seq<Byte>, b: seq<Byte>, c': seq<Byte>, conf: Conf, hc: nat, n: nat)
    requires |c| == CSD_BYTES && 0 < n <= 4 && IsConf(conf) && hc >= 1024 && GpTabled(c, b, conf, hc, n - 1)
    requires Placed(b, c', GP_SIZE_MULT + 3 * (n - 1), conf.gp[n - 1].size / hc, 3)
      && conf.gp[n - 1].size / hc < 0x100_0000
    ensures GpTabled(c, c', conf, hc, n)
  {
    hide ByteOf;
    Reads3(b, c', GP_SIZE_MULT + 3 * (n - 1), conf.gp[n - 1].size / hc);
    forall p | 0 <= p < n
      ensures Number3(c', GP_SIZE_MULT + 3 * p) == conf.gp[p].size / hc
    {
      if p < n - 1 { SameNumber3(b, c', GP_SIZE_MULT + 3 * p); }
    }
  }

  lemma {:induction false} SameNumber3(b: seq<Byte>, c: seq<Byte>, at: nat)
    requires at + 3 <= |b| == |c| && b[at] == c[at] && b[at + 1] == c[at + 1] && b[at + 2] == c[at + 2]
    ensures Number3(b, at) == Number3(c, at)
  {
  }

  /** Three bytes are always enough for a number of groups. */
  lemma {:induction false} MultiplierFits(size: nat, hc: nat)
    requires size < TWO_32 && hc >= 1024
    ensures size / hc < 0x100_0000
  {
    var m := size / hc;
    assert size == m * hc + size % hc;
    assert m * hc == m * 1024 + m * (hc - 1024);
    assert m * (hc - 1024) >= 0;
  }

  /** `c'` holds the table of the request and is otherwise `c`. */
  ghost predicate Tabled(c: seq<Byte>, c': seq<Byte>, conf: Conf, hc: nat, highCapacity: bool)
    requires |c| == CSD_BYTES && IsConf(conf) && hc >= 1024
  {
    && |c'| == |c|
    && Number4(c', ENH_START_ADDR) == StartAddress(conf, highCapacity)
    && Number3(c', ENH_SIZE_MULT) == conf.enhSize / hc
    && (forall p :: 0 <= p < 4 ==> Number3(c', GP_SIZE_MULT + 3 * p) == conf.gp[p].size / hc)
    && c'[PARTITIONS_ATTRIBUTE] == Attributes(conf, 4)
    && (forall j :: 0 <= j < |c| && !(ENH_START_ADDR <= j < PARTITION_SETTING || j == PARTITIONS_ATTRIBUTE) ==>
        c'[j] == c[j])
  }

  lemma {:induction false} SettingsTabled(c: seq<Byte>, conf: Conf, hc: nat, highCapacity: bool)
    requires |c| == CSD_BYTES && IsConf(conf) && hc >= 1024
    ensures Tabled(c, Apply(c, Settings(conf, hc, highCapacity)), conf, hc, highCapacity)
  {
    var addr, mult := StartAddress(conf, highCapacity), conf.enhSize / hc;
    var s1, s2, s3 := ByteWrites(ENH_START_ADDR, addr, 4), ByteWrites(ENH_SIZE_MULT, mult, 3), GpWrites(conf, hc, 4);
    var w := Write(PARTITIONS_ATTRIBUTE, Attributes(conf, 4));
    var c1 := Apply(c, s1);
    var c2 := Apply(c1, s2);
    var c3 := Apply(c2, s3);
    ApplyConcat(c, s1, s2);
    ApplyConcat(c, s1 + s2, s3);
    ApplyConcat(c, s1 + s2 + s3, [w]);
    ApplyOne(c3, w);
    BytesPlaced(c, ENH_START_ADDR, addr, 4);
    Reads4(c, c1, ENH_START_ADDR, addr);
    BytesPlaced(c1, ENH_SIZE_MULT, mult, 3);
    MultiplierFits(conf.enhSize, hc);
    Reads3(c1, c2, ENH_SIZE_MULT, mult);
    GpPlaced(c2, conf, hc, 4);
  }

  // what start-up computes

  predicate Completed(c: seq<Byte>)
    requires |c| == CSD_BYTES
  {
    Bit(c[PARTITION_SETTING], 0)
  }

  /** The write-protect group, in sectors. */
  function HcWpGrpSize(c: seq<Byte>): (n: nat)
    requires |c| == CSD_BYTES
  {
    1024 * (c[HC_ERASE_GRP_SIZE] as int) * (c[HC_WP_GRP_SIZE] as int)
  }

  /** Groups as bytes. */
  function GroupBytes(mult: nat, c: seq<Byte>): (n: nat)
    requires |c| == CSD_BYTES
  {
    mult * (c[HC_ERASE_GRP_SIZE] as int) * (c[HC_WP_GRP_SIZE] as int) * 0x8_0000
  }

  function EnhUserSize(c: seq<Byte>): nat
    requires |c| == CSD_BYTES
  {
    GroupBytes(Number3(c, ENH_SIZE_MULT), c)
  }

  function CapacityGp(c: seq<Byte>, i: nat): nat
    requires |c| == CSD_BYTES && i < 4
  {
    GroupBytes(Number3(c, GP_SIZE_MULT + 3 * i), c)
  }

  function EnhUserStart(c: seq<Byte>, highCapacity: bool): nat
    requires |c| == CSD_BYTES
  {
    if highCapacity then Number4(c, ENH_START_ADDR) * 512 else Number4(c, ENH_START_ADDR)
  }

  lemma {:induction false} GroupBytesOf(size: nat, c: seq<Byte>)
    requires |c| == CSD_BYTES && HcWpGrpSize(c) > 0 && size % HcWpGrpSize(c) == 0
    ensures GroupBytes(size / HcWpGrpSize(c), c) == 512 * size
  {
    var m, e, w := size / HcWpGrpSize(c), c[HC_ERASE_GRP_SIZE], c[HC_WP_GRP_SIZE];
    assert size == m * HcWpGrpSize(c);
    Regroup(m, e, w);
  }

  lemma {:induction false} Regroup(m: int, e: int, w: int)
    ensures m * e * w * 0x8_0000 == 512 * (m * (1024 * e * w))
  {
    assert m * (1024 * e * w) == 1024 * (m * e * w);
  }

  lemma {:induction false} GroupSizeAtLeast(c: seq<Byte>)
    requires |c| == CSD_BYTES && HcWpGrpSize(c) > 0
    ensures HcWpGrpSize(c) >= 1024
  {
    var k := (c[HC_ERASE_GRP_SIZE] as int) * (c[HC_WP_GRP_SIZE] as int);
    assert HcWpGrpSize(c) == 1024 * k;
  }

  /** Nothing is lost in 64 bits. */
  lemma {:induction false} GroupBytesFit(mult: nat, c: seq<Byte>)
    requires |c| == CSD_BYTES && mult < 0x100_0000
    ensures GroupBytes(mult, c) < TWO_64
  {
    var e, w := c[HC_ERASE_GRP_SIZE], c[HC_WP_GRP_SIZE];
    assert mult * e <= 0x100_0000 * 256 by { Bounded(mult, 0x100_0000, e, 256); }
    assert mult * e * w <= 0x100_0000 * 256 * 256 by { Bounded(mult * e, 0x100_0000 * 256, w, 256); }
  }

  lemma {:induction false} NumberFits3(c: seq<Byte>, at: nat)
    requires at + 3 <= |c|
    ensures Number3(c, at) < 0x100_0000
  {
  }

  lemma {:induction false} Bounded(a: nat, b: nat, c: nat, d: nat)
    requires a <= b && c <= d
    ensures a * c <= b * d
  {
    assert b * d == a * c + a * (d - c) + (b - a) * d;
  }

  /** The table on the card decodes to the sizes asked for, in high-capacity units, which the
      card has been switched to. */
  ghost predicate Asked(c: seq<Byte>, conf: Conf)
    requires |c| == CSD_BYTES && IsConf(conf)
  {
    && Bit(c[ERASE_GROUP_DEF], 0)
    && EnhUserSize(c) == 512 * conf.enhSize
    && (forall i :: 0 <= i < 4 ==> CapacityGp(c, i) == 512 * conf.gp[i].size)
    && c[PARTITIONS_ATTRIBUTE] == Attributes(conf, 4)
  }

  /** MAIN: what setting or completing leaves decodes to what was asked for. Completing also
      marks the table complete and changes the reliability byte, setting does neither. The
      start of the enhanced area comes back right exactly when there is an area and its byte
      address fits the card's addressing, or there is none and the start was zero anyway. */
  lemma {:induction false} PlanRoundTrip(c: seq<Byte>, conf: Conf, mode: nat, highCapacity: bool)
    requires |c| == CSD_BYTES && IsConf(conf) && HcWpGrpSize(c) > 0 && Aligned(conf, HcWpGrpSize(c), 4)
    requires mode == SET || mode == COMPLETE
    ensures var c' := Apply(c, Plan(conf, mode, c, HcWpGrpSize(c), highCapacity));
            && Asked(c', conf) && HcWpGrpSize(c') == HcWpGrpSize(c)
            && (mode == COMPLETE ==> Completed(c') && c'[WR_REL_SET] == Reliability(c[WR_REL_SET], conf, 4))
            && (mode == SET ==> c'[PARTITION_SETTING] == c[PARTITION_SETTING] && c'[WR_REL_SET] == c[WR_REL_SET])
            && (EnhUserStart(c', highCapacity) == 512 * conf.enhStart
                <==> if conf.enhSize != 0 then highCapacity || conf.enhStart < 0x80_0000 else conf.enhStart == 0)
  {
    hide Apply, Plan;
    var hc := HcWpGrpSize(c);
    GroupSizeAtLeast(c);
    PlanTabled(c, conf, mode, highCapacity);
    var c' := Apply(c, Plan(conf, mode, c, hc, highCapacity));
    GroupBytesOf(conf.enhSize, c');
    forall i | 0 <= i < 4 ensures CapacityGp(c', i) == 512 * conf.gp[i].size { GroupBytesOf(conf.gp[i].size, c'); }
    StartComesBack(conf, highCapacity);
  }

  lemma {:induction false} StartComesBack(conf: Conf, highCapacity: bool)
    requires IsConf(conf)
    ensures var a := StartAddress(conf, highCapacity);
            (if highCapacity then a * 512 else a) == 512 * conf.enhStart
            <==> if conf.enhSize != 0 then highCapacity || conf.enhStart < 0x80_0000 else conf.enhStart == 0
  {
  }

  lemma {:induction false} PlanTabled(c: seq<Byte>, conf: Conf, mode: nat, highCapacity: bool)
    requires |c| == CSD_BYTES && IsConf(conf) && HcWpGrpSize(c) >= 1024 && (mode == SET || mode == COMPLETE)
    ensures var hc := HcWpGrpSize(c);
            var c' := Apply(c, Plan(conf, mode, c, hc, highCapacity));
            && |c'| == |c|
            && Number4(c', ENH_START_ADDR) == StartAddress(conf, highCapacity)
            && Number3(c', ENH_SIZE_MULT) == conf.enhSize / hc
            && (forall p :: 0 <= p < 4 ==> Number3(c', GP_SIZE_MULT + 3 * p) == conf.gp[p].size / hc)
            && c'[PARTITIONS_ATTRIBUTE] == Attributes(conf, 4)
            && c'[HC_ERASE_GRP_SIZE] == c[HC_ERASE_GRP_SIZE] && c'[HC_WP_GRP_SIZE] == c[HC_WP_GRP_SIZE]
            && Bit(c'[ERASE_GROUP_DEF], 0)
            && (mode == COMPLETE ==>
                  c'[PARTITION_SETTING] == 1 && c'[WR_REL_SET] == Reliability(c[WR_REL_SET], conf, 4))
            && (mode == SET ==> c'[PARTITION_SETTING] == c[PARTITION_SETTING] && c'[WR_REL_SET] == c[WR_REL_SET])
  {
    hide Settings, Opening, Closing, Apply, Reliability, Attributes, Number3, Number4;
    var hc := HcWpGrpSize(c);
    var o, s, e := Opening(c), Settings(conf, hc, highCapacity), Closing(conf, c);
    ApplyConcat(c, o, s);
    ApplyConcat(c, o + s, e);
    var c1 := Apply(c, o);
    OpeningApplied(c);
    SettingsTabled(c1, conf, hc, highCapacity);
    if mode == COMPLETE {
      ClosingApplied(Apply(c1, s), conf, c);
      ReadsAlike(Apply(c1, s), Apply(Apply(c1, s), e));
    }
  }

  /** The numbers of the table are read from bytes that completion does not touch. */
  lemma {:induction false} ReadsAlike(b: seq<Byte>, c: seq<Byte>)
    requires |b| == |c| == CSD_BYTES
    requires forall j :: 0 <= j < |b| && j != PARTITION_SETTING && j != WR_REL_SET ==> c[j] == b[j]
    ensures Number4(c, ENH_START_ADDR) == Number4(b, ENH_START_ADDR)
    ensures Number3(c, ENH_SIZE_MULT) == Number3(b, ENH_SIZE_MULT)
    ensures forall p :: 0 <= p < 4 ==> Number3(c, GP_SIZE_MULT + 3 * p) == Number3(b, GP_SIZE_MULT + 3 * p)
  {
  }

  lemma {:induction false} OpeningApplied(c: seq<Byte>)
    requires |c| == CSD_BYTES
    ensures forall j :: 0 <= j < |c| && j != ERASE_GROUP_DEF ==> Apply(c, Opening(c))[j] == c[j]
    ensures Bit(Apply(c, Opening(c))[ERASE_GROUP_DEF], 0)
  {
    ApplyOne(c, Write(ERASE_GROUP_DEF, 1));
  }

  lemma {:induction false} ClosingApplied(b: seq<Byte>, conf: Conf, c: seq<Byte>)
    requires |b| == |c| == CSD_BYTES && IsConf(conf) && b[WR_REL_SET] == c[WR_REL_SET]
    ensures var c' := Apply(b, Closing(conf, c));
            && c'[PARTITION_SETTING] == 1 && c'[WR_REL_SET] == Reliability(c[WR_REL_SET], conf, 4)
            && forall j :: 0 <= j < |b| && j != PARTITION_SETTING && j != WR_REL_SET ==> c'[j] == b[j]
  {
    var r := Reliability(c[WR_REL_SET], conf, 4);
    var done := Write(PARTITION_SETTING, 1);
    if r != c[WR_REL_SET] {
      ApplyConcat(b, [Write(WR_REL_SET, r)], [done]);
      ApplyOne(b, Write(WR_REL_SET, r));
      ApplyOne(Apply(b, [Write(WR_REL_SET, r)]), done);
    } else {
      assert [] + [done] == [done];
      ApplyOne(b, done);
    }
  }

  /** A card with one erase unit per write-protect group that supports enhanced partitions,
      and a request for one enhanced group at `start`, or for none. */
  function ExampleCsd(): (c: seq<Byte>)
    ensures |c| == CSD_BYTES
  {
    seq(CSD_BYTES, i => if i == HC_WP_GRP_SIZE || i == HC_ERASE_GRP_SIZE || i == MAX_ENH_SIZE_MULT then 1 else 0)
  }

  function ExampleConf(start: nat, size: nat): Conf {
    var none := GpConf(0, false, false, false);
    Conf(start, size, false, false, [none, none, none, none])
  }

  lemma {:induction false} NoPartitions(start: nat, size: nat, n: nat)
    requires n <= 4
    ensures var conf := ExampleConf(start, size);
      TotalEnhanced(conf, 1024, n) == size / 1024 && Reliability(0, conf, n) == 0
    decreases n
  {
    if n > 0 { NoPartitions(start, size, n - 1); }
  }

  lemma {:induction false} ExampleAccepted(start: nat, size: nat)
    requires start < TWO_32 && (size == 0 || (size == 1024 && start % 1024 == 0))
    ensures IsConf(ExampleConf(start, size)) && HcWpGrpSize(ExampleCsd()) == 1024
    ensures Accepted(false, VERSION_4_41, 3, 1024, ExampleConf(start, size), COMPLETE, ExampleCsd())
  {
    assert Bit(3, 1) by { assert Bit(1, 0); }
    NoPartitions(start, size, 4);
    assert Number3(ExampleCsd(), MAX_ENH_SIZE_MULT) == 1;
  }

  /** What the plan leaves of the start address. */
  lemma {:induction false} PlanStart(c: seq<Byte>, conf: Conf, highCapacity: bool)
    requires |c| == CSD_BYTES && IsConf(conf) && HcWpGrpSize(c) > 0
    ensures EnhUserStart(Apply(c, Plan(conf, COMPLETE, c, HcWpGrpSize(c), highCapacity)), highCapacity)
            == if highCapacity then StartAddress(conf, highCapacity) * 512 else StartAddress(conf, highCapacity)
  {
    GroupSizeAtLeast(c);
    PlanTabled(c, conf, COMPLETE, highCapacity);
  }

  /** Accepted on a byte-addressed card, but the start comes back as zero: the byte address
      of an area at sector 2^23 needs 33 bits. */
  lemma {:induction false} StartLostExample()
    ensures var conf := ExampleConf(0x80_0000, 1024);
      && IsConf(conf) && HcWpGrpSize(ExampleCsd()) == 1024
      && Accepted(false, VERSION_4_41, 3, 1024, conf, COMPLETE, ExampleCsd())
      && EnhUserStart(Apply(ExampleCsd(), Plan(conf, COMPLETE, ExampleCsd(), 1024, false)), false) == 0
  {
    hide Accepted, Apply, Plan, EnhUserStart, ExampleCsd, HcWpGrpSize;
    ExampleAccepted(0x80_0000, 1024);
    PlanStart(ExampleCsd(), ExampleConf(0x80_0000, 1024), false);
  }

  /** Accepted on any card, but without an area the start is not kept. */
  lemma {:induction false} NoAreaExample(highCapacity: bool)
    ensures var conf := ExampleConf(1, 0);
      && IsConf(conf) && HcWpGrpSize(ExampleCsd()) == 1024
      && Accepted(false, VERSION_4_41, 3, 1024, conf, COMPLETE, ExampleCsd())
      && EnhUserStart(Apply(ExampleCsd(), Plan(conf, COMPLETE, ExampleCsd(), 1024, highCapacity)), highCapacity) == 0
  {
    hide Accepted, Apply, Plan, EnhUserStart, ExampleCsd, HcWpGrpSize;
    ExampleAccepted(1, 0);
    PlanStart(ExampleCsd(), ExampleConf(1, 0), highCapacity);
  }
}
