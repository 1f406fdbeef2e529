/**
 * FAT cluster chains (fat/fatchain.c and fatio_read of fat/fatio.c).
 *
 * A file is the concatenation of the clusters of its chain.  The driver never walks that
 * chain byte by byte: it keeps up to eight contiguous areas of it in a cache, extends or
 * rewinds the cache as reads move around, and reads whole areas at once.  The results here
 * say that, whatever reads went through a cache before, a read returns the bytes the naive
 * concatenation has at that place, and that parsing a chain ends on every table, cyclic or not.
 */
module FatChain {
  const U32_SIZE: nat := 0x1_0000_0000
  const FAT_EOF: nat := 0x0fff_ffff
  const FAT_CHAIN_AREAS: nat := 8
  const RSVD_ENTRIES: nat := 2
  const ROOT_DIR_CLUSTER: nat := 0
  const EOK: int := 0
  const ENOENT: int := 2
  const EINVAL: int := 22

  type Byte = b: nat | b < 256

  datatype FatType = FAT12 | FAT16 | FAT32

  /** Arithmetic on the 32-bit unsigned fields of the driver. */
  function U32(x: int): nat {
    x % U32_SIZE
  }

  lemma InU32(x: nat)
    requires x < U32_SIZE
    ensures U32(x) == x
  {
  }

  /** The mounted volume: its parameters and its bytes.  Reads of the device always succeed. */
  datatype Info = Info(
    fatType: FatType,
    fatoffBytes: nat,
    rootoff: nat,
    dataoff: nat,
    totalSectors: nat,
    bytesPerSec: nat,
    secPerClus: nat,
    rootClus: nat,
    disk: nat -> Byte)
  {
    /** How many clusters the driver thinks there are: those of the whole volume. */
    function Clusters(): nat {
      if secPerClus == 0 then 0 else totalSectors / secPerClus
    }

    /** How many clusters there are: those of the data region. */
    function DataClusters(): nat {
      if secPerClus == 0 || totalSectors <= dataoff then 0 else (totalSectors - dataoff) / secPerClus
    }

    /** Clusters are numbered from 2 up to this. */
    function Legal(): nat {
      RSVD_ENTRIES + DataClusters()
    }

    /** What every mounted volume has: sector numbers fit 32 bits. */
    ghost predicate Geometry() {
      bytesPerSec > 0 && 0 < secPerClus < 256 && totalSectors < U32_SIZE && dataoff < U32_SIZE && rootoff <= dataoff
    }

    /** Byte offsets into the volume fit 32 bits as well, and no cluster number is an end-of-chain mark. */
    ghost predicate Fits() {
      Geometry() && 0 < dataoff && Legal() < FAT_EOF && totalSectors * bytesPerSec <= U32_SIZE
    }

    /** The driver accepts every cluster there is. */
    ghost predicate Sound() {
      DataClusters() == 0 || Legal() <= Clusters()
    }
  }

  // ---------------------------------------------------------------------------------------
  // One entry of the table

  function Word(info: Info, off: nat): nat {
    info.disk(off) + 0x100 * info.disk(off + 1) + 0x1_0000 * info.disk(off + 2) + 0x100_0000 * info.disk(off + 3)
  }

  /** The bits of an entry that count, with every end-of-chain mark turned into FAT_EOF. */
  function Marked(t: FatType, entry: nat): nat {
    match t
    case FAT32 => if entry % 0x1000_0000 >= 0xfff_fff8 then FAT_EOF else entry % 0x1000_0000
    case FAT16 => if entry % 0x1_0000 >= 0xfff8 then FAT_EOF else entry % 0x1_0000
    case FAT12 => if entry % 0x1000 >= 0xff8 then FAT_EOF else entry % 0x1000
  }

  /** The table entry of a cluster, as fatchain_getOne reads it. */
  function Next(info: Info, cluster: nat): nat {
    match info.fatType
    case FAT32 => Marked(FAT32, Word(info, info.fatoffBytes + cluster * 4))
    case FAT16 => Marked(FAT16, Word(info, info.fatoffBytes + cluster * 2))
    case FAT12 =>
      var w := Word(info, info.fatoffBytes + cluster * 3 / 2);
      Marked(FAT12, if cluster % 2 == 1 then w / 16 else w)
  }

  /** Twelve-bit entries: two neighbours share three bytes, the middle one half and half. */
  lemma Fat12Pair(info: Info, k: nat)
    requires info.fatType == FAT12
    ensures var at := info.fatoffBytes + 3 * k;
            Next(info, 2 * k) == Marked(FAT12, info.disk(at) + 0x100 * (info.disk(at + 1) % 16)) &&
            Next(info, 2 * k + 1) == Marked(FAT12, info.disk(at + 1) / 16 + 16 * info.disk(at + 2))
  {
    hide Word;
    var at := info.fatoffBytes + 3 * k;
    EvenWord(info, at);
    OddWord(info, at + 1);
    assert 2 * k * 3 / 2 == 3 * k && (2 * k + 1) * 3 / 2 == 3 * k + 1 && 2 * k % 2 == 0 && (2 * k + 1) % 2 == 1;
    assert Next(info, 2 * k) == Marked(FAT12, Word(info, at));
    assert Next(info, 2 * k + 1) == Marked(FAT12, Word(info, at + 1) / 16);
  }

  lemma EvenWord(info: Info, at: nat)
    ensures Word(info, at) % 0x1000 == (info.disk(at) + 0x100 * (info.disk(at + 1) % 16)) % 0x1000
  {
    var b: nat, c: nat, d: nat := info.disk(at + 1), info.disk(at + 2), info.disk(at + 3);
    assert b == b % 16 + 16 * (b / 16);
    var a: nat := info.disk(at);
    Low12(a + 0x100 * (b % 16), b / 16 + 16 * c + 0x1000 * d);
  }

  lemma OddWord(info: Info, at: nat)
    ensures Word(info, at) / 16 % 0x1000 == (info.disk(at) / 16 + 16 * info.disk(at + 1)) % 0x1000
  {
    var a: nat, b: nat := info.disk(at), info.disk(at + 1);
    var c: nat, d: nat := info.disk(at + 2), info.disk(at + 3);
    assert a == a % 16 + 16 * (a / 16);
    var high := a / 16 + 16 * b + 0x1000 * (c + 0x100 * d);
    assert Word(info, at) == a % 16 + 16 * high;
    Low12(a / 16 + 16 * b, c + 0x100 * d);
  }

  lemma Low12(x: nat, k: nat)
    ensures (x + 0x1000 * k) % 0x1000 == x % 0x1000
  {
  }

  method GetOne(info: Info, cluster: nat) returns (r: int, next: nat)
    ensures r == EOK <==> cluster < info.Clusters()
    ensures r == EOK ==> next == Next(info, cluster)
    ensures r == EOK || r == -EINVAL
  {
    if cluster >= info.Clusters() {
      return -EINVAL, 0;
    }
    return EOK, Next(info, cluster);
  }

  // ---------------------------------------------------------------------------------------
  // Chains, and the sectors and bytes of a file

  /** The chain that starts at a cluster and follows the table to its end-of-chain mark. */
  ghost predicate IsChain(info: Info, start: nat, chain: seq<nat>) {
    0 < |chain| && chain[0] == start &&
    (forall i :: 0 <= i < |chain| ==> RSVD_ENTRIES <= chain[i] < info.Legal()) &&
    (forall i :: 0 <= i < |chain| ==> Next(info, chain[i]) == Following(chain, i + 1))
  }

  ghost function Following(chain: seq<nat>, i: nat): nat {
    if i < |chain| then chain[i] else FAT_EOF
  }

  /** Where a chain really starts: the root directory of a FAT32 volume has its cluster in the boot sector. */
  function Start(info: Info, chainStart: nat): nat {
    if chainStart == ROOT_DIR_CLUSTER && info.fatType == FAT32 then info.rootClus else chainStart
  }

  /** How many sectors k clusters have. */
  function Off(info: Info, k: nat): nat {
    k * info.secPerClus
  }

  /** Chains of the driver's own range of clusters, which is another. */
  ghost predicate Accepted(info: Info, chain: seq<nat>) {
    forall i :: 0 <= i < |chain| ==> chain[i] < info.Clusters()
  }

  /** So much for the clusters lo up to hi of a chain. */
  ghost predicate Takes(info: Info, chain: seq<nat>, lo: nat, hi: nat) {
    forall i :: lo <= i < hi && i < |chain| ==> chain[i] < info.Clusters()
  }

  lemma TakesMore(info: Info, chain: seq<nat>, lo: nat, k: nat, hi: nat)
    requires Takes(info, chain, lo, k) && Takes(info, chain, k, hi)
    ensures Takes(info, chain, lo, hi)
  {
  }

  lemma TakesOne(info: Info, chain: seq<nat>, lo: nat, k: nat)
    requires Takes(info, chain, lo, k) && k < |chain| && chain[k] < info.Clusters()
    ensures Takes(info, chain, lo, k + 1)
  {
  }

  lemma TakesNone(info: Info, chain: seq<nat>, lo: nat)
    ensures Takes(info, chain, lo, lo)
  {
  }

  lemma Refused(info: Info, chain: seq<nat>, k: nat)
    requires k < |chain| && chain[k] >= info.Clusters()
    ensures !Accepted(info, chain)
  {
  }

  lemma OffSum(info: Info, a: nat, b: nat)
    ensures Off(info, a + b) == Off(info, a) + Off(info, b)
    ensures Off(info, 0) == 0 && Off(info, 1) == info.secPerClus
    ensures a <= b ==> Off(info, a) <= Off(info, b)
    ensures 0 < b && 0 < info.secPerClus ==> 0 < Off(info, b)
  {
    Times(a, b, info.secPerClus);
    Times(0, b, info.secPerClus);
  }

  /** First sector of a cluster. */
  function FirstSector(info: Info, cluster: nat): int {
    info.dataoff + (cluster - 2) * info.secPerClus
  }

  ghost function Run(start: int, size: nat): seq<int> {
    seq(size, i => start + i)
  }

  /** The sectors of a chain, cluster after cluster. */
  ghost function Sectors(info: Info, chain: seq<nat>): (s: seq<int>)
    requires info.secPerClus > 0
  {
    if chain == [] then []
    else Sectors(info, chain[..|chain| - 1]) + Run(FirstSector(info, chain[|chain| - 1]), info.secPerClus)
  }

  /** The bytes of a list of sectors. */
  ghost function Bytes(info: Info, sectors: seq<int>): (s: seq<Byte>)
    requires info.bytesPerSec > 0
    requires forall i :: 0 <= i < |sectors| ==> sectors[i] >= 0
  {
    if sectors == [] then []
    else Bytes(info, sectors[..|sectors| - 1]) + DiskBytes(info, sectors[|sectors| - 1] * info.bytesPerSec,
      info.bytesPerSec)
  }

  ghost function DiskBytes(info: Info, off: nat, n: nat): (s: seq<Byte>)
    ensures |s| == n
    ensures forall i :: 0 <= i < n ==> s[i] == info.disk(off + i)
  {
    seq(n, i requires 0 <= i < n => info.disk(off + i))
  }

  /** What a read of `size` bytes at `offset` may return: the bytes there, cut at the end. */
  ghost function Clip<T>(s: seq<T>, offset: nat, size: nat): seq<T> {
    if offset >= |s| then [] else if offset + size <= |s| then s[offset..offset + size] else s[offset..]
  }

  ghost predicate InData(info: Info, sectors: seq<int>) {
    forall i :: 0 <= i < |sectors| ==> info.dataoff <= sectors[i] < info.totalSectors
  }

  lemma Times(a: nat, b: nat, c: nat)
    ensures (a + b) * c == a * c + b * c
    ensures a <= b ==> a * c <= b * c
    ensures a < b && 0 < c ==> a * c < b * c
  {
  }

  lemma FirstIs(info: Info, cluster: nat)
    requires RSVD_ENTRIES <= cluster
    ensures FirstSector(info, cluster) == info.dataoff + Off(info, cluster - 2)
  {
  }

  lemma ClusterInData(info: Info, cluster: nat)
    requires info.Geometry() && RSVD_ENTRIES <= cluster < info.Legal()
    ensures info.dataoff <= FirstSector(info, cluster)
    ensures FirstSector(info, cluster) + info.secPerClus <= info.totalSectors
  {
    DataRegion(info);
    hide Off;
    FirstIs(info, cluster);
    OffSum(info, cluster - 2, 1);
    OffSum(info, cluster - 1, info.DataClusters());
  }

  lemma DataRegion(info: Info)
    requires info.Geometry() && info.DataClusters() > 0
    ensures info.dataoff + Off(info, info.DataClusters()) <= info.totalSectors
  {
    var n := info.totalSectors - info.dataoff;
    assert n / info.secPerClus * info.secPerClus <= n;
  }

  lemma VolumeFits(info: Info)
    requires info.Geometry()
    ensures Off(info, info.Clusters()) <= info.totalSectors
  {
  }

  lemma {:induction false} SectorsSize(info: Info, chain: seq<nat>)
    requires info.Geometry() && forall i :: 0 <= i < |chain| ==> RSVD_ENTRIES <= chain[i] < info.Legal()
    ensures |Sectors(info, chain)| == Off(info, |chain|)
    ensures InData(info, Sectors(info, chain))
  {
    hide Off, FirstSector;
    OffSum(info, 0, 1);
    if chain != [] {
      var n := |chain| - 1;
      SectorsSize(info, chain[..n]);
      ClusterInData(info, chain[n]);
      OffSum(info, n, 1);
    }
  }

  lemma {:induction false} SectorsPrefix(info: Info, chain: seq<nat>, k: nat)
    requires info.Geometry() && k <= |chain|
    requires forall i :: 0 <= i < |chain| ==> RSVD_ENTRIES <= chain[i] < info.Legal()
    ensures Off(info, k) <= |Sectors(info, chain)| == Off(info, |chain|)
    ensures Sectors(info, chain)[..Off(info, k)] == Sectors(info, chain[..k])
  {
    hide Off, FirstSector;
    SectorsSize(info, chain);
    OffSum(info, k, |chain|);
    SectorsSize(info, chain[..k]);
    if k == |chain| {
      assert chain[..k] == chain;
    } else {
      var n := |chain| - 1;
      assert chain[..n][..k] == chain[..k];
      SectorsPrefix(info, chain[..n], k);
    }
  }

  /** Cluster k of a chain holds the sectors k * secPerClus up to (k + 1) * secPerClus of the file. */
  lemma ClusterSectors(info: Info, chain: seq<nat>, k: nat)
    requires info.Geometry() && k < |chain|
    requires forall i :: 0 <= i < |chain| ==> RSVD_ENTRIES <= chain[i] < info.Legal()
    ensures Off(info, k) + info.secPerClus == Off(info, k + 1) <= |Sectors(info, chain)|
    ensures Sectors(info, chain)[Off(info, k)..Off(info, k + 1)] == Run(FirstSector(info, chain[k]), info.secPerClus)
  {
    hide Off, FirstSector;
    OffSum(info, k, 1);
    SectorsPrefix(info, chain, k);
    SectorsPrefix(info, chain, k + 1);
    assert chain[..k + 1][..k] == chain[..k];
    var all, a, b := Sectors(info, chain), Sectors(info, chain[..k]), Sectors(info, chain[..k + 1]);
    SectorsSize(info, chain[..k]);
    assert b == a + Run(FirstSector(info, chain[k]), info.secPerClus);
    assert all[..Off(info, k + 1)][Off(info, k)..] == b[|a|..];
  }

  lemma {:induction false} BytesSize(info: Info, sectors: seq<int>)
    requires info.bytesPerSec > 0 && forall i :: 0 <= i < |sectors| ==> sectors[i] >= 0
    ensures |Bytes(info, sectors)| == |sectors| * info.bytesPerSec
  {
    if sectors != [] {
      BytesSize(info, sectors[..|sectors| - 1]);
      Times(|sectors| - 1, 1, info.bytesPerSec);
    }
  }

  lemma {:induction false} BytesConcat(info: Info, a: seq<int>, b: seq<int>)
    requires info.bytesPerSec > 0
    requires forall i :: 0 <= i < |a| ==> a[i] >= 0
    requires forall i :: 0 <= i < |b| ==> b[i] >= 0
    ensures Bytes(info, a + b) == Bytes(info, a) + Bytes(info, b)
  {
    if b == [] {
      assert a + b == a;
    } else {
      var n := |b| - 1;
      assert (a + b)[..|a| + n] == a + b[..n];
      BytesConcat(info, a, b[..n]);
    }
  }

  /** A run of sectors is one stretch of the disk. */
  lemma {:induction false} RunBytes(info: Info, start: nat, n: nat)
    requires info.bytesPerSec > 0
    ensures Bytes(info, Run(start, n)) == DiskBytes(info, start * info.bytesPerSec, n * info.bytesPerSec)
  {
    if n > 0 {
      RunBytes(info, start, n - 1);
      assert Run(start, n)[..n - 1] == Run(start, n - 1);
      Times(n - 1, 1, info.bytesPerSec);
      Times(start, n - 1, info.bytesPerSec);
    }
  }

  // ---------------------------------------------------------------------------------------
  // What a chain is like

  /** A table has at most one chain from a cluster. */
  lemma {:induction false} ChainUnique(info: Info, start: nat, a: seq<nat>, b: seq<nat>)
    requires info.Legal() <= FAT_EOF && IsChain(info, start, a) && IsChain(info, start, b)
    ensures a == b
  {
    hide Next;
    ChainPrefix(info, start, a, b, |a|);
    ChainPrefix(info, start, b, a, |b|);
  }

  lemma {:induction false} ChainPrefix(info: Info, start: nat, a: seq<nat>, b: seq<nat>, n: nat)
    requires info.Legal() <= FAT_EOF && IsChain(info, start, a) && IsChain(info, start, b) && n <= |a|
    ensures n <= |b| && a[..n] == b[..n]
  {
    hide Next;
    if n > 1 {
      ChainPrefix(info, start, a, b, n - 1);
      assert a[n - 2] == a[..n - 1][n - 2] == b[..n - 1][n - 2] == b[n - 2];
      assert Following(a, n - 1) == Following(b, n - 1);
    }
  }

  /** No cluster is in a chain twice, so a chain has no more clusters than the volume. */
  lemma {:induction false} ChainDistinct(info: Info, chain: seq<nat>, i: nat, j: nat)
    requires info.Legal() <= FAT_EOF && 0 < |chain| && IsChain(info, chain[0], chain)
    requires i < j < |chain|
    ensures chain[i] != chain[j]
    decreases |chain| - j
  {
    hide Next;
    if chain[i] == chain[j] {
      assert Following(chain, i + 1) == Following(chain, j + 1);
      if j + 1 < |chain| {
        ChainDistinct(info, chain, i + 1, j + 1);
      }
    }
  }

  lemma {:induction false} BetweenCount(s: set<nat>, lo: nat, hi: nat)
    requires lo <= hi && forall x :: x in s ==> lo <= x < hi
    ensures |s| <= hi - lo
    decreases hi
  {
    if lo == hi {
      assert s == {};
    } else {
      BetweenCount(s - {hi - 1}, lo, hi - 1);
    }
  }

  ghost function Members(s: seq<nat>): set<nat> {
    set i | 0 <= i < |s| :: s[i]
  }

  lemma {:induction false} MembersCount(s: seq<nat>)
    requires forall i, j :: 0 <= i < j < |s| ==> s[i] != s[j]
    ensures |Members(s)| == |s|
  {
    if s != [] {
      var n := |s| - 1;
      MembersCount(s[..n]);
      assert Members(s) == Members(s[..n]) + {s[n]};
      assert s[n] !in Members(s[..n]);
    }
  }

  lemma ChainBound(info: Info, chain: seq<nat>)
    requires info.Geometry() && info.Legal() <= FAT_EOF && 0 < |chain| && IsChain(info, chain[0], chain)
    ensures |chain| <= info.DataClusters()
    ensures Off(info, |chain|) < U32_SIZE
  {
    hide Next, Off;
    forall i, j | 0 <= i < j < |chain| ensures chain[i] != chain[j] {
      ChainDistinct(info, chain, i, j);
    }
    MembersCount(chain);
    BetweenCount(Members(chain), RSVD_ENTRIES, info.Legal());
    DataRegion(info);
    OffSum(info, |chain|, info.DataClusters());
  }

  // ---------------------------------------------------------------------------------------
  // The area cache

  datatype Area = Area(start: nat, size: nat)

  /** The sectors a list of areas covers. */
  ghost function Flatten(areas: seq<Area>): seq<int> {
    if areas == [] then []
    else Flatten(areas[..|areas| - 1]) + Run(areas[|areas| - 1].start, areas[|areas| - 1].size)
  }

  /**
   * `areas[..i]` hold the sectors of the file from `from` to the end of its first `e` clusters;
   * `skip` are yet to come.
   */
  ghost predicate Kept(info: Info, chain: seq<nat>, areas: seq<Area>, i: nat, from: nat, len: nat, skip: nat, e: nat)
    requires info.Geometry()
  {
    i <= |areas| == FAT_CHAIN_AREAS && e <= |chain| &&
    Off(info, e) <= |Sectors(info, chain)| &&
    (forall m :: 0 <= m < i ==> 0 < areas[m].start) &&
    (i == 0 ==> len == 0 && Off(info, e) + skip == from) &&
    (i > 0 ==> skip == 0 && len > 0 && from + len == Off(info, e) &&
               Flatten(areas[..i]) == Sectors(info, chain)[from..from + len])
  }

  /** Area i is the run of the clusters j to k, inclusive. */
  ghost predicate Gathering(info: Info, chain: seq<nat>, areas: seq<Area>, i: nat, j: nat, k: nat)
    requires info.Geometry()
  {
    i < |areas| && j <= k < |chain| &&
    Off(info, k + 1) <= |Sectors(info, chain)| &&
    areas[i].size == Off(info, k + 1) - Off(info, j) > 0 &&
    0 < areas[i].start && areas[i].start + areas[i].size == FirstSector(info, chain[k]) + info.secPerClus &&
    Run(areas[i].start, areas[i].size) == Sectors(info, chain)[Off(info, j)..Off(info, k + 1)]
  }

  /** What the cache is between reads: empty, past the end, or eight areas of the chain (fewer at its end). */
  ghost predicate CacheOk(info: Info, chain: seq<nat>, chainStart: nat, next: nat, off: nat, len: nat,
                          areas: seq<Area>, n: nat, e: nat)
    requires info.Geometry()
  {
    |areas| == FAT_CHAIN_AREAS && IsChain(info, Start(info, chainStart), chain) &&
    |Sectors(info, chain)| == Off(info, |chain|) < U32_SIZE && InData(info, Sectors(info, chain)) &&
    (|| (len == 0 && off == 0 && next == chainStart)
     || (Parsed(info, chain, next, off, len, areas, n, e) && Takes(info, chain, 0, e)))
  }

  ghost predicate Parsed(info: Info, chain: seq<nat>, next: nat, off: nat, len: nat, areas: seq<Area>, n: nat, e: nat)
    requires info.Geometry()
  {
    n <= FAT_CHAIN_AREAS == |areas| && e <= |chain| && next == Following(chain, e) && off < U32_SIZE &&
    (n < FAT_CHAIN_AREAS ==> e == |chain| && areas[n].start == 0) &&
    (n == 0 ==> Off(info, e) <= off) &&
    Kept(info, chain, areas, n, off, len, if n == 0 then off - Off(info, e) else 0, e)
  }

  ghost predicate Proper(info: Info, chain: seq<nat>) {
    info.Fits() && 0 < |chain| && IsChain(info, chain[0], chain)
  }

  lemma GatherFirst(info: Info, chain: seq<nat>, areas: seq<Area>, i: nat, k: nat)
    requires Proper(info, chain) && k < |chain| && i < |areas|
    requires areas[i].start == FirstSector(info, chain[k]) && areas[i].size == info.secPerClus
    ensures Gathering(info, chain, areas, i, k, k)
  {
    hide Next, Off, Sectors;
    ClusterSectors(info, chain, k);
    ClusterInData(info, chain[k]);
  }

  lemma GatherMore(info: Info, chain: seq<nat>, areas: seq<Area>, i: nat, j: nat, k: nat, more: seq<Area>)
    requires Proper(info, chain) && Gathering(info, chain, areas, i, j, k)
    requires k + 1 < |chain| && chain[k + 1] == chain[k] + 1
    requires i < |more| && more[i] == Area(areas[i].start, areas[i].size + info.secPerClus)
    ensures Gathering(info, chain, more, i, j, k + 1)
  {
    hide Next, Off, Sectors;
    ClusterSectors(info, chain, k + 1);
    var all, a, b, c := Sectors(info, chain), Off(info, j), Off(info, k + 1), Off(info, k + 2);
    assert a <= b <= c;
    assert FirstSector(info, chain[k + 1]) == FirstSector(info, chain[k]) + info.secPerClus by {
      FirstIs(info, chain[k]);
      FirstIs(info, chain[k] + 1);
      OffSum(info, chain[k] - 2, 1);
    }
    assert all[a..c] == all[a..b] + all[b..c];
    assert Run(more[i].start, more[i].size)
           == Run(areas[i].start, areas[i].size) + Run(FirstSector(info, chain[k + 1]), info.secPerClus);
  }

  lemma KeptFrame(info: Info, chain: seq<nat>, areas: seq<Area>, other: seq<Area>, i: nat, from: nat, len: nat,
                  skip: nat, e: nat)
    requires info.Geometry() && Kept(info, chain, areas, i, from, len, skip, e)
    requires |other| == |areas| && other[..i] == areas[..i]
    ensures Kept(info, chain, other, i, from, len, skip, e)
  {
    hide Off, Sectors;
    forall m | 0 <= m < i ensures 0 < other[m].start {
      assert other[m] == other[..i][m] == areas[..i][m];
    }
  }

  lemma CloseWhole(info: Info, chain: seq<nat>, areas: seq<Area>, i: nat, from: nat, len: nat, j: nat, k: nat)
    requires Proper(info, chain) && Kept(info, chain, areas, i, from, len, 0, j) &&
             Gathering(info, chain, areas, i, j, k)
    ensures Kept(info, chain, areas, i + 1, from, len + areas[i].size, 0, k + 1)
  {
    hide Next, Off, Sectors;
    var all, b, c := Sectors(info, chain), Off(info, j), Off(info, k + 1);
    assert areas[..i + 1][..i] == areas[..i];
    assert Flatten(areas[..i]) == all[from..b];
    assert all[from..c] == all[from..b] + all[b..c];
  }

  lemma CloseSkip(info: Info, chain: seq<nat>, areas: seq<Area>, from: nat, skip: nat, j: nat, k: nat, cut: seq<Area>)
    requires Proper(info, chain) && Kept(info, chain, areas, 0, from, 0, skip, j) &&
             Gathering(info, chain, areas, 0, j, k)
    requires 0 < skip
    requires |cut| == |areas| && (skip < areas[0].size ==> cut[0] == Area(areas[0].start + skip, areas[0].size - skip))
    ensures skip < areas[0].size ==> Kept(info, chain, cut, 1, from, cut[0].size, 0, k + 1)
    ensures skip >= areas[0].size ==> Kept(info, chain, areas, 0, from, 0, skip - areas[0].size, k + 1)
  {
    hide Next, Off, Sectors;
    if skip < areas[0].size {
      var all, b, c := Sectors(info, chain), Off(info, j), Off(info, k + 1);
      assert Run(areas[0].start, areas[0].size)[skip..] == all[b..c][skip..] == all[from..c];
      assert Run(cut[0].start, cut[0].size) == Run(areas[0].start, areas[0].size)[skip..];
      assert cut[..1][..0] == [];
      assert Flatten(cut[..1]) == Run(cut[0].start, cut[0].size);
    }
  }

  lemma RunSize(info: Info, first: nat, next: nat)
    requires info.Geometry() && first <= next < info.Clusters()
    ensures 0 < Off(info, next - first + 1) < U32_SIZE
  {
    VolumeFits(info);
    hide Off;
    OffSum(info, 0, next - first + 1);
    OffSum(info, next - first + 1, info.Clusters());
  }

  /** The cache stands before cluster k of the chain and is asked to go on `skip` sectors further. */
  ghost predicate Before(info: Info, chain: seq<nat>, next: nat, end: nat, skip: nat, k: nat) {
    Proper(info, chain) && k < |chain| && Start(info, next) == chain[k] && end == Off(info, k) && end + skip < U32_SIZE
  }

  lemma FirstFits(info: Info, cluster: nat)
    requires info.Fits() && RSVD_ENTRIES <= cluster < info.Legal()
    ensures 0 < FirstSector(info, cluster) < U32_SIZE
  {
    ClusterInData(info, cluster);
  }

  lemma GrowFits(info: Info, chain: seq<nat>, areas: seq<Area>, i: nat, j: nat, k: nat)
    requires Proper(info, chain) && Gathering(info, chain, areas, i, j, k) && k + 1 < |chain|
    ensures areas[i].size + info.secPerClus < U32_SIZE
  {
    hide Next, Off, Sectors, Run, FirstSector;
    ChainBound(info, chain);
    hide IsChain;
    OffSum(info, k + 2, |chain|);
    OffSum(info, k + 1, 1);
  }

  lemma CloseFits(info: Info, chain: seq<nat>, areas: seq<Area>, i: nat, from: nat, len: nat, skip: nat, j: nat, k: nat)
    requires Proper(info, chain) && Kept(info, chain, areas, i, from, len, skip, j) &&
             Gathering(info, chain, areas, i, j, k)
    ensures len + areas[i].size < U32_SIZE && areas[i].start + areas[i].size <= U32_SIZE
    ensures i > 0 ==> skip == 0
    ensures i == 0 ==> len == 0
  {
    hide Next, Off, Sectors, FirstSector;
    ChainBound(info, chain);
    SectorsSize(info, chain);
    hide InData;
    ClusterInData(info, chain[k]);
  }

  lemma Finished(info: Info, chain: seq<nat>, kept: seq<Area>, areas: seq<Area>, n: nat, off: nat, len: nat,
                 skip: nat, e: nat)
    requires Proper(info, chain) && Kept(info, chain, kept, n, off, len, skip, e) && off < U32_SIZE
    requires |areas| == |kept| && areas[..n] == kept[..n]
    requires n < FAT_CHAIN_AREAS ==> Following(chain, e) == FAT_EOF && areas[n].start == 0
    ensures Parsed(info, chain, Following(chain, e), off, len, areas, n, e)
  {
    hide Next, Off, Sectors;
    KeptFrame(info, chain, kept, areas, n, off, len, skip, e);
  }

  lemma NextInChain(info: Info, chain: seq<nat>, k: nat)
    requires Proper(info, chain) && k < |chain|
    ensures Next(info, chain[k]) == Following(chain, k + 1)
    ensures k + 1 == |chain| ==> Next(info, chain[k]) > chain[k] + 1
  {
    hide Next;
  }

  lemma NothingKept(info: Info, chain: seq<nat>, areas: seq<Area>, from: nat, skip: nat, e: nat)
    requires Proper(info, chain) && |areas| == FAT_CHAIN_AREAS && e <= |chain| && from == Off(info, e) + skip
    ensures Kept(info, chain, areas, 0, from, 0, skip, e)
  {
    hide Next, Off, Sectors;
    SectorsPrefix(info, chain, e);
  }

  class FatchainCache {
    var chainStart: nat
    var nextAfterAreas: nat
    var areasOffset: nat
    var areasLength: nat
    const areas: array<Area>
    /** How many areas are in use and how many clusters of the chain were followed. */
    ghost var filled: nat
    ghost var taken: nat

    ghost predicate Valid(info: Info, chain: seq<nat>)
      requires info.Geometry()
      reads this, areas
    {
      CacheOk(info, chain, chainStart, nextAfterAreas, areasOffset, areasLength, areas[..], filled, taken)
    }

    constructor (cluster: nat)
      ensures areas.Length == FAT_CHAIN_AREAS && fresh(areas)
      ensures forall info: Info, chain :: Proper(info, chain) && chain[0] == Start(info, cluster) ==> Valid(info, chain)
    {
      chainStart, nextAfterAreas, areasOffset, areasLength := cluster, cluster, 0, 0;
      areas := new Area[FAT_CHAIN_AREAS];
      filled, taken := 0, 0;
      new;
      forall info: Info, chain | Proper(info, chain) && chain[0] == Start(info, cluster) ensures Valid(info, chain) {
        hide Next, Off, Sectors;
        SectorsSize(info, chain);
        ChainBound(info, chain);
      }
    }

    method SetNext(info: Info, i: nat)
      requires info.Geometry() && i < FAT_CHAIN_AREAS == areas.Length
      modifies areas
      ensures areas[i] == Area(U32(FirstSector(info, nextAfterAreas)), info.secPerClus)
      ensures areas[..i] == old(areas[..i])
    {
      areas[i] := Area(U32(FirstSector(info, nextAfterAreas)), info.secPerClus);
      if i < FAT_CHAIN_AREAS - 1 {
        areas[i + 1] := areas[i + 1].(start := 0);
      }
    }

    method CloseArea(info: Info, i: nat, skip: nat, next: nat, ghost chain: seq<nat>, ghost good: bool, ghost j: nat,
                     ghost k: nat) returns (m: nat, rest: nat)
      requires info.Geometry() && i < FAT_CHAIN_AREAS == areas.Length && 0 < areas[i].size
      requires good ==> Proper(info, chain) && Collecting(info, chain, i, skip, j, k)
      modifies this`nextAfterAreas, this`areasLength, areas
      ensures nextAfterAreas == next
      ensures (m == i + 1 && rest <= skip) || (m == i && rest < skip)
      ensures good ==> Kept(info, chain, areas[..], m, areasOffset, areasLength, rest, k + 1)
    {
      hide Next, Off, Sectors, Kept, Gathering, Proper;
      ghost var was := areas[..];
      m, rest := i, skip;
      if good {
        CloseFits(info, chain, areas[..], i, areasOffset, areasLength, skip, j, k);
      }
      nextAfterAreas := next;
      if skip > 0 {
        if skip < areas[i].size {
          areas[i] := Area(U32(areas[i].start + skip), areas[i].size - skip);
          rest := 0;
          areasLength := U32(areasLength + areas[i].size);
          m := i + 1;
          if good {
            CloseSkip(info, chain, was, areasOffset, skip, j, k, areas[..]);
          }
        } else {
          rest := skip - areas[i].size;
          if good {
            CloseSkip(info, chain, was, areasOffset, skip, j, k, areas[..]);
          }
        }
      } else {
        if good {
          CloseWhole(info, chain, was, i, areasOffset, areasLength, j, k);
        }
        areasLength := U32(areasLength + areas[i].size);
        m := i + 1;
      }
    }

    ghost predicate Collecting(info: Info, chain: seq<nat>, i: nat, skip: nat, j: nat, k: nat)
      requires info.Geometry()
      reads this, areas
    {
      Kept(info, chain, areas[..], i, areasOffset, areasLength, skip, j) &&
      Gathering(info, chain, areas[..], i, j, k) && nextAfterAreas == chain[k]
    }

    method StartArea(info: Info, i: nat, ghost chain: seq<nat>, ghost good: bool, ghost skip: nat, ghost k: nat)
      requires info.Geometry() && i < FAT_CHAIN_AREAS == areas.Length
      requires good ==> Proper(info, chain) && k < |chain| && nextAfterAreas == chain[k]
      requires good ==> Kept(info, chain, areas[..], i, areasOffset, areasLength, skip, k)
      modifies areas
      ensures areas[i].size == info.secPerClus
      ensures good ==> Collecting(info, chain, i, skip, k, k)
    {
      hide Next, Off, Sectors;
      ghost var was := areas[..];
      SetNext(info, i);
      if good {
        FirstFits(info, chain[k]);
        KeptFrame(info, chain, was, areas[..], i, areasOffset, areasLength, skip, k);
        GatherFirst(info, chain, areas[..], i, k);
      }
    }

    /**
     * Refills the areas from the chain, leaving out the next `skip` sectors.  It ends on every table:
     * a step either closes an area, or uses up some of `skip`, or moves to the next higher cluster.
     */
    method ParseNext(info: Info, skip: nat, ghost chain: seq<nat>, ghost at: nat) returns (r: int)
      requires info.Geometry() && areas.Length == FAT_CHAIN_AREAS && skip < U32_SIZE
      modifies this`nextAfterAreas, this`areasOffset, this`areasLength, this`filled, this`taken, areas
      ensures r == EOK || r == -EINVAL
      ensures Before(info, chain, old(nextAfterAreas), old(areasOffset + areasLength), skip, at) ==>
                if r != EOK then !Accepted(info, chain)
                else areasOffset == old(areasOffset + areasLength) + skip && at < taken &&
                     Parsed(info, chain, nextAfterAreas, areasOffset, areasLength, areas[..], filled, taken) &&
                     Takes(info, chain, at, taken)
    {
      hide Next, Off, Sectors, Takes, Accepted;
      ghost var good := Before(info, chain, nextAfterAreas, areasOffset + areasLength, skip, at);
      areas[0] := areas[0].(start := 0);
      if good {
        assert Start(info, nextAfterAreas) == chain[at];
      }
      if nextAfterAreas >= info.Clusters() {
        if good {
          Refused(info, chain, at);
        }
        return -EINVAL;
      }
      if nextAfterAreas == ROOT_DIR_CLUSTER {
        if info.fatType == FAT32 {
          nextAfterAreas := info.rootClus;
        } else {
          nextAfterAreas := FAT_EOF;
          var rootDirSize := info.dataoff - info.rootoff;
          if skip >= rootDirSize {
            areasOffset, areasLength := 0, 0;
          } else {
            areas[0] := Area(U32(info.rootoff + skip), rootDirSize - skip);
            areas[1] := areas[1].(start := 0);
            areasOffset, areasLength := skip, rootDirSize - skip;
          }
          return EOK;
        }
      }
      areasOffset := U32(areasOffset + areasLength + skip);
      areasLength := 0;
      r := Collect(info, skip, chain, good, at);
    }

    method GrowArea(info: Info, i: nat, ghost chain: seq<nat>, ghost good: bool, ghost skip: nat, ghost j: nat,
                    ghost k: nat, ghost first: nat)
      requires info.Geometry() && i < FAT_CHAIN_AREAS == areas.Length
      requires first <= nextAfterAreas < info.Clusters() && areas[i].size == U32(Off(info, nextAfterAreas - first + 1))
      requires good ==> Proper(info, chain)
      requires good ==> k + 1 < |chain| && chain[k + 1] == nextAfterAreas + 1 && Collecting(info, chain, i, skip, j, k)
      modifies this`nextAfterAreas, areas
      ensures nextAfterAreas == old(nextAfterAreas) + 1
      ensures areas[i].size == U32(Off(info, nextAfterAreas - first + 1))
      ensures good ==> Collecting(info, chain, i, skip, j, k + 1) && nextAfterAreas == chain[k + 1]
    {
      hide Next, Off, Sectors, Kept, Gathering, U32, IsChain;
      ghost var was := areas[..];
      if good {
        GrowFits(info, chain, areas[..], i, j, k);
        InU32(areas[i].size + info.secPerClus);
      }
      RunSize(info, first, nextAfterAreas);
      InU32(Off(info, nextAfterAreas - first + 1));
      OffSum(info, nextAfterAreas + 1 - first, 1);
      nextAfterAreas := nextAfterAreas + 1;
      areas[i] := areas[i].(size := U32(areas[i].size + info.secPerClus));
      if good {
        KeptFrame(info, chain, was, areas[..], i, areasOffset, areasLength, skip, j);
        GatherMore(info, chain, was, i, j, k, areas[..]);
      }
    }

    /** The chain goes elsewhere: close the area and stop, or start the next one. */
    method EndArea(info: Info, i: nat, skip: nat, next: nat, ghost chain: seq<nat>, ghost good: bool, ghost j: nat,
                   ghost k: nat)
      returns (m: nat, rest: nat, r: int, done: bool)
      requires info.Geometry() && i < FAT_CHAIN_AREAS == areas.Length && 0 < areas[i].size && areasOffset < U32_SIZE
      requires good ==> Proper(info, chain) && Collecting(info, chain, i, skip, j, k) && next == Following(chain, k + 1)
      modifies this`nextAfterAreas, this`areasLength, this`filled, this`taken, areas
      ensures nextAfterAreas == next && (r == EOK || r == -EINVAL)
      ensures !done ==>
              m < FAT_CHAIN_AREAS && ((m == i + 1 && rest <= skip) || (m == i && rest < skip)) &&
              areas[m].size == info.secPerClus
      ensures good && done ==>
              r == EOK && taken == k + 1 &&
              Parsed(info, chain, nextAfterAreas, areasOffset, areasLength, areas[..], filled, taken)
      ensures good && !done ==> k + 1 < |chain| && Collecting(info, chain, m, rest, k + 1, k + 1)
    {
      hide Next, Off, Sectors, Gathering, Kept, FirstSector, Parsed;
      m, rest := CloseArea(info, i, skip, next, chain, good, j, k);
      r, done := EOK, true;
      ghost var kept := areas[..];
      if m == FAT_CHAIN_AREAS || next == FAT_EOF {
        if m < FAT_CHAIN_AREAS {
          areas[m] := areas[m].(start := 0);
        }
        filled, taken := m, k + 1;
        if good {
          Finished(info, chain, kept, areas[..], m, areasOffset, areasLength, rest, k + 1);
        }
      } else if next < RSVD_ENTRIES {
        r := -EINVAL;
      } else {
        StartArea(info, m, chain, good, rest, k + 1);
        done := false;
      }
    }

    method Collect(info: Info, skip: nat, ghost chain: seq<nat>, ghost good: bool, ghost at: nat) returns (r: int)
      requires info.Geometry() && areas.Length == FAT_CHAIN_AREAS && areasLength == 0 && areasOffset < U32_SIZE
      requires good ==>
               Proper(info, chain) && at < |chain| && nextAfterAreas == chain[at] &&
               areasOffset == Off(info, at) + skip
      modifies this`nextAfterAreas, this`areasLength, this`filled, this`taken, areas
      ensures r == EOK || r == -EINVAL
      ensures good ==>
              if r != EOK then !Accepted(info, chain)
              else at < taken && Takes(info, chain, at, taken) &&
                   Parsed(info, chain, nextAfterAreas, areasOffset, areasLength, areas[..], filled, taken)
    {
      hide Next, Off, Sectors, Gathering, Kept, FirstSector, Parsed, Collecting, Takes, Accepted, U32,
           IsChain;
      TakesNone(info, chain, at);
      if good {
        NothingKept(info, chain, areas[..], areasOffset, skip, at);
      }
      StartArea(info, 0, chain, good, skip, at);
      var i: nat, rest: nat := 0, skip;
      ghost var first: nat, j: nat, k: nat := nextAfterAreas, at, at;
      OffSum(info, 0, 1);
      InU32(info.secPerClus);
      while true
        invariant i < FAT_CHAIN_AREAS && first <= nextAfterAreas
        invariant areas[i].size == U32(Off(info, nextAfterAreas - first + 1))
        invariant good ==> k < |chain| && nextAfterAreas == chain[k] && Collecting(info, chain, i, rest, j, k)
        invariant good ==> at <= k && Takes(info, chain, at, k)
        decreases FAT_CHAIN_AREAS - i, rest, info.Clusters() - nextAfterAreas
      {
        var ok, next := GetOne(info, nextAfterAreas);
        if ok < 0 {
          if good {
            Refused(info, chain, k);
          }
          return -EINVAL;
        }
        if good {
          TakesOne(info, chain, at, k);
        }
        RunSize(info, first, nextAfterAreas);
        InU32(Off(info, nextAfterAreas - first + 1));
        var mergeIntoCurrent := next == nextAfterAreas + 1;
        if good {
          NextInChain(info, chain, k);
        }
        if mergeIntoCurrent {
          GrowArea(info, i, chain, good, rest, j, k, first);
          k := k + 1;
        } else {
          var done: bool;
          i, rest, r, done := EndArea(info, i, rest, next, chain, good, j, k);
          if done {
            return;
          }
          j, k, first := k + 1, k + 1, next;
        }
      }
    }
  }

  // ---------------------------------------------------------------------------------------
  // Reading a file

  ghost function FileBytes(info: Info, chain: seq<nat>): seq<Byte>
    requires info.Geometry() && InData(info, Sectors(info, chain))
  {
    Bytes(info, Sectors(info, chain))
  }

  lemma {:induction false} FlattenPrefix(areas: seq<Area>, i: nat)
    requires i < |areas|
    ensures |Flatten(areas[..i])| + areas[i].size <= |Flatten(areas)|
    ensures |Flatten(areas[..i + 1])| == |Flatten(areas[..i])| + areas[i].size
    ensures Flatten(areas)[|Flatten(areas[..i])|..|Flatten(areas[..i])| + areas[i].size]
            == Run(areas[i].start, areas[i].size)
  {
    var n := |areas| - 1;
    assert areas[..i + 1][..i] == areas[..i];
    if i == n {
      assert areas[..i + 1] == areas;
    } else {
      FlattenPrefix(areas[..n], i);
      assert areas[..n][..i] == areas[..i] && areas[..n][..i + 1] == areas[..i + 1];
    }
  }

  /** How far into the cached areas a read has come before area i. */
  ghost function Passed(areas: seq<Area>, i: nat): nat
    requires i <= |areas|
  {
    |Flatten(areas[..i])|
  }

  /** Area i of a filled cache is a stretch of the file. */
  lemma AreaPlace(info: Info, chain: seq<nat>, next: nat, off: nat, len: nat, areas: seq<Area>, n: nat, e: nat, i: nat)
    requires info.Geometry() && Parsed(info, chain, next, off, len, areas, n, e)
    requires i <= n && i < FAT_CHAIN_AREAS && areas[i].start > 0
    ensures i < n && Passed(areas, i) + areas[i].size == Passed(areas, i + 1) <= len
    ensures off + Passed(areas, i + 1) <= |Sectors(info, chain)|
    ensures Sectors(info, chain)[off + Passed(areas, i)..off + Passed(areas, i + 1)]
            == Run(areas[i].start, areas[i].size)
  {
    hide Off, Sectors, Kept, Flatten, Run, Passed;
    KeptPlace(info, chain, areas, n, off, len, e, i);
  }

  lemma KeptPlace(info: Info, chain: seq<nat>, areas: seq<Area>, n: nat, off: nat, len: nat, e: nat, i: nat)
    requires info.Geometry() && Kept(info, chain, areas, n, off, len, 0, e) && i < n
    ensures Passed(areas, i) + areas[i].size == Passed(areas, i + 1) <= len
    ensures off + Passed(areas, i + 1) <= |Sectors(info, chain)|
    ensures Sectors(info, chain)[off + Passed(areas, i)..off + Passed(areas, i + 1)]
            == Run(areas[i].start, areas[i].size)
  {
    hide Off, Sectors;
    var all, p, q := Sectors(info, chain), Passed(areas, i), Passed(areas, i) + areas[i].size;
    FlattenPrefix(areas[..n], i);
    assert areas[..n][..i] == areas[..i] && areas[..n][..i + 1] == areas[..i + 1];
    Nested(all, off, off + len, p, q);
  }

  lemma Nested<T>(s: seq<T>, lo: nat, hi: nat, p: nat, q: nat)
    requires lo <= hi <= |s| && p <= q <= hi - lo
    ensures s[lo..hi][p..q] == s[lo + p..lo + q]
  {
    var part, whole := s[lo..hi][p..q], s[lo + p..lo + q];
    assert |part| == |whole|;
    forall i | 0 <= i < |part| ensures part[i] == whole[i] {
      assert part[i] == s[lo..hi][p + i] == s[lo + p + i];
    }
  }

  /** Nothing from place t on has changed. */
  ghost predicate Untouched(s: seq<Byte>, was: seq<Byte>, t: nat) {
    |s| == |was| && forall i :: t <= i < |s| ==> s[i] == was[i]
  }

  lemma NonePassed(areas: seq<Area>)
    ensures Passed(areas, 0) == 0
  {
  }

  lemma AllPassed(info: Info, chain: seq<nat>, next: nat, off: nat, len: nat, areas: seq<Area>, n: nat, e: nat)
    requires info.Geometry() && Parsed(info, chain, next, off, len, areas, n, e) && n > 0
    ensures n <= FAT_CHAIN_AREAS && Passed(areas, n) == len
  {
    hide Off, Sectors;
  }

  /** The n bytes of `s` from `pos` on are the n bytes of the disk from `off` on. */
  ghost predicate OnDisk(info: Info, s: seq<Byte>, pos: nat, off: nat, n: nat) {
    pos + n <= |s| && s[pos..pos + n] == DiskBytes(info, off, n)
  }

  /** The byte a sector begins at. */
  function At(info: Info, sector: nat): nat {
    sector * info.bytesPerSec
  }

  lemma AtAdd(info: Info, a: nat, b: nat)
    ensures At(info, a + b) == At(info, a) + At(info, b)
  {
    Times(a, b, info.bytesPerSec);
  }

  /** Sectors lo to hi of a file, when they are one run on disk, are one stretch of its contents. */
  lemma RunOnDisk(info: Info, sectors: seq<int>, lo: nat, hi: nat, start: nat)
    requires info.bytesPerSec > 0 && forall i :: 0 <= i < |sectors| ==> sectors[i] >= 0
    requires lo <= hi <= |sectors| && sectors[lo..hi] == Run(start, hi - lo)
    ensures OnDisk(info, Bytes(info, sectors), At(info, lo), At(info, start), At(info, hi - lo))
  {
    var a, b, c := sectors[..lo], sectors[lo..hi], sectors[hi..];
    assert sectors == (a + b) + c;
    BytesConcat(info, a + b, c);
    BytesConcat(info, a, b);
    RunBytes(info, start, hi - lo);
    BytesSize(info, a);
    BytesSize(info, b);
  }

  lemma Inside(info: Info, s: seq<Byte>, pos: nat, off: nat, len: nat, k: nat, n: nat)
    requires OnDisk(info, s, pos, off, len) && k + n <= len
    ensures OnDisk(info, s, pos + k, off + k, n)
  {
    var part, whole := s[pos + k..pos + k + n], s[pos..pos + len];
    forall i | 0 <= i < n ensures part[i] == DiskBytes(info, off + k, n)[i] {
      assert part[i] == whole[k + i];
    }
  }

  lemma RunTail(all: seq<int>, lo: nat, start: nat, size: nat, k: nat)
    requires lo + size <= |all| && all[lo..lo + size] == Run(start, size) && k <= size
    ensures all[lo + k..lo + size] == Run(start + k, size - k)
  {
    var part, whole := all[lo + k..lo + size], all[lo..lo + size];
    forall i | 0 <= i < size - k ensures part[i] == Run(start + k, size - k)[i] {
      assert part[i] == whole[k + i];
    }
  }

  /** The bytes of a file from a place inside one area of it are consecutive bytes of the disk. */
  lemma ChunkBytes(info: Info, all: seq<int>, lo: nat, area: Area, secoff: nat, insecoff: nat, n: nat)
    requires info.Geometry() && InData(info, all)
    requires lo + area.size <= |all| && all[lo..lo + area.size] == Run(area.start, area.size)
    requires secoff < area.size && insecoff + n <= At(info, area.size - secoff)
    ensures OnDisk(info, Bytes(info, all), At(info, lo + secoff) + insecoff,
            At(info, area.start + secoff) + insecoff, n)
  {
    hide Bytes, At, Run;
    RunTail(all, lo, area.start, area.size, secoff);
    RunOnDisk(info, all, lo + secoff, lo + area.size, area.start + secoff);
    Inside(info, Bytes(info, all), At(info, lo + secoff), At(info, area.start + secoff),
      At(info, area.size - secoff), insecoff, n);
  }

  method DevRead(info: Info, off: nat, n: nat, buff: array<Byte>, at: nat)
    requires at + n <= buff.Length
    modifies buff
    ensures buff[..at] == old(buff[..at]) && buff[at..at + n] == DiskBytes(info, off, n)
    ensures Untouched(buff[..], old(buff[..]), at + n)
  {
    forall i | 0 <= i < n {
      buff[at + i] := info.disk(off + i);
    }
  }

  /** The first t bytes of the buffer are the t bytes of the file from `offset` on. */
  ghost predicate Got(file: seq<Byte>, buff: seq<Byte>, offset: nat, t: nat) {
    t <= |buff| && (t > 0 ==> offset + t <= |file| && buff[..t] == file[offset..offset + t])
  }

  lemma GotMore(info: Info, file: seq<Byte>, before: seq<Byte>, after: seq<Byte>, offset: nat, t: nat, n: nat, off: nat)
    requires Got(file, before, offset, t) && OnDisk(info, file, offset + t, off, n)
    requires t + n <= |after| == |before| && after[..t] == before[..t] && after[t..t + n] == DiskBytes(info, off, n)
    ensures Got(file, after, offset, t + n)
  {
    var part := file[offset..offset + t + n];
    assert after[..t + n] == after[..t] + after[t..t + n];
    assert part == file[offset..offset + t] + file[offset + t..offset + t + n];
  }

  lemma GotAll(file: seq<Byte>, buff: seq<Byte>, offset: nat, t: nat, size: nat)
    requires Got(file, buff, offset, t) && t <= size && (t == size || offset + t >= |file|)
    ensures t == |Clip(file, offset, size)| && buff[..t] == Clip(file, offset, size)
  {
  }

  lemma FileSize(info: Info, chain: seq<nat>)
    requires Proper(info, chain)
    ensures InData(info, Sectors(info, chain)) && |Sectors(info, chain)| == Off(info, |chain|)
    ensures |FileBytes(info, chain)| == At(info, |Sectors(info, chain)|)
  {
    hide Next, Off, Sectors, Bytes;
    SectorsSize(info, chain);
    BytesSize(info, Sectors(info, chain));
  }

  lemma BytesFit(info: Info, sector: nat, insecoff: nat)
    requires info.Fits() && sector < info.totalSectors && insecoff < info.bytesPerSec
    ensures At(info, sector) + insecoff < U32_SIZE
  {
    var top := info.totalSectors;
    Times(sector, 1, info.bytesPerSec);
    Times(sector + 1, top, info.bytesPerSec);
  }

  lemma SizeFits(info: Info, size: nat)
    requires info.Fits() && 0 < size < info.totalSectors
    ensures info.bytesPerSec <= At(info, size) < U32_SIZE
  {
    Times(1, size, info.bytesPerSec);
    Times(size, info.totalSectors, info.bytesPerSec);
  }

  /** Nothing of the arithmetic on an area of the data region exceeds 32 bits. */
  lemma AreaFits(info: Info, all: seq<int>, lo: nat, area: Area, secoff: nat, insecoff: nat)
    requires info.Fits() && InData(info, all) && lo + area.size <= |all| &&
             all[lo..lo + area.size] == Run(area.start, area.size)
    requires secoff < area.size && insecoff < info.bytesPerSec
    ensures U32(At(info, area.start + secoff) + insecoff) == At(info, area.start + secoff) + insecoff
    ensures U32(At(info, area.size - secoff) - insecoff) == At(info, area.size - secoff) - insecoff
    ensures insecoff < At(info, area.size - secoff)
  {
    hide Off;
    var last := area.size - 1;
    assert all[lo + last] == all[lo..lo + area.size][last] == area.start + last;
    assert all[lo] == all[lo..lo + area.size][0] == area.start;
    BytesFit(info, area.start + secoff, insecoff);
    hide At, Run, InData;
    SizeFits(info, area.size - secoff);
  }

  /** One step of a read: as much of an area as is wanted, from a place inside it. */
  method ReadChunk(info: Info, area: Area, secoff: nat, insecoff: nat, total: nat, size: nat, buff: array<Byte>,
                   ghost chain: seq<nat>, ghost lo: nat, ghost offset: nat) returns (n: nat)
    requires Proper(info, chain) && InData(info, Sectors(info, chain))
    requires lo + area.size <= |Sectors(info, chain)| &&
             Sectors(info, chain)[lo..lo + area.size] == Run(area.start, area.size)
    requires secoff < area.size && insecoff < info.bytesPerSec
    requires total <= size <= buff.Length && At(info, lo + secoff) + insecoff == offset + total
    requires Got(FileBytes(info, chain), buff[..], offset, total)
    modifies buff
    ensures total + n <= size && Got(FileBytes(info, chain), buff[..], offset, total + n)
    ensures Untouched(buff[..], old(buff[..]), total + n)
    ensures total + n == size || offset + total + n == At(info, lo + area.size)
    ensures offset + total + n <= At(info, lo + area.size)
  {
    hide Next, Off, Sectors, Run, Got, OnDisk, At;
    AreaFits(info, Sectors(info, chain), lo, area, secoff, insecoff);
    var chunkOffs := U32(At(info, area.start + secoff) + insecoff);
    var chunkSize := U32(At(info, area.size - secoff) - insecoff);
    n := if chunkSize < size - total then chunkSize else size - total;
    ghost var before := buff[..];
    ChunkBytes(info, Sectors(info, chain), lo, area, secoff, insecoff, n);
    DevRead(info, chunkOffs, n, buff, total);
    hide FileBytes, InData, DiskBytes;
    assert buff[..][..total] == buff[..total] && before[..total] == old(buff[..total]);
    assert buff[..][total..total + n] == buff[total..total + n];
    GotMore(info, FileBytes(info, chain), before, buff[..], offset, total, n, chunkOffs);
    AtAdd(info, lo + secoff, area.size - secoff);
  }

  /** The read goes through the areas of the cache, from the sector it wants to their end. */
  method ReadAreas(info: Info, c: FatchainCache, from: nat, inSector: nat, got: nat, size: nat, buff: array<Byte>,
                   ghost chain: seq<nat>, ghost offset: nat) returns (total: nat, stop: bool)
    requires Proper(info, chain) && c.areas.Length == FAT_CHAIN_AREAS
    requires InData(info, Sectors(info, chain)) && |Sectors(info, chain)| == Off(info, |chain|)
    requires Parsed(info, chain, c.nextAfterAreas, c.areasOffset, c.areasLength, c.areas[..], c.filled, c.taken)
    requires inSector < info.bytesPerSec && got <= size <= buff.Length
    requires At(info, c.areasOffset + from) + inSector == offset + got
    requires c.filled > 0 ==> from < c.areasLength
    requires Got(FileBytes(info, chain), buff[..], offset, got)
    modifies buff
    ensures total <= size && Got(FileBytes(info, chain), buff[..], offset, total)
    ensures got <= total && Untouched(buff[..], old(buff[..]), total)
    ensures stop ==> total == size || offset + total >= |FileBytes(info, chain)|
    ensures stop ==> c.taken == |chain| || offset + total <= At(info, Off(info, c.taken))
    ensures !stop ==> offset + total == At(info, c.areasOffset + c.areasLength)
    ensures !stop ==> c.filled == FAT_CHAIN_AREAS
  {
    hide Next, Off, Sectors, Run, Got, OnDisk, At, Bytes, Parsed, Passed, FileBytes, IsChain, InData;
    var i: nat, secoff: nat, insecoff: nat := 0, from, inSector;
    total := got;
    ghost var areas := c.areas[..];
    NonePassed(areas);
    while i < FAT_CHAIN_AREAS
      invariant i <= c.filled && i <= FAT_CHAIN_AREAS && got <= total <= size && insecoff < info.bytesPerSec
      invariant c.filled > 0 ==> Passed(areas, i) + secoff <= c.areasLength
      invariant c.filled > 0 && Passed(areas, i) + secoff == c.areasLength ==> insecoff == 0
      invariant At(info, c.areasOffset + Passed(areas, i) + secoff) + insecoff == offset + total
      invariant Got(FileBytes(info, chain), buff[..], offset, total)
      invariant Untouched(buff[..], old(buff[..]), total)
    {
      if c.areas[i].start == 0 {
        PastEnd(info, chain, c.nextAfterAreas, c.areasOffset, c.areasLength, areas, c.filled, c.taken, i, secoff);
        return total, true;
      }
      AreaPlace(info, chain, c.nextAfterAreas, c.areasOffset, c.areasLength, areas, c.filled, c.taken, i);
      if c.areas[i].size <= secoff {
        secoff := secoff - c.areas[i].size;
        i := i + 1;
        continue;
      }
      var n := ReadChunk(info, c.areas[i], secoff, insecoff, total, size, buff, chain,
          c.areasOffset + Passed(areas, i), offset);
      insecoff, secoff := 0, 0;
      total := total + n;
      if total == size {
        UpToTaken(info, chain, c.nextAfterAreas, c.areasOffset, c.areasLength, areas, c.filled, c.taken, i);
        return total, true;
      }
      i := i + 1;
    }
    AllPassed(info, chain, c.nextAfterAreas, c.areasOffset, c.areasLength, areas, c.filled, c.taken);
    assert i == c.filled && secoff == 0 && insecoff == 0;
    stop := false;
  }

  /** The first unused area comes where the chain, and with it the file, ends. */
  lemma PastEnd(info: Info, chain: seq<nat>, next: nat, off: nat, len: nat, areas: seq<Area>, n: nat, e: nat, i: nat,
                secoff: nat)
    requires Proper(info, chain) && Parsed(info, chain, next, off, len, areas, n, e)
    requires |Sectors(info, chain)| == Off(info, |chain|) && InData(info, Sectors(info, chain))
    requires i <= n && i < FAT_CHAIN_AREAS && areas[i].start == 0
    ensures i == n && e == |chain| && At(info, off + Passed(areas, i) + secoff) >= |FileBytes(info, chain)|
  {
    hide Next, Off, Sectors, Bytes;
    FileSize(info, chain);
    assert off + Passed(areas, i) >= |Sectors(info, chain)|;
    Times(|Sectors(info, chain)|, off + Passed(areas, i) + secoff, info.bytesPerSec);
  }

  lemma UpToTaken(info: Info, chain: seq<nat>, next: nat, off: nat, len: nat, areas: seq<Area>, n: nat, e: nat, i: nat)
    requires info.Geometry() && Parsed(info, chain, next, off, len, areas, n, e)
    requires i < n && i < |areas| && Passed(areas, i + 1) <= len
    ensures At(info, off + Passed(areas, i + 1)) <= At(info, Off(info, e))
  {
    hide Off, Sectors, Passed;
    Times(off + Passed(areas, i + 1), Off(info, e), info.bytesPerSec);
  }

  /** Who reads up to the end of the file has followed its whole chain. */
  lemma WholeChain(info: Info, chain: seq<nat>, e: nat, end: nat)
    requires Proper(info, chain) && InData(info, Sectors(info, chain)) && e <= |chain|
    requires |FileBytes(info, chain)| <= end && (e == |chain| || end <= At(info, Off(info, e)))
    ensures e == |chain|
  {
    hide Next, Off, Sectors, Bytes;
    FileSize(info, chain);
    if e < |chain| {
      OffSum(info, e, |chain| - e);
      Times(Off(info, e), Off(info, |chain|), info.bytesPerSec);
    }
  }

  /** The cache holds areas of the file, and the sector wanted is the first of what they may still give. */
  ghost predicate Reaches(info: Info, chain: seq<nat>, c: FatchainCache, secoff: nat)
    requires info.Geometry()
    reads c, c.areas
  {
    Parsed(info, chain, c.nextAfterAreas, c.areasOffset, c.areasLength, c.areas[..], c.filled, c.taken) &&
    Takes(info, chain, 0, c.taken) && c.areasOffset <= secoff &&
    (c.filled > 0 ==> secoff < c.areasOffset + c.areasLength)
  }

  /**
   * Where a parse would go on from: the start of the chain for an empty cache, the cluster after
   * the areas otherwise.
   */
  lemma GoesOn(info: Info, chain: seq<nat>, chainStart: nat, next: nat, off: nat, len: nat, areas: seq<Area>, n: nat,
               e: nat)
    returns (at: nat)
    requires Proper(info, chain) && CacheOk(info, chain, chainStart, next, off, len, areas, n, e)
    ensures next == FAT_EOF ==> |Sectors(info, chain)| <= off + len
    ensures next != FAT_EOF ==> at < |chain| && off + len == Off(info, at)
    ensures next != FAT_EOF ==> Start(info, if len == 0 then chainStart else next) == chain[at]
    ensures next != FAT_EOF ==> Takes(info, chain, 0, at)
  {
    hide Next, Off, Sectors, InData, Takes;
    TakesNone(info, chain, 0);
    OffSum(info, 0, 1);
    at := if len == 0 then 0 else e;
    if next != FAT_EOF && len > 0 {
      assert Following(chain, e) == chain[e];
    }
  }

  lemma StillOk(info: Info, chain: seq<nat>, chainStart: nat, next: nat, off: nat, len: nat, areas: seq<Area>,
                n: nat, e: nat, at: nat)
    requires Proper(info, chain) && Start(info, chainStart) == chain[0] &&
             Parsed(info, chain, next, off, len, areas, n, e)
    requires |areas| == FAT_CHAIN_AREAS && Takes(info, chain, 0, at) && Takes(info, chain, at, e)
    ensures CacheOk(info, chain, chainStart, next, off, len, areas, n, e) && Takes(info, chain, 0, e)
  {
    hide Next, Off, Sectors, Parsed, Takes;
    TakesMore(info, chain, 0, at, e);
    FileSize(info, chain);
    ChainBound(info, chain);
  }

  /** Reads on where the areas end, or the chain begins, unless a cluster there is refused. */
  method GoOn(info: Info, c: FatchainCache, skip: nat, ghost chain: seq<nat>, ghost at: nat) returns (r: int)
    requires info.Geometry() && c.areas.Length == FAT_CHAIN_AREAS && skip < U32_SIZE
    requires Before(info, chain, c.nextAfterAreas, c.areasOffset + c.areasLength, skip, at)
    requires Takes(info, chain, 0, at) && Start(info, c.chainStart) == chain[0]
    modifies c, c.areas
    ensures c.chainStart == old(c.chainStart) && r <= 0 && (r < 0 ==> !Accepted(info, chain))
    ensures r == EOK ==> c.Valid(info, chain) && Reaches(info, chain, c, c.areasOffset) &&
                         c.areasOffset == old(c.areasOffset + c.areasLength) + skip
    ensures r == EOK && c.filled > 0 ==> c.areasLength > 0 && c.areasOffset + c.areasLength <= |Sectors(info, chain)|
  {
    hide Next, Off, Sectors, Parsed, InData, Takes, Accepted, IsChain, CacheOk;
    r := c.ParseNext(info, skip, chain, at);
    if r == EOK {
      StillOk(info, chain, c.chainStart, c.nextAfterAreas, c.areasOffset, c.areasLength, c.areas[..], c.filled,
        c.taken, at);
      FilledHolds(info, chain, c.nextAfterAreas, c.areasOffset, c.areasLength, c.areas[..], c.filled, c.taken);
    }
  }

  /** Brings the wanted sector into the cache: rewinds, keeps or extends it. */
  method Seek(info: Info, c: FatchainCache, secoff: nat, ghost chain: seq<nat>) returns (r: int, past: bool)
    requires Proper(info, chain) && c.areas.Length == FAT_CHAIN_AREAS && c.Valid(info, chain) && secoff < U32_SIZE
    modifies c, c.areas
    ensures c.chainStart == old(c.chainStart) && r <= 0 && (r < 0 ==> !Accepted(info, chain))
    ensures r == EOK ==> c.Valid(info, chain) &&
                         if past then |Sectors(info, chain)| <= secoff else Reaches(info, chain, c, secoff)
  {
    hide Next, Off, Sectors, Parsed, InData, Takes, Accepted, IsChain;
    past := false;
    StartOf(info, chain, c.chainStart);
    if c.areasOffset > secoff {
      c.nextAfterAreas, c.areasOffset, c.areasLength := c.chainStart, 0, 0;
    }
    if c.areasOffset + c.areasLength <= secoff {
      ghost var at := GoesOn(info, chain, c.chainStart, c.nextAfterAreas, c.areasOffset, c.areasLength, c.areas[..],
          c.filled, c.taken);
      if c.nextAfterAreas == FAT_EOF {
        return EOK, true;
      }
      if c.areasLength == 0 {
        c.nextAfterAreas := c.chainStart;
      }
      r := GoOn(info, c, secoff - c.areasOffset - c.areasLength, chain, at);
      return;
    }
    r := EOK;
  }

  lemma FilledHolds(info: Info, chain: seq<nat>, next: nat, off: nat, len: nat, areas: seq<Area>, n: nat, e: nat)
    requires info.Geometry() && Parsed(info, chain, next, off, len, areas, n, e)
    ensures n > 0 ==> len > 0 && off + len <= |Sectors(info, chain)|
  {
    hide Off, Sectors;
  }

  /** The areas of the cache are read, and if there is more in the file, the next ones brought in. */
  method ReadOn(info: Info, c: FatchainCache, secoff: nat, insecoff: nat, got: nat, offset: nat, size: nat,
                buff: array<Byte>, ghost chain: seq<nat>) returns (r: int, total: nat, stop: bool)
    requires Proper(info, chain) && c.areas.Length == FAT_CHAIN_AREAS && c.Valid(info, chain)
    requires InData(info, Sectors(info, chain)) && |Sectors(info, chain)| == Off(info, |chain|)
    requires Reaches(info, chain, c, c.areasOffset + secoff) && insecoff < info.bytesPerSec &&
             got <= size <= buff.Length
    requires At(info, c.areasOffset + secoff) + insecoff == offset + got
    requires Got(FileBytes(info, chain), buff[..], offset, got)
    modifies c, c.areas, buff
    ensures c.chainStart == old(c.chainStart) && r <= 0 && (r < 0 ==> !Accepted(info, chain) && stop)
    ensures total <= size && Got(FileBytes(info, chain), buff[..], offset, total)
    ensures got <= total && Untouched(buff[..], old(buff[..]), total)
    ensures r == EOK ==> c.Valid(info, chain)
    ensures r == EOK && stop ==> total == size || offset + total >= |FileBytes(info, chain)|
    ensures r == EOK && stop && offset + total >= |FileBytes(info, chain)| ==> Takes(info, chain, 0, |chain|)
    ensures !stop ==> Reaches(info, chain, c, c.areasOffset) && At(info, c.areasOffset) == offset + total
    ensures !stop ==> |Sectors(info, chain)| - c.areasOffset < |Sectors(info, chain)| - old(c.areasOffset)
    ensures !stop ==> old(c.areasOffset) < |Sectors(info, chain)|
  {
    hide Next, Off, Sectors, Parsed, InData, Got, Bytes, At, IsChain, FileBytes, Takes, Accepted, Untouched;
    r := EOK;
    total, stop := ReadAreas(info, c, secoff, insecoff, got, size, buff, chain, offset);
    TakenSome(info, chain, c.nextAfterAreas, c.areasOffset, c.areasLength, c.areas[..], c.filled, c.taken);
    if stop {
      if offset + total >= |FileBytes(info, chain)| {
        WholeChain(info, chain, c.taken, offset + total);
      }
      return;
    }
    FilledHolds(info, chain, c.nextAfterAreas, c.areasOffset, c.areasLength, c.areas[..], c.filled, c.taken);
    ghost var at := GoesOn(info, chain, c.chainStart, c.nextAfterAreas, c.areasOffset, c.areasLength, c.areas[..],
        c.filled, c.taken);
    if c.nextAfterAreas == FAT_EOF {
      stop := true;
      AllOfIt(info, chain, c.nextAfterAreas, c.areasOffset, c.areasLength, c.areas[..], c.filled, c.taken);
      return;
    }
    StartOf(info, chain, c.chainStart);
    r := GoOn(info, c, 0, chain, at);
    stop := r < 0;
  }

  lemma TakenSome(info: Info, chain: seq<nat>, next: nat, off: nat, len: nat, areas: seq<Area>, n: nat, e: nat)
    requires info.Geometry() && Parsed(info, chain, next, off, len, areas, n, e)
    ensures e <= |chain|
  {
  }

  lemma AllOfIt(info: Info, chain: seq<nat>, next: nat, off: nat, len: nat, areas: seq<Area>, n: nat, e: nat)
    requires Proper(info, chain) && InData(info, Sectors(info, chain)) &&
             Parsed(info, chain, next, off, len, areas, n, e)
    requires next == FAT_EOF && n > 0
    ensures e == |chain| && At(info, off + len) >= |FileBytes(info, chain)|
  {
    hide Next, Off, Sectors, Bytes;
    FileSize(info, chain);
  }

  /**
   * fatio_read: whatever reads the cache served before, the buffer receives the bytes of the file
   * at that place, clipped at its end, and nothing past them; or the read is refused because of a cluster of
   * the chain that the driver takes for none.  A read up to the end of the file succeeds exactly if there is no such.
   */
  method Read(info: Info, c: FatchainCache, offset: nat, size: nat, buff: array<Byte>, ghost chain: seq<nat>)
      returns (r: int)
    requires Proper(info, chain) && c.areas.Length == FAT_CHAIN_AREAS && c.Valid(info, chain)
    requires offset / info.bytesPerSec < U32_SIZE && size <= buff.Length
    modifies c, c.areas, buff
    ensures InData(info, Sectors(info, chain)) && c.chainStart == old(c.chainStart)
    ensures r < 0 ==> r == -ENOENT && !Accepted(info, chain)
    ensures r >= 0 ==> c.Valid(info, chain) && r == |Clip(FileBytes(info, chain), offset, size)|
    ensures r >= 0 ==> buff[..r] == Clip(FileBytes(info, chain), offset, size) &&
                       Untouched(buff[..], old(buff[..]), r)
    ensures r >= 0 && offset < |FileBytes(info, chain)| <= offset + size ==> Accepted(info, chain)
  {
    hide Next, Off, Sectors, Parsed, InData, Got, Bytes, At, IsChain, Clip, FileBytes, Takes, Accepted, CacheOk;
    var insecoff: nat, secoff: nat := offset % info.bytesPerSec, U32(offset / info.bytesPerSec);
    Placed(info, offset);
    FileSize(info, chain);
    GotNone(FileBytes(info, chain), buff[..], offset);
    var ok, past := Seek(info, c, secoff, chain);
    if ok < 0 {
      return -ENOENT;
    }
    if past {
      PastAll(info, chain, secoff, offset);
      GotAll(FileBytes(info, chain), buff[..], offset, 0, size);
      return 0;
    }
    secoff := secoff - c.areasOffset;
    var total: nat, stop := 0, false;
    while !stop
      invariant total <= size && insecoff < info.bytesPerSec && ok <= 0 && (ok < 0 ==> stop && !Accepted(info, chain))
      invariant c.chainStart == old(c.chainStart)
      invariant ok == EOK ==> c.Valid(info, chain)
      invariant Got(FileBytes(info, chain), buff[..], offset, total)
      invariant Untouched(buff[..], old(buff[..]), total)
      invariant !stop ==> Reaches(info, chain, c, c.areasOffset + secoff) &&
                          At(info, c.areasOffset + secoff) + insecoff == offset + total
      invariant ok == EOK && stop ==> total == size || offset + total >= |FileBytes(info, chain)|
      invariant ok == EOK && stop && offset + total >= |FileBytes(info, chain)| ==> Takes(info, chain, 0, |chain|)
      decreases !stop, |Sectors(info, chain)| - c.areasOffset
    {
      ghost var was := buff[..];
      ok, total, stop := ReadOn(info, c, secoff, insecoff, total, offset, size, buff, chain);
      secoff, insecoff := 0, 0;
    }
    if ok < 0 {
      return -ENOENT;
    }
    GotAll(FileBytes(info, chain), buff[..], offset, total, size);
    ToTheEnd(info, chain, offset, size, total);
    return total;
  }

  lemma ToTheEnd(info: Info, chain: seq<nat>, offset: nat, size: nat, total: nat)
    requires Proper(info, chain) && InData(info, Sectors(info, chain))
    requires total == |Clip(FileBytes(info, chain), offset, size)|
    requires offset + total >= |FileBytes(info, chain)| ==> Takes(info, chain, 0, |chain|)
    ensures offset < |FileBytes(info, chain)| <= offset + size ==> Accepted(info, chain)
  {
    hide FileBytes, Sectors;
  }

  lemma StartOf(info: Info, chain: seq<nat>, chainStart: nat)
    requires Proper(info, chain) && IsChain(info, Start(info, chainStart), chain)
    ensures Start(info, chainStart) == chain[0]
  {
    hide Next;
  }

  lemma Placed(info: Info, offset: nat)
    requires info.Geometry()
    ensures At(info, offset / info.bytesPerSec) + offset % info.bytesPerSec == offset
  {
  }

  lemma PastAll(info: Info, chain: seq<nat>, secoff: nat, offset: nat)
    requires Proper(info, chain) && InData(info, Sectors(info, chain))
    requires |Sectors(info, chain)| <= secoff && At(info, secoff) <= offset
    ensures |FileBytes(info, chain)| <= offset
  {
    hide Next, Off, Sectors, Bytes;
    FileSize(info, chain);
    Times(|Sectors(info, chain)|, secoff, info.bytesPerSec);
  }

  lemma GotNone(file: seq<Byte>, buff: seq<Byte>, offset: nat)
    ensures Got(file, buff, offset, 0)
  {
  }

  /**
   * Any history of reads of one file through one cache, from the cache's creation on: every answer is right, and
   * only a chain with a cluster that the driver takes for none gets a refusal.
   */
  method ReadHistory(info: Info, cluster: nat, requests: seq<(nat, nat)>, ghost chain: seq<nat>)
      returns (results: seq<seq<Byte>>)
    requires Proper(info, chain) && chain[0] == Start(info, cluster)
    requires forall i :: 0 <= i < |requests| ==> requests[i].0 / info.bytesPerSec < U32_SIZE
    ensures InData(info, Sectors(info, chain)) && |results| <= |requests|
    ensures forall i :: 0 <= i < |results| ==> results[i] == Clip(FileBytes(info, chain), requests[i].0, requests[i].1)
    ensures |results| < |requests| ==> !Accepted(info, chain)
  {
    hide Next, Off, Sectors, InData, IsChain, FileBytes, CacheOk, Accepted;
    FileSize(info, chain);
    var c := new FatchainCache(cluster);
    results := [];
    while |results| < |requests|
      invariant |results| <= |requests| && c.Valid(info, chain) && fresh(c) && fresh(c.areas)
      invariant c.areas.Length == FAT_CHAIN_AREAS
      invariant forall i :: 0 <= i < |results| ==>
                results[i] == Clip(FileBytes(info, chain), requests[i].0, requests[i].1)
    {
      var (offset, size) := requests[|results|];
      var buff := new Byte[size];
      var r := Read(info, c, offset, size, buff, chain);
      if r < 0 {
        return;
      }
      results := results + [buff[..r]];
    }
  }

  // ---------------------------------------------------------------------------------------
  // Which volumes are read right: the driver counts clusters from sector 0, but they begin at `dataoff`

  /** A table that says of every cluster that its chain ends there. */
  ghost function AllEnds(info: Info): Info {
    info.(disk := (off: nat) => 255)
  }

  lemma EndsThere(info: Info, cluster: nat)
    requires RSVD_ENTRIES <= cluster < info.Legal()
    ensures IsChain(AllEnds(info), cluster, [cluster])
  {
    var t := AllEnds(info);
    assert forall off :: Word(t, off) == 0xffff_ffff;
  }

  /** Every chain of every table is accepted, and so read right by `Read`, exactly on the volumes that are sound. */
  lemma SoundIsExact(info: Info)
    ensures info.Sound() <==>
            forall disk: nat -> Byte, chain: seq<nat> ::
              0 < |chain| && IsChain(info.(disk := disk), chain[0], chain) ==> Accepted(info, chain)
  {
    hide Next;
    if !info.Sound() {
      var last := info.Legal() - 1;
      EndsThere(info, last);
      assert IsChain(info.(disk := AllEnds(info).disk), [last][0], [last]);
    }
  }

  /** Two clusters' worth of sectors before the data region are enough. */
  lemma RoomMakesSound(info: Info)
    requires info.Geometry() && info.dataoff >= 2 * info.secPerClus
    ensures info.Sound()
  {
    if info.DataClusters() > 0 {
      DataRegion(info);
      hide Off;
      var n := info.DataClusters();
      OffSum(info, n, 2);
      assert Off(info, n + 2) <= info.totalSectors by {
        OffSum(info, 1, 1);
      }
      FitsIn(info, n + 2);
    }
  }

  lemma FitsIn(info: Info, n: nat)
    requires info.Geometry() && Off(info, n) <= info.totalSectors
    ensures n <= info.Clusters()
  {
    var k := info.Clusters();
    assert info.totalSectors < (k + 1) * info.secPerClus;
    if n > k {
      Times(k + 1, n, info.secPerClus);
    }
  }

  /** With sectors of 32 bytes or more, what fits 32 bits has no cluster number that is an end-of-chain mark. */
  lemma MarksApart(info: Info)
    requires info.Geometry() && 0 < info.dataoff && info.bytesPerSec >= 32 &&
             info.totalSectors * info.bytesPerSec <= U32_SIZE
    ensures info.Fits()
  {
    Times(32, info.bytesPerSec, info.totalSectors);
    if info.DataClusters() > 0 {
      DataRegion(info);
      Times(1, info.secPerClus, info.DataClusters());
    }
  }

  /** On any other volume there is a file, of its last cluster, that cannot be read. */
  method LastClusterRefused(info: Info, ends: Info) returns (r: int)
    requires info.Fits() && !info.Sound() && ends == info.(disk := ends.disk) && forall off :: ends.disk(off) == 255
    ensures r == -ENOENT
  {
    hide Next, Off, Sectors, FileBytes, InData;
    var last := info.Legal() - 1;
    ghost var chain := [last];
    LastIsChain(ends, last);
    FileSize(ends, chain);
    OneCluster(ends);
    var c := new FatchainCache(last);
    var buff := new Byte[info.secPerClus * info.bytesPerSec];
    r := Read(ends, c, 0, buff.Length, buff, chain);
  }

  lemma LastIsChain(ends: Info, last: nat)
    requires ends.Fits() && !ends.Sound() && last == ends.Legal() - 1 && forall off :: ends.disk(off) == 255
    ensures Proper(ends, [last]) && Start(ends, last) == last >= ends.Clusters()
  {
    assert forall off :: Word(ends, off) == 0xffff_ffff;
  }

  lemma OneCluster(info: Info)
    requires info.Geometry()
    ensures 0 < At(info, Off(info, 1)) == info.secPerClus * info.bytesPerSec
  {
    Times(0, info.secPerClus, info.bytesPerSec);
  }

  /**
   * 512 sectors in clusters of 8, with the data region behind 3: clusters 2 to 64, of which the
   * driver knows 64 not.
   */
  ghost function SmallVolume(): Info {
    Info(FAT12, 512, 3, 3, 512, 512, 8, 0, (off: nat) => 255)
  }

  lemma SmallIsUnsound()
    ensures SmallVolume().Fits() && !SmallVolume().Sound() && SmallVolume().Legal() == 65 &&
            SmallVolume().Clusters() == 64
  {
  }

  /** A volume just below 4 GiB is read right to its last cluster. */
  lemma LargeIsSound(info: Info)
    requires info.Geometry() && info.totalSectors == 8388600 && info.bytesPerSec == 512 && info.secPerClus == 64 &&
             info.dataoff == 2080
    ensures info.Fits() && info.Sound() && info.Legal() == 131041
  {
    MarksApart(info);
    RoomMakesSound(info);
  }
}
