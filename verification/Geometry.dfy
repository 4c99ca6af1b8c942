/** The layout f_mkfs chooses for a FAT volume, and the layout mount_volume derives from it. */
module Geometry {
  import opened Arith
  import opened Bytes
  import opened FatEntries

  /** What f_mkfs has settled before the search for a cluster size. */
  datatype Params = Params(szVol: nat, bVol: nat, ss: nat, szBlk: nat, nFat: nat, nRoot: nat, fat32: bool)

  predicate IsPower(x: nat) { x in {1, 2, 4, 8, 16, 32, 64, 128} }

  predicate IsBlock(x: nat) { IsPower(x) || x in {256, 512, 0x400, 0x800, 0x1000, 0x2000, 0x4000, 0x8000} }

  ghost predicate ValidParams(p: Params) {
    && p.ss in {512, 1024, 2048, 4096} && IsBlock(p.szBlk) && p.nFat in {1, 2}
    && 0 < p.nRoot <= 32768 && Rem(p.nRoot, p.ss / 32) == 0
    && 128 <= p.szVol && p.bVol + p.szVol < TWO32 - 1
  }

  /** The options for a FAT volume: types allowed, number of FATs, root entries, cluster size in bytes, alignment. */
  datatype Options = Options(fat: bool, fat32: bool, nFat: nat, nRoot: nat, auSize: nat, align: nat)

  /** Where the search for a cluster size starts. */
  datatype Start = Start(p: Params, szAu: nat, fsty: FatType) | Aborted | InvalidParameter

  predicate IsAuSize(x: nat) {
    IsBlock(x) || x in {0x1_0000, 0x2_0000, 0x4_0000, 0x8_0000, 0x10_0000, 0x20_0000, 0x40_0000, 0x80_0000, 0x100_0000}
  }

  /** sz_au: the cluster size in sectors, at most 128; 0 for automatic selection. */
  function ClusterOption(auSize: nat, ss: nat): (n: nat)
    requires ss in {512, 1024, 2048, 4096}
    ensures n == 0 || IsPower(n)
    ensures n != 0 ==> n * ss <= auSize
    ensures IsAuSize(auSize) && ss <= auSize <= 128 * ss ==> n * ss == auSize
  {
    var n := if IsAuSize(auSize) then auSize / ss else 0;
    if n > 128 then 128 else n
  }

  lemma {:induction false} DefaultRoot(ss: nat)
    requires ss in {512, 1024, 2048, 4096}
    ensures Rem(512, ss / 32) == 0
  {
    if ss == 512 {
      Divided(512, 16, 32, 0);
    } else if ss == 1024 {
      Divided(512, 32, 16, 0);
    } else if ss == 2048 {
      Divided(512, 64, 8, 0);
    } else {
      Divided(512, 128, 4, 0);
    }
  }

  /** What f_mkfs takes from its options, for a volume without exFAT. */
  function FromOptions(o: Options, ss: nat, szVol: nat, bVol: nat): (r: Start)
    requires ss in {512, 1024, 2048, 4096} && bVol + szVol < TWO32 - 1
    ensures r.Start? ==> ValidParams(r.p) && (r.szAu == 0 || IsPower(r.szAu)) && r.fsty != FAT12
    ensures r.Start? <==> szVol >= 128 && (o.fat || o.fat32)
    ensures r.Start? ==> r.p.szVol == szVol && r.p.bVol == bVol && r.p.ss == ss && r.p.fat32 == o.fat32
    ensures r.Start? ==> r.p.nFat == if o.nFat == 2 then 2 else 1
    ensures r.Start? ==> r.p.nRoot == if 1 <= o.nRoot <= 32768 && o.nRoot % (ss / 32) == 0 then o.nRoot else 512
    ensures r.Start? ==> r.p.szBlk == if IsBlock(o.align) then o.align else 1
    ensures r.Start? ==> r.szAu == ClusterOption(o.auSize, ss) && (r.fsty == FAT32 <==> !o.fat)
  {
    DefaultRoot(ss);
    QuotRemAreDivMod(o.nRoot, ss / 32);
    if szVol < 128 then Aborted
    else if !o.fat && !o.fat32 then InvalidParameter
    else Start(Params(szVol, bVol, ss,
                      if IsBlock(o.align) then o.align else 1,
                      if 1 <= o.nFat <= 2 then o.nFat else 1,
                      if 1 <= o.nRoot <= 32768 && Rem(o.nRoot, ss / 32) == 0 then o.nRoot else 512,
                      o.fat32),
               ClusterOption(o.auSize, ss), if o.fat32 && !o.fat then FAT32 else FAT16)
  }

  /** n_fat times the sectors of one FAT. */
  function AllFats(nFat: nat, szFat: nat): nat { if nFat == 2 then szFat + szFat else szFat }

  /** Sectors of the root directory of FAT12 and FAT16. */
  function RootSectors(p: Params): nat
    requires p.ss > 0
  {
    Quot(p.nRoot * 32, p.ss)
  }

  /** A cluster configuration: type, cluster size, sectors of reserved area, FAT and root directory, clusters. */
  datatype Config = Config(fsty: FatType, pau: nat, szRsv: nat, szFat: nat, szDir: nat, nClst: nat)

  /** End of a turn of the loop: next try with its cluster size and type, failure, or the result. */
  datatype Turn = Retry(szAu: nat, fsty: FatType) | Abort | Done(c: Config)

  /** Cluster size by table: the boundaries passed, in units of 4 Ki or 128 Ki sectors. */
  method AutoSize(fsty: FatType, szVol: nat) returns (pau: nat)
    ensures pau == TableSize(fsty, szVol)
  {
    var n := szVol / if fsty == FAT32 then 0x20000 else 0x1000;
    var bounds := if fsty == FAT32 then CST32 else CST;
    var i := 0;
    pau := 1;
    while i < 6 && bounds[i] <= n
      invariant 0 <= i <= 6 && pau == [1, 2, 4, 8, 16, 32, 64][i]
      invariant i > 0 ==> bounds[i - 1] <= n
    {
      i, pau := i + 1, pau * 2;
    }
  }

  /** The same by size of the volume, in sectors. */
  function TableSize(fsty: FatType, szVol: nat): (pau: nat)
    ensures IsPower(pau) && pau <= 64
  {
    if fsty == FAT32 then
      if szVol < 0x2_0000 then 1 else if szVol < 0x4_0000 then 2 else if szVol < 0x8_0000 then 4
      else if szVol < 0x10_0000 then 8 else if szVol < 0x20_0000 then 16 else if szVol < 0x40_0000 then 32 else 64
    else
      if szVol < 0x1000 then 1 else if szVol < 0x4000 then 2 else if szVol < 0x1_0000 then 4
      else if szVol < 0x4_0000 then 8 else if szVol < 0x10_0000 then 16 else if szVol < 0x20_0000 then 32 else 64
  }

  /** Cluster size of a turn. */
  function TurnSize(p: Params, szAu: nat, fsty: FatType): nat {
    if szAu == 0 then TableSize(fsty, p.szVol) else szAu
  }

  const CST: seq<nat> := [1, 4, 16, 64, 256, 512]
  const CST32: seq<nat> := [1, 2, 4, 8, 16, 32]

  /** FAT bytes f_mkfs reckons with for n clusters, in 32-bit arithmetic. */
  function FatBytes(t: FatType, n: nat): nat {
    match t
    case FAT12 => (n * 3 + 1) / 2 + 3
    case FAT16 => (n * 2 + 4) % TWO32
    case FAT32 => (n * 4 + 8) % TWO32
  }

  /** ... and its sectors. */
  function FatSectors(t: FatType, n: nat, ss: nat): nat
    requires ss > 0
  {
    Quot((FatBytes(t, n) + ss - 1) % TWO32, ss)
  }

  /** Sectors from x up to the next multiple of blk. */
  function Gap(x: nat, blk: nat): nat
    requires blk > 0
  {
    QuotRem(x, blk);
    if Rem(x, blk) == 0 then 0 else blk - Rem(x, blk)
  }

  lemma {:induction false} GapCloses(x: nat, blk: nat)
    requires blk > 0
    ensures Gap(x, blk) < blk && Rem(x + Gap(x, blk), blk) == 0
  {
    QuotRem(x, blk);
    if Rem(x, blk) != 0 {
      QuotUnique(blk, Quot(x, blk) + 1, 0, x + Gap(x, blk));
    }
  }

  /** A configuration before its clusters are counted. */
  datatype Plan = Plan(fsty: FatType, pau: nat, szRsv: nat, szFat: nat, szDir: nat)

  /** Sectors before the data area. */
  function Total(p: Params, c: Plan): nat { c.szRsv + AllFats(p.nFat, c.szFat) + c.szDir }

  /** The data area is moved to a block boundary: FAT32 moves the FAT, the others expand it. */
  function AlignPlan(p: Params, c: Plan): Plan
    requires p.szBlk > 0
  {
    var n := Gap(p.bVol + Total(p, c), p.szBlk);
    if c.fsty == FAT32 then c.(szRsv := c.szRsv + n)
    else if p.nFat == 2 && n % 2 != 0 then c.(szRsv := c.szRsv + 1, szFat := c.szFat + (n - 1) / 2)
    else c.(szFat := c.szFat + if p.nFat == 2 then n / 2 else n)
  }

  lemma {:induction false} AlignPlanAligns(p: Params, c: Plan)
    requires p.szBlk > 0
    ensures var d := AlignPlan(p, c);
            && Total(p, d) == Total(p, c) + Gap(p.bVol + Total(p, c), p.szBlk)
            && Rem(p.bVol + Total(p, d), p.szBlk) == 0 && Gap(p.bVol + Total(p, c), p.szBlk) < p.szBlk
            && d.fsty == c.fsty && d.pau == c.pau && d.szDir == c.szDir
            && c.szFat <= d.szFat <= c.szFat + Gap(p.bVol + Total(p, c), p.szBlk)
            && c.szRsv <= d.szRsv <= c.szRsv + p.szBlk
  {
    GapCloses(p.bVol + Total(p, c), p.szBlk);
  }

  /** The last part of a turn: whether the number of clusters fits the type. */
  function Judge(p: Params, szAu: nat, c: Plan, nClst: nat): Turn {
    if c.fsty == FAT32 && nClst <= MAX_FAT16 then
      if szAu == 0 && c.pau / 2 != 0 then Retry(c.pau / 2, FAT32) else Abort
    else if c.fsty == FAT16 && nClst > MAX_FAT16 then
      if szAu == 0 && c.pau * 2 <= 64 then Retry(c.pau * 2, FAT16)
      else if p.fat32 then Retry(szAu, FAT32)
      else if szAu == 0 && c.pau * 2 <= 128 then Retry(c.pau * 2, FAT16)
      else Abort
    else if c.fsty == FAT16 && nClst <= MAX_FAT12 then
      if szAu == 0 && c.pau * 2 <= 128 then Retry(c.pau * 2, FAT16) else Abort
    else if c.fsty == FAT12 && nClst > MAX_FAT12 then Abort
    else Done(Config(c.fsty, c.pau, c.szRsv, c.szFat, c.szDir, nClst))
  }

  /** Whether f_mkfs gives up on the number of clusters it expects. */
  predicate Hopeless(t: FatType, n: nat) { t == FAT32 && (n <= MAX_FAT16 || n > MAX_FAT32) }

  /** The plan for a cluster size, with n clusters expected. */
  function PlanFor(p: Params, fsty: FatType, pau: nat, n: nat): Plan
    requires p.ss > 0
  {
    if fsty == FAT32 then Plan(FAT32, pau, 32, FatSectors(FAT32, n, p.ss), 0)
    else if n > MAX_FAT12 then Plan(fsty, pau, 1, FatSectors(FAT16, n, p.ss), RootSectors(p))
    else Plan(FAT12, pau, 1, FatSectors(FAT12, n, p.ss), RootSectors(p))
  }

  /** One turn of the loop of f_mkfs. */
  method TryConfig(p: Params, szAu: nat, fsty: FatType) returns (t: Turn)
    requires ValidParams(p) && (szAu == 0 || IsPower(szAu)) && fsty != FAT12
    ensures t == TurnFor(p, szAu, fsty, TurnSize(p, szAu, fsty))
  {
    var au := szAu;
    if au == 0 {
      au := AutoSize(fsty, p.szVol);
    }
    var n := Quot(p.szVol, au);
    var c := PlanFor(p, fsty, au, n);
    if Hopeless(fsty, n) {
      return Abort;
    }
    var d := AlignPlan(p, c);
    if p.szVol < Total(p, c) + au * 16 {
      return Abort;
    }
    t := Judge(p, szAu, d, Quot(Sub32(p.szVol, Total(p, d)), au));
  }

  ghost function TurnFor(p: Params, szAu: nat, fsty: FatType, pau: nat): Turn
    requires ValidParams(p) && IsPower(pau)
  {
    var n := Quot(p.szVol, pau);
    var c := PlanFor(p, fsty, pau, n);
    if Hopeless(fsty, n) || p.szVol < Total(p, c) + pau * 16 then Abort
    else var d := AlignPlan(p, c); Judge(p, szAu, d, Quot(Sub32(p.szVol, Total(p, d)), pau))
  }

  // What a configuration that is settled on satisfies ---------------------------------------------

  function TotalOf(p: Params, c: Config): nat { c.szRsv + AllFats(p.nFat, c.szFat) + c.szDir }

  ghost predicate TypeFits(t: FatType, n: nat) {
    match t
    case FAT12 => n <= MAX_FAT12
    case FAT16 => MAX_FAT12 < n <= MAX_FAT16
    case FAT32 => MAX_FAT16 < n <= MAX_FAT32
  }

  /** The fields fit their places in the boot record and the FAT is large enough for the clusters. */
  ghost predicate Settled(p: Params, c: Config)
    requires ValidParams(p)
  {
    && IsPower(c.pau) && TotalOf(p, c) <= p.szVol && c.nClst == Quot(p.szVol - TotalOf(p, c), c.pau)
    && TypeFits(c.fsty, c.nClst) && 0 < c.szRsv < 0x1_0000 && 0 < c.szFat
    && (if c.fsty == FAT32 then c.szDir == 0 else c.szDir == RootSectors(p) && c.szFat < 0x1_0000)
    && Quot(NeededFatBytes(c.fsty, c.nClst + 2) + p.ss - 1, p.ss) <= c.szFat
    && Rem(p.bVol + TotalOf(p, c), p.szBlk) == 0
  }

  lemma {:induction false} QuotOfPower(x: nat, pau: nat)
    requires IsPower(pau)
    ensures Quot(x, pau) <= x && (x >= 0x100_0000 ==> Quot(x, pau) >= 0x2_0000)
  {
    TimesIsProduct(0x2_0000, pau);
    QuotBelow(pau, x, 0x2_0000);
    QuotBelow(pau, x, x + 1);
    TimesIsProduct(x + 1, pau);
    MulMono(1, pau, x + 1);
  }

  /** Sectors of a FAT of `bytes` bytes. */
  lemma {:induction false} SectorsOf(bytes: nat, ss: nat)
    requires ss in {512, 1024, 2048, 4096}
    ensures var q := Quot(bytes + ss - 1, ss); 512 * q <= bytes + 512 && (bytes > 0 ==> q > 0)
  {
    var q := Quot(bytes + ss - 1, ss);
    QuotRem(bytes + ss - 1, ss);
    if q > 0 {
      assert Times(q, ss) == Times(q - 1, ss) + ss;
      TimesIsProduct(q - 1, ss);
      MulMono(512, ss, q - 1);
    } else {
      assert Times(0, ss) == 0;
    }
  }

  lemma {:induction false} RootBound(p: Params)
    requires ValidParams(p)
    ensures RootSectors(p) <= 2048
  {
    TimesIsProduct(2049, p.ss);
    QuotBelow(p.ss, p.nRoot * 32, 2049);
  }

  /** If the aligned area does not fit, the wrapped count of clusters is far too large. */
  lemma {:induction false} Underflow(szVol: nat, before: nat, gap: nat, pau: nat)
    requires szVol < TWO32 && before <= szVol < before + gap && gap < 0x8000 && IsPower(pau)
    ensures Quot(Sub32(szVol, before + gap), pau) > MAX_FAT16
  {
    var x := Sub32(szVol, before + gap);
    assert x == szVol - (before + gap) + TWO32;
    QuotOfPower(x, pau);
  }

  /** Clusters counted before and after the system area is taken off. */
  lemma {:induction false} ClustersLost(szVol: nat, total: nat, pau: nat)
    requires total <= szVol && pau > 0
    ensures var n, m := Quot(szVol, pau), Quot(szVol - total, pau); m <= n <= m + 1 + total
  {
    var n, m := Quot(szVol, pau), Quot(szVol - total, pau);
    QuotMono(pau, szVol - total, szVol);
    QuotRem(szVol, pau);
    QuotRem(szVol - total, pau);
    assert Times(m + 1, pau) == Times(m, pau) + pau;
    if n > m + 1 + total {
      TimesMono(m + 1 + total, n, pau);
      TimesAdd(m + 1, total, pau);
      TimesIsProduct(total, pau);
      MulMono(1, pau, total);
    }
  }

  /** The plan of a turn that was not given up, aligned. */
  ghost predicate Candidate(p: Params, fsty: FatType, pau: nat, n: nat, c: Plan, d: Plan) {
    && ValidParams(p) && IsPower(pau) && n == Quot(p.szVol, pau) && c == PlanFor(p, fsty, pau, n)
    && !Hopeless(fsty, n) && p.szVol >= Total(p, c) + pau * 16 && d == AlignPlan(p, c)
    && fsty != FAT12
  }

  /** The FAT32 system area always fits. */
  lemma {:induction false} Fat32Fits(p: Params, pau: nat, n: nat, c: Plan, d: Plan)
    requires Candidate(p, FAT32, pau, n, c, d)
    ensures Total(p, d) <= p.szVol && 0 < c.szFat && 0 < d.szRsv < 0x1_0000
  {
    AlignPlanAligns(p, c);
    QuotOfPower(p.szVol, pau);
    WrappedBelow(n * 4 + 8);
    FatSectorsBound(FAT32, n, p.ss);
    Fat32Area(p.szVol, n, p.nFat, c.szFat, Gap(p.bVol + Total(p, c), p.szBlk));
  }

  lemma {:induction false} Fat32Area(szVol: nat, n: nat, nFat: nat, szFat: nat, gap: nat)
    requires MAX_FAT16 < n <= szVol && nFat in {1, 2} && 512 * szFat <= n * 4 + 8 + 512 && gap < 32768
    ensures 32 + AllFats(nFat, szFat) + gap <= szVol
  {
  }

  /** Whatever the type: a turn that ends well had room for the aligned system area. */
  lemma {:induction false} AreaFits(p: Params, szAu: nat, fsty: FatType, pau: nat, n: nat, c: Plan, d: Plan)
    requires Candidate(p, fsty, pau, n, c, d)
    requires Judge(p, szAu, d, Quot(Sub32(p.szVol, Total(p, d)), pau)).Done?
    ensures Total(p, d) <= p.szVol && Sub32(p.szVol, Total(p, d)) == p.szVol - Total(p, d)
  {
    AlignPlanAligns(p, c);
    if fsty == FAT32 {
      Fat32Fits(p, pau, n, c, d);
    } else if Total(p, d) > p.szVol {
      Underflow(p.szVol, Total(p, c), Gap(p.bVol + Total(p, c), p.szBlk), pau);
    }
  }

  /** The FAT16 or FAT12 plan stays within the fields of the boot record. */
  lemma {:induction false} SmallFat(p: Params, fsty: FatType, pau: nat, n: nat, c: Plan, d: Plan, m: nat)
    requires Candidate(p, fsty, pau, n, c, d) && fsty != FAT32
    requires Total(p, d) <= p.szVol && m == Quot(p.szVol - Total(p, d), pau) && m <= MAX_FAT16
    ensures d.szFat < 0x1_0000 && 0 < d.szRsv <= 2 && 0 < c.szFat && n <= 0x2_0000
  {
    AlignPlanAligns(p, c);
    RootBound(p);
    ClustersLost(p.szVol, Total(p, d), pau);
    SmallPlan(p, fsty, pau, n, c);
  }

  lemma {:induction false} SmallPlan(p: Params, fsty: FatType, pau: nat, n: nat, c: Plan)
    requires ValidParams(p) && fsty != FAT32 && c == PlanFor(p, fsty, pau, n)
    ensures 512 * c.szFat <= 2 * n + 4 + 512 && c.szRsv == 1 && c.szDir == RootSectors(p) && c.fsty != FAT32
    ensures n <= 0x2_0000 ==> c.szFat > 0
  {
    FatSectorsBound(FAT16, n, p.ss);
    FatSectorsBound(FAT12, n, p.ss);
    FatBytesBound(n);
  }

  lemma {:induction false} WrappedBelow(x: nat)
    ensures x % TWO32 <= x && (x < TWO32 ==> x % TWO32 == x)
  {
  }

  lemma {:induction false} FatSectorsBound(t: FatType, n: nat, ss: nat)
    requires ss in {512, 1024, 2048, 4096}
    ensures 512 * FatSectors(t, n, ss) <= FatBytes(t, n) + 512
    ensures 0 < FatBytes(t, n) < TWO32 - 4096 ==> FatSectors(t, n, ss) > 0
  {
    var b := FatBytes(t, n);
    WrappedBelow(b + ss - 1);
    var y := (b + ss - 1) % TWO32;
    if y >= ss - 1 {
      SectorsOf(y - (ss - 1), ss);
    } else {
      assert Quot(y, ss) == 0;
    }
  }

  lemma {:induction false} FatBytesBound(n: nat)
    ensures FatBytes(FAT16, n) <= 2 * n + 4 && FatBytes(FAT12, n) <= 2 * n + 4
    ensures n <= 0x2_0000 ==> FatBytes(FAT16, n) == 2 * n + 4
  {
    WrappedBelow(n * 2 + 4);
  }

  lemma {:induction false} Needed12(n: nat, m: nat)
    requires m <= n <= MAX_FAT32
    ensures NeededFatBytes(FAT12, m + 2) <= FatBytes(FAT12, n) < TWO32 - 4096
  {
    var h, k := (n * 3 + 1) / 2, m / 2;
    assert (m + 2) / 2 == k + 1 && (m + 2) * 3 / 2 == m + 2 + k + 1;
    assert h >= m + k + (m - 2 * k);
  }

  lemma {:induction false} NeededBelow(t: FatType, n: nat, m: nat)
    requires m <= n <= MAX_FAT32
    ensures NeededFatBytes(t, m + 2) <= FatBytes(t, n) < TWO32 - 4096
  {
    match t
    case FAT12 => Needed12(n, m);
    case FAT16 => WrappedBelow(n * 2 + 4);
    case FAT32 => WrappedBelow(n * 4 + 8);
  }

  /** The FAT laid out for n clusters is large enough for the m <= n that remain. */
  lemma {:induction false} LargeEnough(t: FatType, n: nat, m: nat, ss: nat)
    requires ss in {512, 1024, 2048, 4096} && m <= n <= MAX_FAT32
    ensures Quot(NeededFatBytes(t, m + 2) + ss - 1, ss) <= FatSectors(t, n, ss)
  {
    NeededBelow(t, n, m);
    WrappedBelow(FatBytes(t, n) + ss - 1);
    QuotMono(ss, NeededFatBytes(t, m + 2) + ss - 1, FatBytes(t, n) + ss - 1);
  }

  /** The FAT of the plan, as part of the aligned configuration. */
  lemma {:induction false} PlanLargeEnough(p: Params, fsty: FatType, pau: nat, n: nat, c: Plan, d: Plan, m: nat)
    requires Candidate(p, fsty, pau, n, c, d) && Total(p, d) <= p.szVol
    requires m == Quot(p.szVol - Total(p, d), pau) && (fsty == FAT32 || m <= MAX_FAT16)
    ensures m <= n && Quot(NeededFatBytes(c.fsty, m + 2) + p.ss - 1, p.ss) <= d.szFat
  {
    AlignPlanAligns(p, c);
    QuotMono(pau, p.szVol - Total(p, d), p.szVol);
    if fsty != FAT32 {
      SmallFat(p, fsty, pau, n, c, d, m);
    }
    LargeEnough(c.fsty, n, m, p.ss);
  }

  lemma {:induction false} CandidateSettles(p: Params, fsty: FatType, pau: nat, n: nat, c: Plan, d: Plan, m: nat)
    requires Candidate(p, fsty, pau, n, c, d) && Total(p, d) <= p.szVol
    requires m == Quot(p.szVol - Total(p, d), pau) && TypeFits(d.fsty, m)
    ensures Settled(p, Config(d.fsty, pau, d.szRsv, d.szFat, d.szDir, m))
  {
    AlignPlanAligns(p, c);
    PlanLargeEnough(p, fsty, pau, n, c, d, m);
    if fsty == FAT32 {
      Fat32Fits(p, pau, n, c, d);
    } else {
      SmallFat(p, fsty, pau, n, c, d, m);
    }
  }

  lemma {:induction false} JudgedFits(p: Params, szAu: nat, fsty: FatType, pau: nat, n: nat, c: Plan, d: Plan, m: nat)
    requires Candidate(p, fsty, pau, n, c, d) && Total(p, d) <= p.szVol
    requires m == Quot(p.szVol - Total(p, d), pau) && Judge(p, szAu, d, m).Done?
    ensures TypeFits(d.fsty, m) && Judge(p, szAu, d, m).c == Config(d.fsty, pau, d.szRsv, d.szFat, d.szDir, m)
  {
    QuotMono(pau, p.szVol - Total(p, d), p.szVol);
  }

  /** A turn that ends well settles the configuration. */
  lemma {:induction false} TurnSettles(p: Params, szAu: nat, fsty: FatType, pau: nat)
    requires ValidParams(p) && IsPower(pau) && fsty != FAT12 && TurnFor(p, szAu, fsty, pau).Done?
    ensures Settled(p, TurnFor(p, szAu, fsty, pau).c)
  {
    var n := Quot(p.szVol, pau);
    var c := PlanFor(p, fsty, pau, n);
    var d := AlignPlan(p, c);
    AreaFits(p, szAu, fsty, pau, n, c, d);
    var m := Quot(p.szVol - Total(p, d), pau);
    JudgedFits(p, szAu, fsty, pau, n, c, d, m);
    CandidateSettles(p, fsty, pau, n, c, d, m);
  }

  /** Turns left: each retry fixes the cluster size or goes over to FAT32. */
  function TurnsLeft(szAu: nat, fsty: FatType): nat {
    (if szAu == 0 then 1 else 0) + if fsty == FAT16 then 1 else 0
  }

  lemma {:induction false} RetryProgress(p: Params, szAu: nat, fsty: FatType, pau: nat)
    requires ValidParams(p) && IsPower(pau) && fsty != FAT12 && TurnFor(p, szAu, fsty, pau).Retry?
    requires szAu == 0 || (IsPower(szAu) && pau == szAu)
    ensures var t := TurnFor(p, szAu, fsty, pau);
            && TurnsLeft(t.szAu, t.fsty) < TurnsLeft(szAu, fsty) && t.fsty != FAT12
            && (t.szAu == 0 || IsPower(t.szAu))
  {
  }

  /** The last turn of the loop. */
  ghost function LastTurn(p: Params, szAu: nat, fsty: FatType): (t: (nat, FatType))
    requires ValidParams(p) && (szAu == 0 || IsPower(szAu)) && fsty != FAT12
    ensures (t.0 == 0 || IsPower(t.0)) && t.1 != FAT12 && !TurnFor(p, t.0, t.1, TurnSize(p, t.0, t.1)).Retry?
    decreases TurnsLeft(szAu, fsty)
  {
    var t := TurnFor(p, szAu, fsty, TurnSize(p, szAu, fsty));
    if t.Retry? then RetryProgress(p, szAu, fsty, TurnSize(p, szAu, fsty)); LastTurn(p, t.szAu, t.fsty) else (szAu, fsty)
  }

  /** How f_mkfs ends. */
  ghost function Outcome(p: Params, szAu: nat, fsty: FatType): (t: Turn)
    requires ValidParams(p) && (szAu == 0 || IsPower(szAu)) && fsty != FAT12
    ensures !t.Retry?
  {
    var l := LastTurn(p, szAu, fsty);
    TurnFor(p, l.0, l.1, TurnSize(p, l.0, l.1))
  }

  /** The loop of f_mkfs: it ends after at most three turns. */
  method Settle(p: Params, auSize: nat, type0: FatType) returns (t: Turn, ghost turns: nat)
    requires ValidParams(p) && (auSize == 0 || IsPower(auSize)) && type0 != FAT12
    ensures t == Outcome(p, auSize, type0) && 1 <= turns <= 1 + TurnsLeft(auSize, type0) <= 3
    ensures t.Done? ==> Settled(p, t.c)
  {
    var szAu, fsty := auSize, type0;
    turns := 0;
    while true
      invariant (szAu == 0 || IsPower(szAu)) && fsty != FAT12 && turns + TurnsLeft(szAu, fsty) <= TurnsLeft(auSize, type0)
      invariant LastTurn(p, szAu, fsty) == LastTurn(p, auSize, type0)
      decreases TurnsLeft(szAu, fsty)
    {
      ghost var pau := TurnSize(p, szAu, fsty);
      t := TryConfig(p, szAu, fsty);
      turns := turns + 1;
      if t.Retry? {
        RetryProgress(p, szAu, fsty, pau);
        szAu, fsty := t.szAu, t.fsty;
      } else {
        if t.Done? {
          TurnSettles(p, szAu, fsty, pau);
        }
        return;
      }
    }
  }

  /** A cluster size suits a type: room for sixteen clusters, and a number of clusters of the type. */
  ghost predicate Suits(p: Params, fsty: FatType, pau: nat)
    requires ValidParams(p) && IsPower(pau)
  {
    var n := Quot(p.szVol, pau);
    var c := PlanFor(p, fsty, pau, n);
    var d := AlignPlan(p, c);
    && !Hopeless(fsty, n) && p.szVol >= Total(p, c) + pau * 16 && Total(p, d) <= p.szVol
    && TypeFits(d.fsty, Quot(p.szVol - Total(p, d), pau))
  }

  lemma {:induction false} SuitsDone(p: Params, szAu: nat, fsty: FatType, pau: nat)
    requires ValidParams(p) && IsPower(pau) && fsty != FAT12 && Suits(p, fsty, pau)
    ensures TurnFor(p, szAu, fsty, pau).Done?
  {
    var n := Quot(p.szVol, pau);
    var d := AlignPlan(p, PlanFor(p, fsty, pau, n));
    Difference(p.szVol, Total(p, d));
    FitIsDone(p, szAu, d, Quot(p.szVol - Total(p, d), pau));
  }

  lemma {:induction false} Difference(x: nat, y: nat)
    requires y <= x < TWO32
    ensures Sub32(x, y) == x - y
  {
  }

  lemma {:induction false} FitIsDone(p: Params, szAu: nat, d: Plan, m: nat)
    requires TypeFits(d.fsty, m)
    ensures Judge(p, szAu, d, m).Done?
  {
  }

  /** The parts of a turn that ends well. */
  lemma {:induction false} DoneParts(p: Params, szAu: nat, fsty: FatType, pau: nat, n: nat, c: Plan, d: Plan)
    requires ValidParams(p) && IsPower(pau) && fsty != FAT12 && TurnFor(p, szAu, fsty, pau).Done?
    requires n == Quot(p.szVol, pau) && c == PlanFor(p, fsty, pau, n) && d == AlignPlan(p, c)
    ensures Candidate(p, fsty, pau, n, c, d) && Total(p, d) <= p.szVol
    ensures var m := Quot(p.szVol - Total(p, d), pau);
            TypeFits(d.fsty, m) && TurnFor(p, szAu, fsty, pau).c == Config(d.fsty, pau, d.szRsv, d.szFat, d.szDir, m)
  {
    AreaFits(p, szAu, fsty, pau, n, c, d);
    JudgedFits(p, szAu, fsty, pau, n, c, d, Quot(p.szVol - Total(p, d), pau));
  }

  /** A turn ends well exactly if its cluster size suits its type, whatever the turns before. */
  lemma {:induction false} DoneExactly(p: Params, szAu: nat, fsty: FatType, pau: nat)
    requires ValidParams(p) && IsPower(pau) && fsty != FAT12
    ensures TurnFor(p, szAu, fsty, pau).Done? <==> Suits(p, fsty, pau)
  {
    if Suits(p, fsty, pau) {
      SuitsDone(p, szAu, fsty, pau);
    } else if TurnFor(p, szAu, fsty, pau).Done? {
      DoneSuits(p, szAu, fsty, pau);
    }
  }

  lemma {:induction false} DoneSuits(p: Params, szAu: nat, fsty: FatType, pau: nat)
    requires ValidParams(p) && IsPower(pau) && fsty != FAT12 && TurnFor(p, szAu, fsty, pau).Done?
    ensures Suits(p, fsty, pau)
  {
    var n := Quot(p.szVol, pau);
    var c := PlanFor(p, fsty, pau, n);
    DoneParts(p, szAu, fsty, pau, n, c, AlignPlan(p, c));
  }

  /** A cluster is left behind the aligned system area, as the options and the volume tell before. */
  ghost predicate ClusterLeft(p: Params, fsty: FatType, pau: nat)
    requires ValidParams(p) && IsPower(pau)
  {
    var c := PlanFor(p, fsty, pau, Quot(p.szVol, pau));
    p.szVol >= Total(p, c) + Gap(p.bVol + Total(p, c), p.szBlk) + pau
  }

  /** Where a turn ends well, its configuration has a cluster exactly if one is left. */
  lemma {:induction false} ClustersExactly(p: Params, szAu: nat, fsty: FatType, pau: nat)
    requires ValidParams(p) && IsPower(pau) && fsty != FAT12 && TurnFor(p, szAu, fsty, pau).Done?
    ensures TurnFor(p, szAu, fsty, pau).c.nClst > 0 <==> ClusterLeft(p, fsty, pau)
  {
    var c := PlanFor(p, fsty, pau, Quot(p.szVol, pau));
    var total, gap := Total(p, c), Gap(p.bVol + Total(p, c), p.szBlk);
    DoneClusters(p, szAu, fsty, pau, c, total, gap);
    AtLeastOne(p.szVol - (total + gap), pau);
    LeftMeans(p, fsty, pau, total, gap);
  }

  lemma {:induction false} LeftMeans(p: Params, fsty: FatType, pau: nat, total: nat, gap: nat)
    requires ValidParams(p) && IsPower(pau)
    requires total == Total(p, PlanFor(p, fsty, pau, Quot(p.szVol, pau))) && gap == Gap(p.bVol + total, p.szBlk)
    ensures ClusterLeft(p, fsty, pau) <==> p.szVol - (total + gap) >= pau
  {
  }

  lemma {:induction false} DoneClusters(p: Params, szAu: nat, fsty: FatType, pau: nat, c: Plan, total: nat, gap: nat)
    requires ValidParams(p) && IsPower(pau) && fsty != FAT12 && TurnFor(p, szAu, fsty, pau).Done?
    requires c == PlanFor(p, fsty, pau, Quot(p.szVol, pau)) && total == Total(p, c) && gap == Gap(p.bVol + total, p.szBlk)
    ensures total + gap <= p.szVol && TurnFor(p, szAu, fsty, pau).c.nClst == Quot(p.szVol - (total + gap), pau)
  {
    DoneParts(p, szAu, fsty, pau, Quot(p.szVol, pau), c, AlignPlan(p, c));
    AlignPlanAligns(p, c);
  }

  /** Blocks of up to sixteen sectors always leave one. */
  lemma {:induction false} SmallBlocks(p: Params, fsty: FatType, pau: nat)
    requires ValidParams(p) && IsPower(pau) && Suits(p, fsty, pau) && p.szBlk <= 16
    ensures ClusterLeft(p, fsty, pau)
  {
    GapCloses(p.bVol + Total(p, PlanFor(p, fsty, pau, Quot(p.szVol, pau))), p.szBlk);
  }

  lemma {:induction false} AtLeastOne(x: nat, d: nat)
    requires d > 0
    ensures Quot(x, d) > 0 <==> x >= d
  {
  }

  // The boot record and mount_volume -------------------------------------------------------------

  /** The fields of the boot record that hold the layout. */
  datatype BootRecord = BootRecord(bytsPerSec: nat, secPerClus: nat, rsvdSecCnt: nat, numFats: nat, rootEntCnt: nat,
                                   totSec16: nat, totSec32: nat, fatSz16: nat, fatSz32: nat, fsVer32: nat)

  /** The record f_mkfs writes; fields of 8 and 16 bits take the value modulo their range. */
  function RecordOf(p: Params, c: Config): BootRecord {
    BootRecord(p.ss, c.pau % 256, c.szRsv % 0x1_0000, p.nFat % 256,
               if c.fsty == FAT32 then 0 else p.nRoot % 0x1_0000,
               if p.szVol < 0x1_0000 then p.szVol else 0, if p.szVol < 0x1_0000 then 0 else p.szVol,
               if c.fsty == FAT32 then 0 else c.szFat % 0x1_0000, if c.fsty == FAT32 then c.szFat else 0, 0)
  }

  datatype MountResult = Mounted(g: Layout) | NoFilesystem

  function TypeOf(nclst: nat): FatType {
    if nclst <= MAX_FAT12 then FAT12 else if nclst <= MAX_FAT16 then FAT16 else FAT32
  }

  /**
   * The FAT part of mount_volume, for a record found at sector bsect of a device with sectors of
   * ss bytes: the result in plain arithmetic, and the numbers of clusters at which the type changes.
   */
  method Mount(v: BootRecord, bsect: nat, ss: nat) returns (r: MountResult)
    requires ss in {512, 1024, 2048, 4096}
    ensures r == MountSpec(v, bsect, ss)
    ensures r == PlainMount(v, bsect, ss)
    ensures r.Mounted? ==>
              var n := r.g.nFatent - 2;
              && (r.g.fsType == FAT12 <==> n <= 4085) && (r.g.fsType == FAT16 <==> 4086 <= n <= 65525)
              && (r.g.fsType == FAT32 <==> 65526 <= n)
  {
    MountPlain(v, bsect, ss);
    r := MountRecord(v, bsect, ss);
  }

  /** Its steps on the fields of the record. */
  method MountRecord(v: BootRecord, bsect: nat, ss: nat) returns (r: MountResult)
    requires ss in {512, 1024, 2048, 4096}
    ensures r == MountSpec(v, bsect, ss)
  {
    if v.bytsPerSec != ss {
      return NoFilesystem;
    }
    var fsize := if v.fatSz16 == 0 then v.fatSz32 else v.fatSz16;
    if v.numFats != 1 && v.numFats != 2 {
      return NoFilesystem;
    }
    var fasize := AllFats(v.numFats, fsize) % TWO32;
    if !IsPower(v.secPerClus) {
      return NoFilesystem;
    }
    if Rem(v.rootEntCnt, ss / 32) != 0 {
      return NoFilesystem;
    }
    var tsect := if v.totSec16 == 0 then v.totSec32 else v.totSec16;
    if v.rsvdSecCnt == 0 {
      return NoFilesystem;
    }
    var sysect := (v.rsvdSecCnt + fasize + Quot(v.rootEntCnt, ss / 32)) % TWO32;
    if tsect < sysect {
      return NoFilesystem;
    }
    var nclst := Quot(tsect - sysect, v.secPerClus);
    r := MountClusters(v, bsect, ss, fsize, sysect, nclst);
  }

  /** The part of mount_volume that knows the number of clusters. */
  method MountClusters(v: BootRecord, bsect: nat, ss: nat, fsize: nat, sysect: nat, nclst: nat) returns (r: MountResult)
    requires ss in {512, 1024, 2048, 4096}
    ensures r == ClustersSpec(v, bsect, ss, fsize, sysect, nclst)
  {
    if nclst == 0 || nclst > MAX_FAT32 {
      return NoFilesystem;
    }
    var fmt := TypeOf(nclst);
    if fmt == FAT32 {
      if v.fsVer32 != 0 || v.rootEntCnt != 0 {
        return NoFilesystem;
      }
    } else if v.rootEntCnt == 0 {
      return NoFilesystem;
    }
    if fsize < Quot(NeededFatBytes(fmt, nclst + 2) + ss - 1, ss) {
      return NoFilesystem;
    }
    r := Mounted(Layout(fmt, ss, v.numFats, fsize, bsect + v.rsvdSecCnt, bsect + sysect, v.secPerClus, nclst + 2));
  }

  function MountSpec(v: BootRecord, bsect: nat, ss: nat): MountResult
    requires ss in {512, 1024, 2048, 4096}
  {
    var fsize := if v.fatSz16 == 0 then v.fatSz32 else v.fatSz16;
    var tsect := if v.totSec16 == 0 then v.totSec32 else v.totSec16;
    var sysect := (v.rsvdSecCnt + AllFats(v.numFats, fsize) % TWO32 + Quot(v.rootEntCnt, ss / 32)) % TWO32;
    if v.bytsPerSec != ss || !(v.numFats == 1 || v.numFats == 2) || !IsPower(v.secPerClus)
       || Rem(v.rootEntCnt, ss / 32) != 0 || v.rsvdSecCnt == 0 || tsect < sysect then NoFilesystem
    else
      ClustersSpec(v, bsect, ss, fsize, sysect, Quot(tsect - sysect, v.secPerClus))
  }

  function ClustersSpec(v: BootRecord, bsect: nat, ss: nat, fsize: nat, sysect: nat, nclst: nat): MountResult
    requires ss in {512, 1024, 2048, 4096}
  {
    var fmt := TypeOf(nclst);
    if nclst == 0 || nclst > MAX_FAT32 || (fmt == FAT32 && v.fsVer32 != 0) || (fmt == FAT32 <==> v.rootEntCnt != 0)
       || fsize < Quot(NeededFatBytes(fmt, nclst + 2) + ss - 1, ss) then NoFilesystem
    else Mounted(Layout(fmt, ss, v.numFats, fsize, bsect + v.rsvdSecCnt, bsect + sysect, v.secPerClus, nclst + 2))
  }

  /** Sectors of one FAT, and of the volume. */
  function FatSize(v: BootRecord): nat { if v.fatSz16 == 0 then v.fatSz32 else v.fatSz16 }

  function SectorsOn(v: BootRecord): nat { if v.totSec16 == 0 then v.totSec32 else v.totSec16 }

  /** Sectors before the data area, in 32 bits. */
  function AreaOf(v: BootRecord, ss: nat): nat
    requires ss in {512, 1024, 2048, 4096}
  {
    (v.rsvdSecCnt + v.numFats * FatSize(v) % 0x1_0000_0000 + v.rootEntCnt / (ss / 32)) % 0x1_0000_0000
  }

  /** A record with 1 or 2 FATs that mount_volume accepts, given the size of the system area. */
  predicate AcceptableWith(v: BootRecord, ss: nat, area: nat)
    requires ss in {512, 1024, 2048, 4096}
  {
    && v.bytsPerSec == ss && v.secPerClus in {1, 2, 4, 8, 16, 32, 64, 128}
    && v.rootEntCnt % (ss / 32) == 0 && v.rsvdSecCnt > 0 && area <= SectorsOn(v)
    && FitsClusters(v, ss, (SectorsOn(v) - area) / v.secPerClus)
  }

  /** The number of clusters is allowed, and root directory and FAT suit it. */
  predicate FitsClusters(v: BootRecord, ss: nat, n: int) {
    && 1 <= n <= 268435445
    && (if n <= 65525 then v.rootEntCnt > 0 else v.rootEntCnt == 0 && v.fsVer32 == 0)
    && FatSize(v) * ss >= if n <= 4085 then ((n + 2) * 3 + 1) / 2 else if n <= 65525 then (n + 2) * 2 else (n + 2) * 4
  }

  /** The records mount_volume accepts. */
  predicate Acceptable(v: BootRecord, ss: nat)
    requires ss in {512, 1024, 2048, 4096}
  {
    (v.numFats == 1 || v.numFats == 2) && AcceptableWith(v, ss, AreaOf(v, ss))
  }

  lemma {:induction false} EnoughFat(t: FatType, n: nat, fsize: nat, ss: nat)
    requires ss in {512, 1024, 2048, 4096}
    ensures fsize < Quot(NeededFatBytes(t, n) + ss - 1, ss) <==> fsize * ss < NeededFatBytes(t, n)
  {
    QuotRemAreDivMod(NeededFatBytes(t, n) + ss - 1, ss);
    Rounded(NeededFatBytes(t, n), fsize, ss);
  }

  lemma {:induction false} PlainNeed(n: nat)
    ensures NeededFatBytes(FAT12, n) == (n * 3 + 1) / 2
  {
    Thirds(n, n / 2, n % 2);
  }

  lemma {:induction false} Thirds(n: nat, h: nat, e: nat)
    requires n == 2 * h + e && e < 2
    ensures n * 3 / 2 + e == (n * 3 + 1) / 2
  {
    DivModUnique(2, 3 * h + e, e, n * 3);
    DivModUnique(2, 3 * h + 2 * e, 1 - e, n * 3 + 1);
  }

  lemma {:induction false} Rounded(need: nat, fsize: nat, ss: nat)
    requires ss in {512, 1024, 2048, 4096}
    ensures fsize < (need + ss - 1) / ss <==> fsize * ss < need
  {
    if ss == 512 {
    } else if ss == 1024 {
    } else if ss == 2048 {
    } else {
    }
  }

  /** The layout in an accepted record. */
  function LayoutWith(v: BootRecord, bsect: nat, ss: nat, area: nat): (g: Layout)
    requires ss in {512, 1024, 2048, 4096} && AcceptableWith(v, ss, area)
    ensures var n := g.nFatent - 2;
            (g.fsType == FAT12 <==> n <= 4085) && (g.fsType == FAT16 <==> 4086 <= n <= 65525) && (g.fsType == FAT32 <==> 65526 <= n)
  {
    var n := (SectorsOn(v) - area) / v.secPerClus;
    Layout(if n <= 4085 then FAT12 else if n <= 65525 then FAT16 else FAT32, ss, v.numFats, FatSize(v),
           bsect + v.rsvdSecCnt, bsect + area, v.secPerClus, n + 2)
  }

  /** What mount_volume makes of a record, in plain arithmetic on its fields. */
  function PlainMount(v: BootRecord, bsect: nat, ss: nat): MountResult
    requires ss in {512, 1024, 2048, 4096}
  {
    if Acceptable(v, ss) then Mounted(LayoutWith(v, bsect, ss, AreaOf(v, ss))) else NoFilesystem
  }

  lemma {:induction false} MountPlain(v: BootRecord, bsect: nat, ss: nat)
    requires ss in {512, 1024, 2048, 4096}
    ensures MountSpec(v, bsect, ss) == PlainMount(v, bsect, ss)
  {
    if v.numFats == 1 || v.numFats == 2 {
      AreaPlain(v, ss);
      MountSteps(v, bsect, ss, AreaOf(v, ss));
    }
  }

  lemma {:induction false} MountSteps(v: BootRecord, bsect: nat, ss: nat, area: nat)
    requires ss in {512, 1024, 2048, 4096} && (v.numFats == 1 || v.numFats == 2)
    requires area == (v.rsvdSecCnt + AllFats(v.numFats, FatSize(v)) % TWO32 + Quot(v.rootEntCnt, ss / 32)) % TWO32
    ensures MountSpec(v, bsect, ss) == if AcceptableWith(v, ss, area) then Mounted(LayoutWith(v, bsect, ss, area)) else NoFilesystem
  {
    QuotRemAreDivMod(v.rootEntCnt, ss / 32);
    if area <= SectorsOn(v) && v.secPerClus > 0 {
      var n := Quot(SectorsOn(v) - area, v.secPerClus);
      assert n == (SectorsOn(v) - area) / v.secPerClus by { QuotRemAreDivMod(SectorsOn(v) - area, v.secPerClus); }
      ClustersPlain(v, bsect, ss, FatSize(v), area, n);
    }
  }

  lemma {:induction false} AreaPlain(v: BootRecord, ss: nat)
    requires ss in {512, 1024, 2048, 4096} && (v.numFats == 1 || v.numFats == 2)
    ensures AreaOf(v, ss) == (v.rsvdSecCnt + AllFats(v.numFats, FatSize(v)) % TWO32 + Quot(v.rootEntCnt, ss / 32)) % TWO32
  {
    QuotRemAreDivMod(v.rootEntCnt, ss / 32);
    assert AllFats(v.numFats, FatSize(v)) == v.numFats * FatSize(v);
  }

  lemma {:induction false} ClustersPlain(v: BootRecord, bsect: nat, ss: nat, fsize: nat, sysect: nat, n: nat)
    requires ss in {512, 1024, 2048, 4096} && fsize == FatSize(v)
    ensures ClustersSpec(v, bsect, ss, fsize, sysect, n)
            == if FitsClusters(v, ss, n)
               then Mounted(Layout(if n <= 4085 then FAT12 else if n <= 65525 then FAT16 else FAT32, ss, v.numFats, fsize,
                                   bsect + v.rsvdSecCnt, bsect + sysect, v.secPerClus, n + 2))
               else NoFilesystem
  {
    EnoughFat(TypeOf(n), n + 2, fsize, ss);
    PlainNeed(n + 2);
  }

  /** A floppy disk of 1.44 MB: FAT12 with 2847 clusters. */
  lemma {:induction false} Floppy(bsect: nat)
    ensures PlainMount(BootRecord(512, 1, 1, 2, 224, 2880, 0, 9, 0, 0), bsect, 512)
            == Mounted(Layout(FAT12, 512, 2, 9, bsect + 1, bsect + 33, 1, 2849))
  {
    assert AreaOf(BootRecord(512, 1, 1, 2, 224, 2880, 0, 9, 0, 0), 512) == 33;
  }

  /** The 4086th cluster makes a FAT16 volume, the 65526th a FAT32 volume, without a root directory of its own. */
  lemma {:induction false} TypeChanges(bsect: nat)
    ensures PlainMount(BootRecord(512, 1, 1, 1, 16, 4103, 0, 16, 0, 0), bsect, 512)
            == Mounted(Layout(FAT12, 512, 1, 16, bsect + 1, bsect + 18, 1, 4087))
    ensures PlainMount(BootRecord(512, 1, 1, 1, 16, 4104, 0, 16, 0, 0), bsect, 512)
            == Mounted(Layout(FAT16, 512, 1, 16, bsect + 1, bsect + 18, 1, 4088))
    ensures PlainMount(BootRecord(512, 1, 1, 1, 16, 0, 65783, 256, 0, 0), bsect, 512)
            == Mounted(Layout(FAT16, 512, 1, 256, bsect + 1, bsect + 258, 1, 65527))
    ensures PlainMount(BootRecord(512, 1, 1, 1, 16, 0, 65784, 256, 0, 0), bsect, 512) == NoFilesystem
    ensures PlainMount(BootRecord(512, 1, 32, 1, 0, 0, 66070, 0, 512, 0), bsect, 512)
            == Mounted(Layout(FAT32, 512, 1, 512, bsect + 32, bsect + 544, 1, 65528))
  {
    assert AreaOf(BootRecord(512, 1, 1, 1, 16, 4103, 0, 16, 0, 0), 512) == 18;
    assert AreaOf(BootRecord(512, 1, 1, 1, 16, 0, 65783, 256, 0, 0), 512) == 258;
    assert AreaOf(BootRecord(512, 1, 32, 1, 0, 0, 66070, 0, 512, 0), 512) == 544;
  }

  /** Sectors before the data area, without the wrap of the 32-bit sum. */
  function SystemArea(v: BootRecord, ss: nat): nat
    requires ss in {512, 1024, 2048, 4096}
  {
    v.rsvdSecCnt + AllFats(v.numFats, if v.fatSz16 == 0 then v.fatSz32 else v.fatSz16) + Quot(v.rootEntCnt, ss / 32)
  }

  /**
   * What mount_volume accepts, on a device that holds the volume, is a valid layout exactly if the
   * sum for the system area does not wrap around.
   */
  lemma {:induction false} MountedIsValid(v: BootRecord, bsect: nat, ss: nat, total: nat)
    requires ss in {512, 1024, 2048, 4096} && v.rootEntCnt < 0x1_0000 && MountSpec(v, bsect, ss).Mounted?
    requires bsect + (if v.totSec16 == 0 then v.totSec32 else v.totSec16) <= total < TWO32 - 1
    ensures ValidLayout(MountSpec(v, bsect, ss).g, total) <==> SystemArea(v, ss) < TWO32
  {
    if SystemArea(v, ss) < TWO32 {
      MountedFits(v, bsect, ss, total);
    } else {
      MountedOverlaps(v, bsect, ss, total);
    }
  }

  lemma {:induction false} MountedFits(v: BootRecord, bsect: nat, ss: nat, total: nat)
    requires ss in {512, 1024, 2048, 4096} && MountSpec(v, bsect, ss).Mounted? && SystemArea(v, ss) < TWO32
    requires bsect + (if v.totSec16 == 0 then v.totSec32 else v.totSec16) <= total < TWO32 - 1
    ensures ValidLayout(MountSpec(v, bsect, ss).g, total)
  {
    var fsize := if v.fatSz16 == 0 then v.fatSz32 else v.fatSz16;
    var tsect := if v.totSec16 == 0 then v.totSec32 else v.totSec16;
    var sysect := SystemArea(v, ss);
    WrappedBelow(AllFats(v.numFats, fsize));
    WrappedBelow(sysect);
    QuotMono(v.secPerClus, tsect - sysect, total - (bsect + sysect));
    ClustersValid(v, bsect, ss, fsize, sysect, Quot(tsect - sysect, v.secPerClus), total);
  }

  /** After a wrap the data area starts inside a FAT. */
  lemma {:induction false} MountedOverlaps(v: BootRecord, bsect: nat, ss: nat, total: nat)
    requires ss in {512, 1024, 2048, 4096} && v.rootEntCnt < 0x1_0000 && MountSpec(v, bsect, ss).Mounted?
    requires SystemArea(v, ss) >= TWO32
    ensures var g := MountSpec(v, bsect, ss).g; FatEnd(g) > g.database
  {
    var fsize := if v.fatSz16 == 0 then v.fatSz32 else v.fatSz16;
    QuotRem(v.rootEntCnt, ss / 32);
    TimesIsProduct(Quot(v.rootEntCnt, ss / 32), ss / 32);
    MulMono(1, ss / 32, Quot(v.rootEntCnt, ss / 32));
    WrapOverlaps(v.rsvdSecCnt, AllFats(v.numFats, fsize), Quot(v.rootEntCnt, ss / 32));
  }

  /** Two FATs of 2^31 + 1 sectors each: accepted, with the data area inside the first. */
  lemma {:induction false} WrapAccepted()
    ensures var v := BootRecord(512, 1, 1, 2, 0, 0, 200000, 0, 0x8000_0001, 0);
            MountSpec(v, 0, 512).Mounted? && SystemArea(v, 512) >= TWO32
  {
    Divided(0, 16, 0, 0);
    Divided(200000 - 3, 1, 200000 - 3, 0);
    Divided(799996 + 511, 512, 1563, 251);
  }

  lemma {:induction false} WrapOverlaps(rsvd: nat, fats: nat, root: nat)
    requires rsvd + fats + root >= TWO32 && root < 0x1_0000
    ensures (rsvd + fats % TWO32 + root) % TWO32 < rsvd + fats
  {
  }

  lemma {:induction false} ClustersValid(v: BootRecord, bsect: nat, ss: nat, fsize: nat, sysect: nat, nclst: nat, total: nat)
    requires ss in {512, 1024, 2048, 4096} && v.numFats in {1, 2} && v.rsvdSecCnt > 0 && IsPower(v.secPerClus)
    requires v.rsvdSecCnt + AllFats(v.numFats, fsize) <= sysect && bsect + sysect <= total < TWO32 - 1
    requires nclst <= Quot(total - (bsect + sysect), v.secPerClus)
    requires ClustersSpec(v, bsect, ss, fsize, sysect, nclst).Mounted?
    ensures ValidLayout(ClustersSpec(v, bsect, ss, fsize, sysect, nclst).g, total)
  {
  }

  /** The layout f_mkfs has in mind. */
  function LayoutOf(p: Params, c: Config): Layout {
    Layout(c.fsty, p.ss, p.nFat, c.szFat, p.bVol + c.szRsv, p.bVol + TotalOf(p, c), c.pau, c.nClst + 2)
  }

  /** The record if its fields were wide enough. */
  function UncutRecord(p: Params, c: Config): BootRecord {
    var small := p.szVol < 0x1_0000;
    BootRecord(p.ss, c.pau, c.szRsv, p.nFat, if c.fsty == FAT32 then 0 else p.nRoot,
               if small then p.szVol else 0, if small then 0 else p.szVol,
               if c.fsty == FAT32 then 0 else c.szFat, if c.fsty == FAT32 then c.szFat else 0, 0)
  }

  /** No field of the record is cut off. */
  lemma {:induction false} RecordFields(p: Params, c: Config)
    requires ValidParams(p) && Settled(p, c)
    ensures RecordOf(p, c) == UncutRecord(p, c)
    ensures AllFats(p.nFat, c.szFat) % TWO32 == AllFats(p.nFat, c.szFat) && TotalOf(p, c) % TWO32 == TotalOf(p, c)
  {
    WrappedBelow(AllFats(p.nFat, c.szFat));
    WrappedBelow(TotalOf(p, c));
  }

  lemma {:induction false} TypeOfSettled(p: Params, c: Config)
    requires ValidParams(p) && Settled(p, c)
    ensures TypeOf(c.nClst) == c.fsty && c.nClst <= MAX_FAT32
    ensures c.nClst > 0 <==> p.szVol >= TotalOf(p, c) + c.pau
  {
  }

  /**
   * mount_volume accepts what f_mkfs settled on, with the same type, FAT base, data base and number
   * of clusters, exactly if at least one cluster is left behind the aligned system area.
   */
  lemma {:induction false} MkfsThenMount(p: Params, c: Config)
    requires ValidParams(p) && Settled(p, c)
    ensures MountSpec(RecordOf(p, c), p.bVol, p.ss) == if c.nClst > 0 then Mounted(LayoutOf(p, c)) else NoFilesystem
    ensures c.nClst > 0 <==> p.szVol >= TotalOf(p, c) + c.pau
  {
    RecordFields(p, c);
    TypeOfSettled(p, c);
    UncutMounts(p, c);
  }

  lemma {:induction false} UncutMounts(p: Params, c: Config)
    requires ValidParams(p) && Settled(p, c)
    ensures MountSpec(UncutRecord(p, c), p.bVol, p.ss) == if c.nClst > 0 then Mounted(LayoutOf(p, c)) else NoFilesystem
  {
    WrappedBelow(AllFats(p.nFat, c.szFat));
    WrappedBelow(TotalOf(p, c));
    RootEntries(p);
    UncutClusters(p, c);
  }

  lemma {:induction false} UncutClusters(p: Params, c: Config)
    requires ValidParams(p) && Settled(p, c)
    ensures ClustersSpec(UncutRecord(p, c), p.bVol, p.ss, c.szFat, TotalOf(p, c), c.nClst)
            == if c.nClst > 0 then Mounted(LayoutOf(p, c)) else NoFilesystem
  {
    TypeOfSettled(p, c);
  }

  lemma {:induction false} RootEntries(p: Params)
    requires ValidParams(p)
    ensures Quot(p.nRoot, p.ss / 32) == RootSectors(p) <= 2048
  {
    RootBound(p);
    TimesThirtyTwo(p.nRoot, p.ss / 32);
    assert 32 * (p.ss / 32) == p.ss;
  }

  lemma {:induction false} Divided(x: nat, d: nat, q: nat, r: nat)
    requires r < d && x == q * d + r
    ensures Quot(x, d) == q && Rem(x, d) == r
  {
    TimesIsProduct(q, d);
    QuotUnique(d, q, r, x);
  }

  /**
   * A volume of 1024 sectors aligned to blocks of 1024: f_mkfs settles on a FAT12 volume without
   * a cluster, which mount_volume refuses.
   */
  lemma {:induction false} NothingLeft()
    ensures var p := Params(1024, 0, 512, 1024, 1, 512, true);
            && ValidParams(p) && Outcome(p, 0, FAT16) == Done(Config(FAT12, 1, 1, 991, 32, 0))
            && MountSpec(RecordOf(p, Config(FAT12, 1, 1, 991, 32, 0)), 0, 512) == NoFilesystem
  {
    var p := Params(1024, 0, 512, 1024, 1, 512, true);
    var c := Plan(FAT12, 1, 1, 4, 32);
    Divided(512, 16, 32, 0);
    Divided(1024, 1, 1024, 0);
    Divided(2050, 512, 4, 2);
    Divided(16384, 512, 32, 0);
    assert PlanFor(p, FAT16, 1, 1024) == c;
    Divided(37, 1024, 0, 37);
    assert AlignPlan(p, c) == Plan(FAT12, 1, 1, 991, 32);
    Divided(0, 1, 0, 0);
    TurnSettles(p, 0, FAT16, 1);
    MkfsThenMount(p, Config(FAT12, 1, 1, 991, 32, 0));
  }

  /** Bytes of a FAT for n clusters as f_mkfs reckons. */
  function PlainBytes(t: FatType, n: nat): nat {
    match t
    case FAT12 => (3 * n + 1) / 2 + 3
    case FAT16 => 2 * n + 4
    case FAT32 => 4 * n + 8
  }

  lemma {:induction false} FatPlain(t: FatType, n: nat, ss: nat)
    requires ss in {512, 1024, 2048, 4096} && n <= 0x0FFF_FFF5
    ensures FatSectors(t, n, ss) == (PlainBytes(t, n) + ss - 1) / ss
  {
    assert FatBytes(t, n) == PlainBytes(t, n) < 0x8000_0000;
    SectorsPlain(PlainBytes(t, n), ss);
  }

  lemma {:induction false} SectorsPlain(b: nat, ss: nat)
    requires 0 < ss <= 4096 && b < 0x8000_0000
    ensures Quot((b + ss - 1) % TWO32, ss) == (b + ss - 1) / ss
  {
    WrappedBelow(b + ss - 1);
    QuotRemAreDivMod(b + ss - 1, ss);
  }

  lemma {:induction false} TimesThirtyTwo(x: nat, h: nat)
    requires h > 0
    ensures Quot(32 * x, 32 * h) == Quot(x, h)
  {
    DoubledUnit(x, h);
    DoubledUnit(2 * x, 2 * h);
    DoubledUnit(4 * x, 4 * h);
    DoubledUnit(8 * x, 8 * h);
    DoubledUnit(16 * x, 16 * h);
  }

  lemma {:induction false} FormattedIsValid(p: Params, c: Config)
    requires ValidParams(p) && Settled(p, c)
    ensures c.nClst > 0 ==> ValidLayout(LayoutOf(p, c), p.bVol + p.szVol)
  {
    MkfsThenMount(p, c);
    RecordFields(p, c);
    RootEntries(p);
    if c.nClst > 0 {
      MountedIsValid(RecordOf(p, c), p.bVol, p.ss, p.bVol + p.szVol);
    }
  }

  /** f_mkfs, then mount_volume: the volume is mounted exactly if a cluster is left in the last turn. */
  method FormatAndMount(p: Params, auSize: nat, type0: FatType) returns (done: bool, r: MountResult)
    requires ValidParams(p) && (auSize == 0 || IsPower(auSize)) && type0 != FAT12
    ensures var l := LastTurn(p, auSize, type0);
            var pau := TurnSize(p, l.0, l.1);
            && (done <==> Suits(p, l.1, pau))
            && (r.Mounted? <==> done && ClusterLeft(p, l.1, pau))
    ensures done <==> Outcome(p, auSize, type0).Done?
    ensures done && r.Mounted? ==> r.g == LayoutOf(p, Outcome(p, auSize, type0).c) && ValidLayout(r.g, p.bVol + p.szVol)
    ensures done && p.szBlk <= 16 ==> r.Mounted?
  {
    ghost var l := LastTurn(p, auSize, type0);
    ghost var pau := TurnSize(p, l.0, l.1);
    DoneExactly(p, l.0, l.1, pau);
    r := NoFilesystem;
    var t, _ := Settle(p, auSize, type0);
    done := t.Done?;
    if done {
      ClustersExactly(p, l.0, l.1, pau);
      if p.szBlk <= 16 {
        SmallBlocks(p, l.1, pau);
      }
      r := MountFormatted(p, t.c);
    }
  }

  method MountFormatted(p: Params, c: Config) returns (r: MountResult)
    requires ValidParams(p) && Settled(p, c)
    ensures r == if c.nClst > 0 then Mounted(LayoutOf(p, c)) else NoFilesystem
    ensures r.Mounted? ==> ValidLayout(r.g, p.bVol + p.szVol)
  {
    MkfsThenMount(p, c);
    r := Mount(RecordOf(p, c), p.bVol, p.ss);
    FormattedIsValid(p, c);
  }

  // Formatting with automatic cluster size ---------------------------------------------------------

  /** n is x divided by the cluster size, written out for each size. */
  predicate Counts(x: nat, pau: nat, n: nat) {
    match pau
    case 1 => n == x
    case 2 => 2 * n <= x < 2 * n + 2
    case 4 => 4 * n <= x < 4 * n + 4
    case 8 => 8 * n <= x < 8 * n + 8
    case 16 => 16 * n <= x < 16 * n + 16
    case 32 => 32 * n <= x < 32 * n + 32
    case 64 => 64 * n <= x < 64 * n + 64
    case 128 => 128 * n <= x < 128 * n + 128
    case _ => false
  }

  lemma {:induction false} QuotCounts(x: nat, pau: nat)
    requires IsPower(pau)
    ensures Counts(x, pau, Quot(x, pau))
  {
    QuotRem(x, pau);
    TimesIsProduct(Quot(x, pau), pau);
  }

  /** The volume has at least 1024 clusters, or clusters of one sector. */
  predicate Roomy(szVol: nat, pau: nat) {
    match pau
    case 1 => szVol >= 128
    case 2 => szVol >= 0x800
    case 4 => szVol >= 0x1000
    case 8 => szVol >= 0x2000
    case 16 => szVol >= 0x4000
    case 32 => szVol >= 0x8000
    case 64 => szVol >= 0x1_0000
    case 128 => szVol >= 0x2_0000
    case _ => false
  }

  /** The options by default: small blocks, a root directory of at most 32 sectors, both types allowed. */
  ghost predicate Plain(p: Params) {
    ValidParams(p) && p.szBlk <= 16 && RootSectors(p) <= 32 && p.fat32
  }

  /** The system area is at most 35 sectors and the 128th part, or for FAT32 the 64th part, of the clusters. */
  lemma {:induction false} AreaBound(p: Params, fsty: FatType, pau: nat, n: nat)
    requires Plain(p) && fsty != FAT12 && n <= MAX_FAT32
    ensures var c := PlanFor(p, fsty, pau, n);
            256 * Total(p, c) <= if fsty == FAT32 then 8712 + 4 * n else 8964 + 2 * n
  {
    FatSectorsBound(FAT32, n, p.ss);
    FatSectorsBound(FAT16, n, p.ss);
    FatSectorsBound(FAT12, n, p.ss);
    FatBytesBound(n);
    WrappedBelow(n * 4 + 8);
  }

  lemma {:induction false} RoomBound(szVol: nat, pau: nat, n: nat, total: nat, gap: nat)
    requires Counts(szVol, pau, n) && Roomy(szVol, pau) && gap < 16
    requires 256 * total <= 8964 + 4 * n
    ensures szVol >= total + pau * 16 && total + gap <= szVol
  {
  }

  /** A turn has room, and so comes down to the number of clusters it leaves. */
  lemma {:induction false} PlainTurn(p: Params, szAu: nat, fsty: FatType, pau: nat, n: nat, c: Plan, total: nat)
    returns (m: nat)
    requires Plain(p) && IsPower(pau) && fsty != FAT12 && Roomy(p.szVol, pau)
    requires n == Quot(p.szVol, pau) && n <= MAX_FAT32 && !Hopeless(fsty, n)
    requires c == PlanFor(p, fsty, pau, n) && total == Total(p, AlignPlan(p, c))
    ensures Counts(p.szVol, pau, n) && total <= p.szVol && Counts(p.szVol - total, pau, m)
    ensures 256 * total <= 15 * 256 + if fsty == FAT32 then 8712 + 4 * n else 8964 + 2 * n
    ensures TurnFor(p, szAu, fsty, pau) == Judge(p, szAu, AlignPlan(p, c), m)
    ensures AlignPlan(p, c).pau == pau && AlignPlan(p, c).fsty == if fsty == FAT32 then FAT32 else if n > MAX_FAT12 then fsty else FAT12
  {
    QuotCounts(p.szVol, pau);
    PlainArea(p, fsty, pau, n, c, Total(p, c), total);
    m := Quot(p.szVol - total, pau);
    QuotCounts(p.szVol - total, pau);
    TurnWithRoom(p, szAu, fsty, pau, n, c, total);
    PlanType(p, fsty, pau, n, c);
  }

  lemma {:induction false} TurnWithRoom(p: Params, szAu: nat, fsty: FatType, pau: nat, n: nat, c: Plan, total: nat)
    requires ValidParams(p) && IsPower(pau) && !Hopeless(fsty, n) && n == Quot(p.szVol, pau)
    requires c == PlanFor(p, fsty, pau, n) && total == Total(p, AlignPlan(p, c))
    requires p.szVol >= Total(p, c) + pau * 16 && total <= p.szVol
    ensures TurnFor(p, szAu, fsty, pau) == Judge(p, szAu, AlignPlan(p, c), Quot(p.szVol - total, pau))
  {
    Difference(p.szVol, total);
  }

  lemma {:induction false} PlanType(p: Params, fsty: FatType, pau: nat, n: nat, c: Plan)
    requires ValidParams(p) && c == PlanFor(p, fsty, pau, n)
    ensures AlignPlan(p, c).pau == pau && AlignPlan(p, c).fsty == if fsty == FAT32 then FAT32 else if n > MAX_FAT12 then fsty else FAT12
  {
    AlignPlanAligns(p, c);
  }

  lemma {:induction false} PlainArea(p: Params, fsty: FatType, pau: nat, n: nat, c: Plan, before: nat, total: nat)
    requires Plain(p) && IsPower(pau) && fsty != FAT12 && Roomy(p.szVol, pau) && n <= MAX_FAT32 && Counts(p.szVol, pau, n)
    requires c == PlanFor(p, fsty, pau, n) && before == Total(p, c) && total == Total(p, AlignPlan(p, c))
    ensures p.szVol >= before + pau * 16 && total <= p.szVol
    ensures 256 * total <= 15 * 256 + if fsty == FAT32 then 8712 + 4 * n else 8964 + 2 * n
  {
    AreaBound(p, fsty, pau, n);
    AlignPlanAligns(p, c);
    RoomBound(p.szVol, pau, n, before, total - before);
  }

  /** A turn that asks for another one ends as that one does. */
  lemma {:induction false} OutcomeOn(p: Params, szAu: nat, fsty: FatType)
    requires ValidParams(p) && (szAu == 0 || IsPower(szAu)) && fsty != FAT12
    ensures var t := TurnFor(p, szAu, fsty, TurnSize(p, szAu, fsty));
            if t.Retry? then (t.szAu == 0 || IsPower(t.szAu)) && t.fsty != FAT12 && Outcome(p, szAu, fsty) == Outcome(p, t.szAu, t.fsty)
            else Outcome(p, szAu, fsty) == t
  {
    if TurnFor(p, szAu, fsty, TurnSize(p, szAu, fsty)).Retry? {
      RetryProgress(p, szAu, fsty, TurnSize(p, szAu, fsty));
    }
  }

  lemma {:induction false} ByOne(x: nat)
    ensures Quot(x, 1) == x && Rem(x, 1) == 0
  {
    QuotRem(x, 1);
    TimesIsProduct(Quot(x, 1), 1);
  }

  /** Formatting up to 4085 sectors without alignment, in plain arithmetic: FAT12 with clusters of one sector. */
  lemma {:induction false} FormatSmall(p: Params, f: nat, r: nat)
    requires ValidParams(p) && p.szVol <= 4085 && p.szBlk == 1
    requires f == (PlainBytes(FAT12, p.szVol) + p.ss - 1) / p.ss && r == 32 * p.nRoot / p.ss
    ensures var used := 1 + (if p.nFat == 2 then 2 * f else f) + r;
            Outcome(p, 0, FAT16) == if p.szVol < used + 16 then Abort else Done(Config(FAT12, 1, 1, f, r, p.szVol - used))
  {
    FatPlain(FAT12, p.szVol, p.ss);
    QuotRemAreDivMod(p.nRoot * 32, p.ss);
    SmallTurn(p, f, r);
  }

  /** The areas planned for more clusters. */
  lemma {:induction false} LargePlans(p: Params, pau: nat, n: nat, f: nat, r: nat)
    requires ValidParams(p) && 4085 < n <= 0x0FFF_FFF5 && r == 32 * p.nRoot / p.ss
    ensures f == (PlainBytes(FAT16, n) + p.ss - 1) / p.ss ==> PlanFor(p, FAT16, pau, n) == Plan(FAT16, pau, 1, f, r)
    ensures f == (PlainBytes(FAT32, n) + p.ss - 1) / p.ss ==> PlanFor(p, FAT32, pau, n) == Plan(FAT32, pau, 32, f, 0)
  {
    FatPlain(FAT16, n, p.ss);
    FatPlain(FAT32, n, p.ss);
    QuotRemAreDivMod(p.nRoot * 32, p.ss);
  }

  lemma {:induction false} SmallTurn(p: Params, f: nat, r: nat)
    requires ValidParams(p) && p.szVol <= 4085 && p.szBlk == 1 && f == FatSectors(FAT12, p.szVol, p.ss) && r == RootSectors(p)
    ensures var used := 1 + AllFats(p.nFat, f) + r;
            Outcome(p, 0, FAT16) == if p.szVol < used + 16 then Abort else Done(Config(FAT12, 1, 1, f, r, p.szVol - used))
  {
    OutcomeOn(p, 0, FAT16);
    var c := Plan(FAT12, 1, 1, f, r);
    ByOne(p.szVol);
    assert PlanFor(p, FAT16, 1, p.szVol) == c;
    ByOne(p.bVol + Total(p, c));
    assert AlignPlan(p, c) == c;
    if p.szVol >= Total(p, c) {
      ByOne(p.szVol - Total(p, c));
      Difference(p.szVol, Total(p, c));
    }
  }

  /** Twice the cluster size after too few or too many clusters. */
  lemma {:induction false} SecondTurn(p: Params, pau: nat, n: nat, total: nat, m: nat)
    requires Plain(p) && IsPower(pau) && pau <= 64 && Counts(p.szVol, pau, n) && total <= p.szVol && Counts(p.szVol - total, pau, m)
    requires n > MAX_FAT12 && 256 * total <= 15 * 256 + 8964 + 2 * n
    requires m <= MAX_FAT12 || (m > MAX_FAT16 && n < 0x1_0000)
    ensures Outcome(p, 2 * pau, FAT16).Done?
  {
    var n2 := Quot(p.szVol, 2 * pau);
    QuotCounts(p.szVol, 2 * pau);
    Doubled(p.szVol, pau, n, total, m, n2);
    FixedTurn(p, 2 * pau, n2);
  }

  /** A cluster size with few enough clusters for FAT12, or amply many for FAT16. */
  lemma {:induction false} FixedTurn(p: Params, pau: nat, n: nat)
    requires Plain(p) && IsPower(pau) && Roomy(p.szVol, pau) && n == Quot(p.szVol, pau)
    requires n <= MAX_FAT12 || 32000 < n <= MAX_FAT16
    ensures Outcome(p, pau, FAT16).Done?
  {
    var d := AlignPlan(p, PlanFor(p, FAT16, pau, n));
    var m := PlainTurn(p, pau, FAT16, pau, n, PlanFor(p, FAT16, pau, n), Total(p, d));
    FixedFits(p.szVol, pau, n, Total(p, d), m);
    FitIsDone(p, pau, d, m);
    OutcomeOn(p, pau, FAT16);
  }

  lemma {:induction false} Doubled(szVol: nat, pau: nat, n: nat, total: nat, m: nat, n2: nat)
    requires IsPower(pau) && pau <= 64 && Counts(szVol, pau, n) && Counts(szVol, 2 * pau, n2) && n > MAX_FAT12
    requires total <= szVol && Counts(szVol - total, pau, m) && 256 * total <= 15 * 256 + 8964 + 2 * n
    requires m <= MAX_FAT12 || (m > MAX_FAT16 && n < 0x1_0000)
    ensures Roomy(szVol, 2 * pau) && n2 <= MAX_FAT16
    ensures if m <= MAX_FAT12 then n2 <= MAX_FAT12 else n2 > 32000
  {
  }

  lemma {:induction false} FixedFits(szVol: nat, pau: nat, n: nat, total: nat, m: nat)
    requires IsPower(pau) && Counts(szVol, pau, n) && n <= MAX_FAT16
    requires total <= szVol && Counts(szVol - total, pau, m) && 256 * total <= 15 * 256 + 8964 + 2 * n
    ensures m <= n && (n > 32000 ==> m > MAX_FAT12)
  {
  }

  /** FAT32 with a cluster size that leaves more clusters than FAT16 can have. */
  lemma {:induction false} BigTurn(p: Params, szAu: nat, pau: nat)
    requires Plain(p) && IsPower(pau) && pau in {32, 64} && TurnSize(p, szAu, FAT32) == pau && (szAu == 0 || szAu == pau == 32)
    requires p.szVol >= 65526 * 64 && (pau == 64 ==> p.szVol >= 65536 * 64)
    ensures Outcome(p, szAu, FAT32).Done? || (pau == 64 && szAu == 0 && Outcome(p, szAu, FAT32) == Outcome(p, 32, FAT32))
    ensures pau == 32 ==> Outcome(p, szAu, FAT32).Done?
  {
    var n := Quot(p.szVol, pau);
    var c := PlanFor(p, FAT32, pau, n);
    QuotCounts(p.szVol, pau);
    var m := PlainTurn(p, szAu, FAT32, pau, n, c, Total(p, AlignPlan(p, c)));
    if pau == 32 {
      BigFits(p.szVol, n, Total(p, AlignPlan(p, c)), m);
    }
    OutcomeOn(p, szAu, FAT32);
  }

  lemma {:induction false} BigFits(szVol: nat, n: nat, total: nat, m: nat)
    requires szVol >= 65526 * 64 && Counts(szVol, 32, n) && total <= szVol && Counts(szVol - total, 32, m)
    requires 256 * total <= 15 * 256 + 8712 + 4 * n
    ensures m > MAX_FAT16
  {
  }

  /**
   * With automatic cluster size, both types allowed, alignment of at most sixteen sectors and a
   * root directory of at most 32, f_mkfs succeeds on every volume of at least 128 sectors.
   */
  lemma {:induction false} PlainSucceeds(p: Params)
    requires Plain(p)
    ensures Outcome(p, 0, FAT16).Done?
  {
    var pau := TableSize(FAT16, p.szVol);
    var n := Quot(p.szVol, pau);
    var c := PlanFor(p, FAT16, pau, n);
    var total := Total(p, AlignPlan(p, c));
    QuotCounts(p.szVol, pau);
    FirstSize(p.szVol, pau, n);
    var m := PlainTurn(p, 0, FAT16, pau, n, c, total);
    PlainEnds(p, pau, n, AlignPlan(p, c), total, m);
  }

  /** The turns after the first one. */
  lemma {:induction false} PlainEnds(p: Params, pau: nat, n: nat, d: Plan, total: nat, m: nat)
    requires Plain(p) && pau == TableSize(FAT16, p.szVol) && Counts(p.szVol, pau, n)
    requires total <= p.szVol && Counts(p.szVol - total, pau, m) && 256 * total <= 15 * 256 + 8964 + 2 * n
    requires TurnFor(p, 0, FAT16, pau) == Judge(p, 0, d, m) && d.pau == pau && d.fsty == if n > MAX_FAT12 then FAT16 else FAT12
    requires pau < 64 ==> n < 0x1_0000
    ensures Outcome(p, 0, FAT16).Done?
  {
    OutcomeOn(p, 0, FAT16);
    if n > MAX_FAT12 && (m <= MAX_FAT12 || (m > MAX_FAT16 && pau <= 32)) {
      SecondTurn(p, pau, n, total, m);
    } else if n > MAX_FAT12 && m > MAX_FAT16 {
      BigVolume(p);
    }
  }

  lemma {:induction false} BigVolume(p: Params)
    requires Plain(p) && p.szVol >= 65526 * 64
    ensures Outcome(p, 0, FAT32).Done?
  {
    if p.szVol < 0x40_0000 {
      BigTurn(p, 0, 32);
    } else {
      BigTurn(p, 0, 64);
      BigTurn(p, 32, 32);
    }
  }

  lemma {:induction false} FirstSize(szVol: nat, pau: nat, n: nat)
    requires 128 <= szVol < TWO32 && pau == TableSize(FAT16, szVol) && Counts(szVol, pau, n)
    ensures Roomy(szVol, pau) && n <= 0x400_0000 && (pau < 64 ==> n < 0x1_0000)
  {
  }

  /**
   * So it does when the options allow both FAT types and leave cluster size and root directory
   * open, with an alignment of at most sixteen sectors, whatever the number of FATs.
   */
  lemma {:induction false} DefaultsSucceed(o: Options, ss: nat, szVol: nat, bVol: nat)
    requires ss in {512, 1024, 2048, 4096} && 128 <= szVol && bVol + szVol < TWO32 - 1
    requires o.fat && o.fat32 && o.auSize == 0 && o.nRoot == 0 && o.align <= 16
    ensures var r := FromOptions(o, ss, szVol, bVol);
            r.Start? && Outcome(r.p, r.szAu, r.fsty).Done? && Outcome(r.p, r.szAu, r.fsty).c.nClst > 0
  {
    var r := FromOptions(o, ss, szVol, bVol);
    DefaultRootSize(r.p);
    PlainSucceeds(r.p);
    var l := LastTurn(r.p, 0, FAT16);
    var pau := TurnSize(r.p, l.0, l.1);
    DoneExactly(r.p, l.0, l.1, pau);
    SmallBlocks(r.p, l.1, pau);
    ClustersExactly(r.p, l.0, l.1, pau);
  }

  lemma {:induction false} DefaultRootSize(p: Params)
    requires ValidParams(p) && p.nRoot == 512
    ensures RootSectors(p) <= 32
  {
    QuotBelow(p.ss, 512 * 32, 33);
    TimesIsProduct(33, p.ss);
  }
}
