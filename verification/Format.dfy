/** The FAT branch of f_mkfs up to the point where the layout is settled: the loop that
    chooses FAT type and cluster size, in 32-bit arithmetic. */
module Format {
  import opened Bytes
  import opened Layout
  import opened Bits

  const ROOT_ENTRIES: nat := 512
  const Cst: seq<nat> := [1, 4, 16, 64, 256, 512, 0]
  const Cst32: seq<nat> := [1, 2, 4, 8, 16, 32, 0]

  function Quot(a: nat, b: nat): nat
    requires b > 0
  {
    a / b
  }

  /** Index of the first entry that is 0 or above `n`. */
  function TableIndex(t: seq<nat>, n: nat, i: nat): (r: nat)
    requires i < |t| && t[|t| - 1] == 0
    ensures i <= r < |t|
    decreases |t| - i
  {
    if t[i] != 0 && t[i] <= n then TableIndex(t, n, i + 1) else i
  }

  /** Cluster size, in sectors, that is tried first when none is asked for. */
  function AutoSize(kind: Kind, szVol: nat): nat {
    if kind == Fat32 then Pow2(TableIndex(Cst32, szVol / 0x2_0000, 0)) else Pow2(TableIndex(Cst, szVol / 0x1000, 0))
  }

  /** A volume layout: `nClst` clusters of `pau` sectors behind `szRsv` reserved sectors,
      one FAT and the root directory. */
  datatype Plan = Plan(kind: Kind, pau: nat, szRsv: nat, szFat: nat, szDir: nat, bFat: nat, nClst: nat)

  /** What the caller asks for and the device reports. */
  datatype Request = Request(szVol: nat, bVol: nat, szBlk: nat, anyFat32: bool) {
    predicate Valid() {
      128 <= szVol && szVol + bVol < 0x1_0000_0000 && (bVol == 0 || bVol == 63) && PowerOfTwo(szBlk) && szBlk <= 32768
    }
  }

  /** One turn of the loop gives up, tries again with other parameters, or is content. */
  datatype Turn = Abort | Again(kind: Kind, au: nat) | Done(plan: Plan)

  /** Sectors added so that the data area starts at an erase block. */
  function Gap(bData: nat, szBlk: nat): nat
    requires 0 < szBlk <= 0x1_0000_0000
  {
    W(And(W(bData + szBlk - 1), 0xFFFF_FFFF - (szBlk - 1)) - bData)
  }

  /** The layout that is tried: type, first cluster count and FAT size. */
  function FirstSize(kind: Kind, n0: nat): (Kind, nat) {
    if kind == Fat32 then (Fat32, W(n0 * 4 + 8 + 512 - 1) / 512)
    else if n0 > MAX_FAT12 then (kind, W(W(n0 * 2 + 4) + 511) / 512)
    else (Fat12, W(W(n0 * 3 + 1) / 2 + 3 + 511) / 512)
  }

  /** The layout with the data area aligned, and the cluster count it leaves. */
  function Aligned(r: Request, kind: Kind, pau: nat, szFat0: nat): Plan
    requires 0 < r.szBlk <= 0x1_0000_0000 && pau > 0
  {
    var szRsv0 := if kind == Fat32 then 32 else 1;
    var szDir := if kind == Fat32 then 0 else ROOT_ENTRIES * 32 / 512;
    var bFat0 := W(r.bVol + szRsv0);
    var n := Gap(W(bFat0 + szFat0 + szDir), r.szBlk);
    var szRsv := if kind == Fat32 then W(szRsv0 + n) else szRsv0;
    var bFat := if kind == Fat32 then W(bFat0 + n) else bFat0;
    var szFat := if kind == Fat32 then szFat0 else W(szFat0 + n);
    Plan(kind, pau, szRsv, szFat, szDir, bFat, Quot(W(r.szVol - szRsv - szFat - szDir), pau))
  }

  function TooSmall(r: Request, kind: Kind, pau: nat, szFat0: nat): bool {
    var szRsv0 := if kind == Fat32 then 32 else 1;
    var szDir := if kind == Fat32 then 0 else ROOT_ENTRIES * 32 / 512;
    r.szVol < W(W(W(r.bVol + szRsv0) + szFat0 + szDir) + pau * 16 - r.bVol)
  }

  /** The checks on the final cluster count. */
  function Judge(r: Request, au: nat, p: Plan): Turn {
    match p.kind
    case Fat32 =>
      if p.nClst <= MAX_FAT16 then if au == 0 && p.pau / 2 != 0 then Again(Fat32, p.pau / 2) else Abort
      else Done(p)
    case Fat16 =>
      if p.nClst > MAX_FAT16 then
        if au == 0 && p.pau * 2 <= 64 then Again(Fat16, p.pau * 2)
        else if r.anyFat32 then Again(Fat32, au)
        else if au == 0 && p.pau * 2 <= 128 then Again(Fat16, p.pau * 2)
        else Abort
      else if p.nClst <= MAX_FAT12 then if au == 0 && p.pau * 2 <= 128 then Again(Fat16, p.pau * 2) else Abort
      else Done(p)
    case Fat12 =>
      if p.nClst > MAX_FAT12 then Abort else Done(p)
  }

  /** One turn of the loop. */
  function Try(r: Request, kind: Kind, au: nat): Turn
    requires 0 < r.szBlk <= 0x1_0000_0000
  {
    var pau := if au == 0 then AutoSize(kind, r.szVol) else au;
    AutoPositive(kind, r.szVol);
    var n0 := Quot(r.szVol, pau);
    var (k, szFat0) := FirstSize(kind, n0);
    if kind == Fat32 && (n0 <= MAX_FAT16 || n0 > MAX_FAT32) then Abort
    else if TooSmall(r, k, pau, szFat0) then Abort
    else Judge(r, au, Aligned(r, k, pau, szFat0))
  }

  lemma AutoPositive(kind: Kind, szVol: nat)
    ensures AutoSize(kind, szVol) in {1, 2, 4, 8, 16, 32, 64}
  {
    var i := if kind == Fat32 then TableIndex(Cst32, szVol / 0x2_0000, 0) else TableIndex(Cst, szVol / 0x1000, 0);
    assert i <= 6 && AutoSize(kind, szVol) == Pow2(i);
    assert Pow2(1) == 2 && Pow2(2) == 4 && Pow2(3) == 8;
    assert Pow2(4) == 16 && Pow2(5) == 32 && Pow2(6) == 64;
  }

  /** How often the loop can still go round: from FAT16 to FAT32 once, and once to a fixed
      cluster size. */
  function Left(kind: Kind, au: nat): nat {
    (if kind == Fat32 then 0 else 2) + (if au == 0 then 1 else 0)
  }

  lemma AgainLeft(r: Request, kind: Kind, au: nat)
    requires 0 < r.szBlk <= 0x1_0000_0000 && kind != Fat12
    ensures var t := Try(r, kind, au); t.Again? ==> t.kind != Fat12 && Left(t.kind, t.au) < Left(kind, au)
  {
    AutoPositive(kind, r.szVol);
  }

  /** The outcome of the loop. */
  function Settle(r: Request, kind: Kind, au: nat): (t: Turn)
    requires 0 < r.szBlk <= 0x1_0000_0000 && kind != Fat12
    ensures !t.Again?
    decreases Left(kind, au)
  {
    var t := Try(r, kind, au);
    AgainLeft(r, kind, au);
    if t.Again? then Settle(r, t.kind, t.au) else t
  }

  /** Looks a cluster size up: one loop over a table. */
  method LookUp(t: seq<nat>, n: nat) returns (pau: nat)
    requires |t| > 0 && t[|t| - 1] == 0
    ensures pau == Pow2(TableIndex(t, n, 0))
  {
    var i := 0;
    pau := 1;
    assert Pow2(0) == 1;
    while t[i] != 0 && t[i] <= n
      invariant 0 <= i < |t| && pau == Pow2(i) && TableIndex(t, n, i) == TableIndex(t, n, 0)
      decreases |t| - i
    {
      i, pau := i + 1, pau * 2;
    }
  }

  /** The loop of f_mkfs. */
  method ChooseLayout(r: Request, fmt0: Kind, au0: nat) returns (t: Turn)
    requires r.Valid() && fmt0 != Fat12
    ensures t == Settle(r, fmt0, au0)
  {
    hide And, Settle, W;
    var fmt, au := fmt0, au0;
    while true
      invariant fmt != Fat12 && Settle(r, fmt, au) == Settle(r, fmt0, au0)
      decreases Left(fmt, au)
    {
      t := OneTurn(r, fmt, au);
      AgainLeft(r, fmt, au);
      SettleStep(r, fmt, au);
      if !t.Again? {
        return;
      }
      fmt, au := t.kind, t.au;
    }
  }

  lemma SettleStep(r: Request, kind: Kind, au: nat)
    requires 0 < r.szBlk <= 0x1_0000_0000 && kind != Fat12
    ensures var t := Try(r, kind, au);
      Settle(r, kind, au) == if t.Again? && t.kind != Fat12 then Settle(r, t.kind, t.au) else t
  {
    AgainLeft(r, kind, au);
  }

  /** The layout tried first: type, cluster size and count, FAT size. */
  method FirstGuess(r: Request, fmt0: Kind, au: nat) returns (fmt: Kind, pau: nat, nClst: nat, szFat: nat)
    requires r.Valid() && fmt0 != Fat12
    ensures pau == (if au == 0 then AutoSize(fmt0, r.szVol) else au) > 0
    ensures nClst == Quot(r.szVol, pau) && (fmt, szFat) == FirstSize(fmt0, nClst)
  {
    hide And, W, PowerOfTwo, Pow2, Quot;
    AutoPositive(fmt0, r.szVol);
    fmt, pau := fmt0, au;
    if fmt == Fat32 {
      if pau == 0 {
        pau := LookUp(Cst32, r.szVol / 0x2_0000);
      }
      nClst := Quot(r.szVol, pau);
      szFat := W(nClst * 4 + 8 + 512 - 1) / 512;
    } else {
      if pau == 0 {
        pau := LookUp(Cst, r.szVol / 0x1000);
      }
      nClst := Quot(r.szVol, pau);
      var n;
      if nClst > MAX_FAT12 {
        n := W(nClst * 2 + 4);
      } else {
        fmt := Fat12;
        n := W(nClst * 3 + 1) / 2 + 3;
      }
      szFat := W(n + 511) / 512;
    }
  }

  /** The data area moved to an erase block boundary, at the cost of the reserved area or
      of the FAT. */
  method Align(r: Request, fmt: Kind, pau: nat, szFat0: nat) returns (small: bool, p: Plan)
    requires r.Valid() && pau > 0
    ensures small == TooSmall(r, fmt, pau, szFat0) && p == Aligned(r, fmt, pau, szFat0)
  {
    hide And, W, PowerOfTwo, Gap, Quot;
    var szRsv, szDir, szFat := 1, ROOT_ENTRIES * 32 / 512, szFat0;
    if fmt == Fat32 {
      szRsv, szDir := 32, 0;
    }
    var bFat := W(r.bVol + szRsv);
    var bData := W(bFat + szFat + szDir);
    BlockPositive(r);
    var n := Gap(bData, r.szBlk);
    small := r.szVol < W(bData + pau * 16 - r.bVol);
    if fmt == Fat32 {
      szRsv := W(szRsv + n);
      bFat := W(bFat + n);
    } else {
      szFat := W(szFat + n);
    }
    p := Plan(fmt, pau, szRsv, szFat, szDir, bFat, Quot(W(r.szVol - szRsv - szFat - szDir), pau));
  }

  lemma BlockPositive(r: Request)
    requires r.Valid()
    ensures 0 < r.szBlk <= 0x1_0000_0000
  {
  }

  method OneTurn(r: Request, fmt0: Kind, au0: nat) returns (t: Turn)
    requires r.Valid() && fmt0 != Fat12
    ensures t == Try(r, fmt0, au0)
  {
    hide And, W, PowerOfTwo, Pow2, Quot, AutoSize, FirstSize, TooSmall, Aligned;
    BlockPositive(r);
    var fmt, pau, nClst, szFat := FirstGuess(r, fmt0, au0);
    if fmt0 == Fat32 && (nClst <= MAX_FAT16 || nClst > MAX_FAT32) {
      return Abort;
    }
    var small, p := Align(r, fmt, pau, szFat);
    if small {
      return Abort;
    }
    t := Check(r, au0, p);
    AlignedKind(r, fmt, pau, szFat);
  }

  lemma AlignedKind(r: Request, kind: Kind, pau: nat, szFat0: nat)
    requires 0 < r.szBlk <= 0x1_0000_0000 && pau > 0
    ensures Aligned(r, kind, pau, szFat0).kind == kind && Aligned(r, kind, pau, szFat0).pau == pau
  {
  }

  /** The final checks, as the source orders them. */
  method Check(r: Request, au0: nat, p: Plan) returns (t: Turn)
    ensures t == Judge(r, au0, p)
  {
    var au := au0;
    if p.kind == Fat32 {
      if p.nClst <= MAX_FAT16 {
        if au == 0 {
          au := p.pau / 2;
          if au != 0 {
            return Again(Fat32, au);
          }
        }
        return Abort;
      }
    }
    if p.kind == Fat16 {
      if p.nClst > MAX_FAT16 {
        if au == 0 && p.pau * 2 <= 64 {
          return Again(Fat16, p.pau * 2);
        }
        if r.anyFat32 {
          return Again(Fat32, au);
        }
        if au == 0 {
          au := p.pau * 2;
          if au <= 128 {
            return Again(Fat16, au);
          }
        }
        return Abort;
      }
      if p.nClst <= MAX_FAT12 {
        if au == 0 {
          au := p.pau * 2;
          if au <= 128 {
            return Again(Fat16, au);
          }
        }
        return Abort;
      }
    }
    if p.kind == Fat12 && p.nClst > MAX_FAT12 {
      return Abort;
    }
    t := Done(p);
  }

  // ----- what a settled layout is like -----

  predicate Size(pau: nat) {
    pau in {1, 2, 4, 8, 16, 32, 64, 128}
  }

  /** The number of bytes a FAT with `n` entries needs, as find_volume computes it. */
  function FatNeed(kind: Kind, n: nat): nat {
    match kind
    case Fat12 => n * 3 / 2 + n % 2
    case Fat16 => n * 2
    case Fat32 => n * 4
  }

  /** The cluster count decides the type. */
  predicate TypeFits(kind: Kind, n: nat) {
    match kind
    case Fat12 => n <= MAX_FAT12
    case Fat16 => MAX_FAT12 < n <= MAX_FAT16
    case Fat32 => MAX_FAT16 < n <= MAX_FAT32
  }

  /** A layout that find_volume will understand: no field is cut when it is stored, the
      areas fit the volume, the FAT is long enough, the data area starts at an erase block. */
  predicate Sound(r: Request, p: Plan) {
    && Size(p.pau) && TypeFits(p.kind, p.nClst)
    && p.szRsv + p.szFat + p.szDir <= r.szVol && p.nClst == Quot(r.szVol - p.szRsv - p.szFat - p.szDir, p.pau)
    && p.bFat == r.bVol + p.szRsv
    && (if p.kind == Fat32 then 32 <= p.szRsv < 0x1_0000 && p.szDir == 0
        else p.szRsv == 1 && p.szDir == 32 && p.szFat < 0x1_0000)
    && 0 < p.szFat && (FatNeed(p.kind, p.nClst + 2) + 511) / 512 <= p.szFat
    && (0 < r.szBlk ==> Multiple(p.bFat + p.szFat + p.szDir, r.szBlk))
  }

  predicate Multiple(x: nat, m: nat)
    requires m > 0
  {
    x % m == 0
  }

  /** The least multiple of `m` that is not below `x`. */
  function RoundUp(x: nat, m: nat): (r: nat)
    requires m > 0
    ensures x <= r < x + m
  {
    x + m - 1 - (x + m - 1) % m
  }

  lemma {:induction false} GapIs(bData: nat, szBlk: nat)
    requires PowerOfTwo(szBlk) && szBlk <= 32768 && bData + szBlk < 0x1_0000_0000
    ensures Gap(bData, szBlk) < szBlk && Multiple(bData + Gap(bData, szBlk), szBlk)
    ensures bData + Gap(bData, szBlk) == RoundUp(bData, szBlk)
  {
    hide And, W, Multiple;
    var x := bData + szBlk - 1;
    NoWrap(x);
    RoundDown(x, szBlk);
    RoundedTo(x, szBlk);
    NoWrap(x - x % szBlk - bData);
  }

  lemma RoundedTo(x: nat, m: nat)
    requires m > 0
    ensures Multiple(x - x % m, m) && x % m < m
  {
    var q := x / m;
    assert x == m * q + x % m;
    ModIs(m * q, m, q, 0);
  }

  lemma QuotIs(x: nat, pau: nat)
    requires Size(pau)
    ensures Quot(x, pau) * pau <= x < Quot(x, pau) * pau + pau
  {
  }

  /** Where the data area would start without a FAT. */
  function FirstBase(r: Request, kind: Kind): nat {
    r.bVol + if kind == Fat32 then 32 else 33
  }

  /** Aligning a layout wraps nothing as long as the FAT is not huge. */
  lemma {:induction false} AlignedIs(r: Request, kind: Kind, pau: nat, szFat0: nat)
    requires r.Valid() && Size(pau) && szFat0 <= 0x80_0000
    ensures var b := FirstBase(r, kind) + szFat0;
      RoundUp(b, r.szBlk) >= b && AlignedBy(r, kind, pau, szFat0, RoundUp(b, r.szBlk) - b)
  {
    hide And, W, Gap, Multiple, PowerOfTwo, Quot, RoundUp;
    var rsv, dir := if kind == Fat32 then 32 else 1, if kind == Fat32 then 0 else 32;
    var b := r.bVol + rsv + szFat0 + dir;
    GapIs(b, r.szBlk);
    var n := Gap(b, r.szBlk);
    NoWrap(r.bVol + rsv);
    NoWrap(b);
    NoWrap(rsv + n);
    NoWrap(r.bVol + rsv + n);
    NoWrap(szFat0 + n);
    NoWrap(rsv + szFat0 + dir + pau * 16);
    assert r.szVol - rsv - szFat0 - n - dir == r.szVol - rsv - (szFat0 + n) - dir == r.szVol - (rsv + n) - szFat0 - dir;
    assert AlignedBy(r, kind, pau, szFat0, Gap(b, r.szBlk));
  }

  /** The aligned layout has `n` sectors more in front of its data. */
  ghost predicate AlignedBy(r: Request, kind: Kind, pau: nat, szFat0: nat, n: nat)
    requires 0 < r.szBlk <= 0x1_0000_0000 && pau > 0
  {
    var p := Aligned(r, kind, pau, szFat0);
    var rsv, dir := if kind == Fat32 then 32 else 1, if kind == Fat32 then 0 else 32;
    && n < r.szBlk && p.kind == kind && p.pau == pau && p.szDir == dir && p.bFat == r.bVol + p.szRsv
    && p.szRsv == (if kind == Fat32 then rsv + n else rsv)
    && p.szFat == (if kind == Fat32 then szFat0 else szFat0 + n)
    && Multiple(p.bFat + p.szFat + p.szDir, r.szBlk)
    && p.nClst == Quot(W(r.szVol - rsv - szFat0 - n - dir), pau)
    && (TooSmall(r, kind, pau, szFat0) <==> r.szVol < rsv + szFat0 + dir + pau * 16)
  }

  /** FAT32: the cluster count never wraps. */
  lemma {:induction false} Sound32(r: Request, pau: nat)
    requires r.Valid() && Size(pau) && MAX_FAT16 < Quot(r.szVol, pau) <= MAX_FAT32
    requires var p := Aligned(r, Fat32, pau, FirstSize(Fat32, Quot(r.szVol, pau)).1); p.nClst > MAX_FAT16
    ensures Sound(r, Aligned(r, Fat32, pau, FirstSize(Fat32, Quot(r.szVol, pau)).1))
  {
    hide And, Aligned, Gap, PowerOfTwo, Quot, Multiple, W, TooSmall;
    var n0 := Quot(r.szVol, pau);
    QuotIs(r.szVol, pau);
    var szFat0 := FirstSize(Fat32, n0).1;
    NoWrap(n0 * 4 + 519);
    assert szFat0 == (n0 * 4 + 519) / 512;
    AlignedIs(r, Fat32, pau, szFat0);
    var n := RoundUp(FirstBase(r, Fat32) + szFat0, r.szBlk) - (FirstBase(r, Fat32) + szFat0);
    var left := r.szVol - 32 - szFat0 - n;
    assert 0 <= left <= r.szVol;
    NoWrap(left);
    QuotIs(left, pau);
    FewerClusters(left, r.szVol, pau);
  }

  lemma FewerClusters(a: nat, b: nat, pau: nat)
    requires a <= b && Size(pau)
    ensures Quot(a, pau) <= Quot(b, pau)
  {
  }

  /** A negative number of sectors, wrapped, is far too large. */
  lemma {:induction false} Wrapped(left: int, pau: nat)
    requires -0x1_0000 <= left < 0 && Size(pau)
    ensures Quot(W(left), pau) > MAX_FAT16
  {
    hide Quot;
    assert W(left) == 0x1_0000_0000 + left;
    QuotIs(W(left), pau);
  }

  /** The FAT size that is tried for FAT12 or FAT16, from the volume size. */
  lemma {:induction false} First16(szVol: nat, pau: nat, n0: nat)
    requires Size(pau) && n0 * pau <= szVol < n0 * pau + pau && szVol < 0x1_0000_0000
    ensures var (k, s) := FirstSize(Fat16, n0);
      && k == (if n0 > MAX_FAT12 then Fat16 else Fat12) && s <= 0x80_0000
      && (n0 < 0x7FFF_0000 ==> s == ((if n0 > MAX_FAT12 then n0 * 2 + 4 else (n0 * 3 + 1) / 2 + 3) + 511) / 512)
  {
    hide W;
    WrapLess(n0 * 2 + 4);
    WrapLess(W(n0 * 2 + 4) + 511);
    WrapLess(n0 * 3 + 1);
    if n0 < 0x7FFF_0000 {
      NoWrap(n0 * 2 + 4);
      NoWrap(n0 * 2 + 4 + 511);
      if n0 <= MAX_FAT12 {
        NoWrap(n0 * 3 + 1);
        NoWrap((n0 * 3 + 1) / 2 + 3 + 511);
      }
    }
  }

  lemma WrapLess(x: nat)
    ensures W(x) < 0x1_0000_0000 && W(x) <= x
  {
  }

  /** FAT12 and FAT16: a count that wrapped is far too large to be accepted, so the count
      is right and the FAT size fits 16 bits. */
  lemma {:induction false} Sound16(r: Request, pau: nat)
    requires r.Valid() && Size(pau)
    requires var (k, szFat0) := FirstSize(Fat16, Quot(r.szVol, pau));
      var p := Aligned(r, k, pau, szFat0); !TooSmall(r, k, pau, szFat0) && TypeFits(k, p.nClst)
    ensures var (k, szFat0) := FirstSize(Fat16, Quot(r.szVol, pau)); Sound(r, Aligned(r, k, pau, szFat0))
  {
    hide And, Aligned, Gap, PowerOfTwo, Quot, Multiple, W, FirstSize, TooSmall, FatNeed;
    var n0 := Quot(r.szVol, pau);
    QuotIs(r.szVol, pau);
    var (k, szFat0) := FirstSize(Fat16, n0);
    First16(r.szVol, pau, n0);
    AlignedIs(r, k, pau, szFat0);
    var n := RoundUp(FirstBase(r, k) + szFat0, r.szBlk) - (FirstBase(r, k) + szFat0);
    var left := r.szVol - 1 - szFat0 - n - 32;
    if left < 0 {
      Wrapped(left, pau);
      assert false;
    }
    NoWrap(left);
    QuotIs(left, pau);
    FewerClusters(left, r.szVol, pau);
    SmallEnough(r.szVol, pau, n0, szFat0, n, Quot(left, pau));
    LongEnough(k, n0, Quot(left, pau));
  }

  /** The FAT size is computed for the first cluster count, which is no less than the final one. */
  lemma LongEnough(k: Kind, n0: nat, c: nat)
    requires k == (if n0 > MAX_FAT12 then Fat16 else Fat12) && c <= n0
    ensures var need := if n0 > MAX_FAT12 then n0 * 2 + 4 else (n0 * 3 + 1) / 2 + 3;
      (FatNeed(k, c + 2) + 511) / 512 <= (need + 511) / 512
  {
  }

  /** With few enough clusters left, there were few enough to begin with. */
  lemma {:induction false} SmallEnough(szVol: nat, pau: nat, n0: nat, szFat0: nat, n: nat, c: nat)
    requires Size(pau) && n0 * pau <= szVol < n0 * pau + pau && szFat0 <= 0x80_0000 && n < 32768
    requires 1 + szFat0 + n + 32 <= szVol && szVol - 33 - szFat0 - n < c * pau + pau && c <= MAX_FAT16
    requires n0 < 0x7FFF_0000 ==> szFat0 <= (n0 * 2 + 4 + 511) / 512
    ensures n0 < 0x7FFF_0000 && szFat0 + n < 0x1_0000
  {
    if pau == 1 {
    } else if pau == 2 {
    } else if pau == 4 {
    } else if pau == 8 {
    } else if pau == 16 {
    } else if pau == 32 {
    } else if pau == 64 {
    } else {
    }
  }

  /** Every layout f_mkfs settles on is sound. */
  lemma {:induction false} SettleSound(r: Request, kind: Kind, au: nat)
    requires r.Valid() && kind != Fat12 && (au == 0 || Size(au))
    ensures Settle(r, kind, au).Done? ==> Sound(r, Settle(r, kind, au).plan)
    decreases Left(kind, au)
  {
    hide And, Aligned, Sound, FirstSize, TooSmall, PowerOfTwo;
    BlockPositive(r);
    AutoPositive(kind, r.szVol);
    AgainLeft(r, kind, au);
    var t := Try(r, kind, au);
    var pau := if au == 0 then AutoSize(kind, r.szVol) else au;
    var (k, szFat0) := FirstSize(kind, Quot(r.szVol, pau));
    FirstKind(kind, Quot(r.szVol, pau));
    AlignedKind(r, k, pau, szFat0);
    if t.Again? {
      SettleSound(r, t.kind, t.au);
    } else if t.Done? {
      if kind == Fat32 {
        Sound32(r, pau);
      } else {
        Sound16(r, pau);
      }
    }
  }

  lemma FirstKind(kind: Kind, n: nat)
    ensures (FirstSize(kind, n).0 == Fat32 <==> kind == Fat32)
      && (FirstSize(kind, n).0 != Fat12 ==> FirstSize(kind, n).0 == kind)
    ensures kind == Fat16 ==> FirstSize(kind, n).0 != Fat32
  {
  }

  // ----- when no cluster is left -----

  /** Sectors of a FAT12 for `n` clusters. */
  function Fat12Size(n: nat): nat {
    ((n * 3 + 1) / 2 + 3 + 511) / 512
  }

  /** Sectors of the volume in front of the aligned data area, with FAT12 and clusters of
      `pau` sectors. */
  function DataStart(r: Request, pau: nat): (s: nat)
    requires r.szBlk > 0 && pau > 0
  {
    RoundUp(FirstBase(r, Fat12) + Fat12Size(Quot(r.szVol, pau)), r.szBlk) - r.bVol
  }

  /** With clusters of `pau` sectors the volume is one for FAT12 and passes the size check made
      before the alignment, which then leaves less than one cluster. */
  predicate LeavesNone(r: Request, pau: nat)
    requires r.szBlk > 0 && pau > 0
  {
    && Quot(r.szVol, pau) <= MAX_FAT12
    && 33 + Fat12Size(Quot(r.szVol, pau)) + 16 * pau <= r.szVol
    && DataStart(r, pau) <= r.szVol < DataStart(r, pau) + pau
  }

  /** The cluster size tried first. */
  function FirstPau(r: Request, au: nat): (pau: nat)
    ensures pau > 0
  {
    AutoPositive(Fat16, r.szVol);
    if au == 0 then AutoSize(Fat16, r.szVol) else au
  }

  /** No cluster is left, at the size tried first or at the one tried after it. */
  predicate NoRoom(r: Request, kind: Kind, au: nat)
    requires r.szBlk > 0
  {
    var pau := FirstPau(r, au);
    kind != Fat32
    && (LeavesNone(r, pau) || (au == 0 && Quot(r.szVol, pau) > MAX_FAT12 && LeavesNone(r, 2 * pau)))
  }

  /** One attempt with FAT12. */
  lemma {:induction false} Attempt12(r: Request, pau: nat)
    requires r.Valid() && Size(pau) && Quot(r.szVol, pau) <= MAX_FAT12
    ensures FirstSize(Fat16, Quot(r.szVol, pau)) == (Fat12, Fat12Size(Quot(r.szVol, pau)))
    ensures var s := Fat12Size(Quot(r.szVol, pau));
      !TooSmall(r, Fat12, pau, s) && Aligned(r, Fat12, pau, s).nClst == 0 <==> LeavesNone(r, pau)
  {
    hide And, Aligned, Gap, PowerOfTwo, Quot, Multiple, W, TooSmall, RoundUp;
    var n0 := Quot(r.szVol, pau);
    QuotIs(r.szVol, pau);
    First16(r.szVol, pau, n0);
    var s := Fat12Size(n0);
    AlignedIs(r, Fat12, pau, s);
    var left := r.szVol - DataStart(r, pau);
    if left < 0 {
      Wrapped(left, pau);
    } else {
      NoWrap(left);
      QuotIs(left, pau);
      QuotZero(left, pau);
    }
  }

  lemma QuotZero(x: nat, pau: nat)
    requires pau > 0
    ensures Quot(x, pau) == 0 <==> x < pau
  {
    if x < pau {
      ModIs(x, pau, 0, x);
    }
  }

  /** With FAT32 to begin with there are clusters. */
  lemma {:induction false} Stays32(r: Request, au: nat)
    requires 0 < r.szBlk <= 0x1_0000_0000
    ensures var t := Settle(r, Fat32, au); t.Done? ==> t.plan.nClst > 0
    decreases Left(Fat32, au)
  {
    hide And, AutoSize, Gap, W, TooSmall, Quot;
    AutoPositive(Fat32, r.szVol);
    AgainLeft(r, Fat32, au);
    var t := Try(r, Fat32, au);
    if t.Again? {
      Stays32(r, t.au);
    }
  }

  lemma {:induction false} UpMono(x: nat, y: nat, m: nat)
    requires m > 0 && x <= y
    ensures RoundUp(x, m) <= RoundUp(y, m)
  {
    var a, b := x + m - 1, y + m - 1;
    DivMono(a, b, m);
    MulMono(m, a / m, b / m);
    assert RoundUp(x, m) == m * (a / m) && RoundUp(y, m) == m * (b / m);
  }

  lemma DivMono(a: nat, b: nat, m: nat)
    requires m > 0 && a <= b
    ensures a / m <= b / m
  {
    if b / m < a / m {
      MulMono(m, b / m + 1, a / m);
    }
  }

  /** Large automatic cluster sizes are for large volumes. */
  lemma AutoLarge(szVol: nat)
    ensures AutoSize(Fat16, szVol) >= 8 ==> 8192 * AutoSize(Fat16, szVol) <= szVol
  {
    var i := TableIndex(Cst, szVol / 0x1000, 0);
    AutoPositive(Fat16, szVol);
    IndexAbove(Cst, szVol / 0x1000, 0);
    assert Pow2(1) == 2 && Pow2(2) == 4 && Pow2(3) == 8;
    assert Pow2(4) == 16 && Pow2(5) == 32 && Pow2(6) == 64;
    assert i >= 3 ==> Cst[i - 1] <= szVol / 0x1000;
  }

  lemma {:induction false} IndexAbove(t: seq<nat>, n: nat, i: nat)
    requires i < |t| && t[|t| - 1] == 0
    ensures forall j :: i <= j < TableIndex(t, n, i) ==> t[j] <= n
    decreases |t| - i
  {
    if t[i] != 0 && t[i] <= n {
      IndexAbove(t, n, i + 1);
    }
  }

  /** If doubled clusters would leave none, the attempt with FAT16 before is given up for them. */
  lemma {:induction false} DoubledTried(r: Request, pau: nat)
    requires r.Valid() && pau == AutoSize(Fat16, r.szVol) && Size(pau)
    requires Quot(r.szVol, pau) > MAX_FAT12 && LeavesNone(r, 2 * pau)
    ensures Try(r, Fat16, 0) == Again(Fat16, 2 * pau)
  {
    hide And, Aligned, AutoSize, Gap, PowerOfTwo, Quot, Multiple, W, TooSmall, RoundUp, FirstSize;
    var n0, n1 := Quot(r.szVol, pau), Quot(r.szVol, 2 * pau);
    AutoLarge(r.szVol);
    HalfCount(r.szVol, pau);
    QuotIs(r.szVol, pau);
    First16(r.szVol, pau, n0);
    var (k, s) := FirstSize(Fat16, n0);
    AlignedIs(r, Fat16, pau, s);
    UpMono(FirstBase(r, Fat12) + Fat12Size(n1), FirstBase(r, Fat16) + s, r.szBlk);
    var left := r.szVol - (RoundUp(FirstBase(r, Fat16) + s, r.szBlk) - r.bVol);
    if left < 0 {
      Wrapped(left, pau);
    } else {
      NoWrap(left);
      QuotIs(left, pau);
    }
    AlignedKind(r, Fat16, pau, s);
  }

  lemma HalfCount(szVol: nat, pau: nat)
    requires Size(pau) && Quot(szVol, pau) > MAX_FAT12 && Quot(szVol, 2 * pau) <= MAX_FAT12
    requires pau >= 8 ==> 8192 * pau <= szVol
    ensures pau <= 4 && Quot(szVol, 2 * pau) <= Quot(szVol, pau) <= 8171 && 4086 * pau <= szVol
  {
    if pau == 1 {
    } else if pau == 2 {
    } else if pau == 4 {
    } else if pau == 8 {
    } else if pau == 16 {
    } else if pau == 32 {
    } else if pau == 64 {
    } else {
    }
  }

  /** A cluster size that is asked for is the only one tried. */
  lemma {:induction false} NoRoomFixed(r: Request, au: nat)
    requires r.Valid() && Size(au)
    ensures var t := Settle(r, Fat16, au); t.Done? && t.plan.nClst == 0 <==> LeavesNone(r, au)
  {
    hide And, Aligned, FirstSize, TooSmall, PowerOfTwo, AutoSize, LeavesNone, Settle, Quot;
    BlockPositive(r);
    SettleStep(r, Fat16, au);
    var n0 := Quot(r.szVol, au);
    FirstIs(n0);
    var (k, s) := FirstSize(Fat16, n0);
    AlignedKind(r, k, au, s);
    Stays32(r, au);
    if n0 <= MAX_FAT12 {
      Attempt12(r, au);
    } else {
      NotNone(r, au);
    }
  }

  lemma FirstIs(n0: nat)
    ensures FirstSize(Fat16, n0).0 == if n0 > MAX_FAT12 then Fat16 else Fat12
  {
  }

  lemma NotNone(r: Request, pau: nat)
    requires r.szBlk > 0 && pau > 0
    ensures LeavesNone(r, pau) ==> Quot(r.szVol, pau) <= MAX_FAT12
  {
    hide Quot;
  }

  /** The loop of f_mkfs settles on a layout without a cluster exactly for the requests that
      leave no room for one. */
  lemma {:induction false} EmptyExactly(r: Request, kind: Kind, au: nat)
    requires r.Valid() && kind != Fat12 && (au == 0 || Size(au))
    ensures var t := Settle(r, kind, au); t.Done? && t.plan.nClst == 0 <==> NoRoom(r, kind, au)
  {
    hide And, Aligned, FirstSize, TooSmall, PowerOfTwo, AutoSize, LeavesNone, Settle, Quot;
    BlockPositive(r);
    Stays32(r, au);
    AutoPositive(Fat16, r.szVol);
    if kind == Fat16 && au != 0 {
      NoRoomFixed(r, au);
    } else if kind == Fat16 {
      EmptyAuto(r);
    }
  }

  lemma {:induction false} EmptyAuto(r: Request)
    requires r.Valid()
    ensures var t := Settle(r, Fat16, 0); t.Done? && t.plan.nClst == 0 <==> NoRoom(r, Fat16, 0)
  {
    hide And, Aligned, FirstSize, TooSmall, PowerOfTwo, AutoSize, LeavesNone, Settle, Quot;
    BlockPositive(r);
    AutoPositive(Fat16, r.szVol);
    var pau := AutoSize(Fat16, r.szVol);
    SettleStep(r, Fat16, 0);
    var n0 := Quot(r.szVol, pau);
    FirstIs(n0);
    var (k, s) := FirstSize(Fat16, n0);
    AlignedKind(r, k, pau, s);
    Stays32(r, 0);
    if n0 <= MAX_FAT12 {
      Attempt12(r, pau);
    } else {
      NotNone(r, pau);
      NoRoomFixed(r, 2 * pau);
      if LeavesNone(r, 2 * pau) {
        DoubledTried(r, pau);
      }
    }
  }

  /** An erase block of at most 15 clusters always leaves room. */
  lemma {:induction false} SmallBlocksFit(r: Request, kind: Kind, au: nat)
    requires r.Valid() && r.szBlk <= 15 * FirstPau(r, au)
    ensures !NoRoom(r, kind, au)
  {
    hide Quot, AutoSize, RoundUp, PowerOfTwo;
  }

  /** A volume of 512 sectors with erase blocks of 512 sectors: the alignment leaves no sector
      for the data, and the loop is content with no cluster. */
  lemma {:induction false} NoClusterLeft()
    ensures Request(512, 0, 512, false).Valid()
    ensures var t := Settle(Request(512, 0, 512, false), Fat16, 0);
      t.Done? && t.plan.kind == Fat12 && t.plan.nClst == 0
  {
    hide And, Settle, Try, Sound, PowerOfTwo, LeavesNone, FirstPau;
    var r := Request(512, 0, 512, false);
    Power512();
    FirstOne();
    Leaves512();
    EmptyExactly(r, Fat16, 0);
    SettleSound(r, Fat16, 0);
    EmptyIs12(r);
  }

  lemma Power512()
    ensures PowerOfTwo(512)
  {
    assert PowerOfTwo(2);
    assert PowerOfTwo(64);
  }

  lemma Leaves512()
    ensures LeavesNone(Request(512, 0, 512, false), 1)
  {
    assert Fat12Size(512) == 2;
    assert RoundUp(35, 512) == 512;
  }

  lemma FirstOne()
    ensures FirstPau(Request(512, 0, 512, false), 0) == 1
  {
    assert Pow2(0) == 1;
    assert TableIndex(Cst, 0, 0) == 0;
  }

  lemma EmptyIs12(r: Request)
    requires r.szBlk > 0
    ensures forall p: Plan :: Sound(r, p) && p.nClst == 0 ==> p.kind == Fat12
  {
    hide Quot, Multiple, FatNeed;
  }

  // ----- which sizes are chosen, and that a layout is found -----

  /** The cluster size tried first, by the size of the volume. */
  lemma AutoSizes(szVol: nat)
    ensures AutoSize(Fat16, szVol) ==
      if szVol < 0x1000 then 1 else if szVol < 0x4000 then 2 else if szVol < 0x1_0000 then 4
      else if szVol < 0x4_0000 then 8 else if szVol < 0x10_0000 then 16 else if szVol < 0x20_0000 then 32 else 64
    ensures AutoSize(Fat32, szVol) ==
      if szVol < 0x2_0000 then 1 else if szVol < 0x4_0000 then 2 else if szVol < 0x8_0000 then 4
      else if szVol < 0x10_0000 then 8 else if szVol < 0x20_0000 then 16 else if szVol < 0x40_0000 then 32 else 64
  {
    hide Pow2;
    Powers();
    IndexOf(Cst, szVol / 0x1000);
    IndexOf(Cst32, szVol / 0x2_0000);
  }

  lemma Powers()
    ensures Pow2(0) == 1 && Pow2(1) == 2 && Pow2(2) == 4 && Pow2(3) == 8 && Pow2(4) == 16 && Pow2(5) == 32
      && Pow2(6) == 64
  {
    assert Pow2(3) == 8;
  }

  lemma IndexOf(t: seq<nat>, n: nat)
    requires t == Cst || t == Cst32
    ensures TableIndex(t, n, 0) ==
      if n < t[0] then 0 else if n < t[1] then 1 else if n < t[2] then 2 else if n < t[3] then 3
      else if n < t[4] then 4 else if n < t[5] then 5 else 6
  {
    assert |t| == 7 && t[6] == 0;
    assert TableIndex(t, n, 6) == 6;
    assert TableIndex(t, n, 5) == if n < t[5] then 5 else 6;
    assert TableIndex(t, n, 4) == if n < t[4] then 4 else TableIndex(t, n, 5);
    assert TableIndex(t, n, 3) == if n < t[3] then 3 else TableIndex(t, n, 4);
    assert TableIndex(t, n, 2) == if n < t[2] then 2 else TableIndex(t, n, 3);
    assert TableIndex(t, n, 1) == if n < t[1] then 1 else TableIndex(t, n, 2);
  }

  /** One attempt without alignment: what it comes to. */
  lemma {:induction false} PlainTry(r: Request, kind: Kind, pau: nat, s: nat)
    requires r.Valid() && r.szBlk == 1 && Size(pau) && s <= 0x80_0000
    ensures TooSmall(r, kind, pau, s) <==> r.szVol < (if kind == Fat32 then 32 else 33) + s + 16 * pau
    ensures (if kind == Fat32 then 32 else 33) + s <= r.szVol ==>
      Aligned(r, kind, pau, s).nClst == Quot(r.szVol - (if kind == Fat32 then 32 else 33) - s, pau)
    ensures Aligned(r, kind, pau, s).kind == kind && Aligned(r, kind, pau, s).pau == pau
  {
    hide And, Aligned, Gap, PowerOfTwo, Quot, Multiple, W, TooSmall;
    AlignedIs(r, kind, pau, s);
    var rsv := if kind == Fat32 then 32 else 33;
    if rsv + s <= r.szVol {
      NoWrap(r.szVol - rsv - s);
    }
  }

  /** One turn of the loop, given the cluster size. */
  lemma TryIs(r: Request, kind: Kind, au: nat, pau: nat)
    requires 0 < r.szBlk <= 0x1_0000_0000 && pau > 0 && pau == if au == 0 then AutoSize(kind, r.szVol) else au
    ensures var n0 := Quot(r.szVol, pau);
      var (k, s) := FirstSize(kind, n0);
      Try(r, kind, au) ==
        if kind == Fat32 && (n0 <= MAX_FAT16 || n0 > MAX_FAT32) then Abort
        else if TooSmall(r, k, pau, s) then Abort
        else Judge(r, au, Aligned(r, k, pau, s))
  {
    hide Quot, FirstSize, TooSmall, Aligned, Judge, AutoSize;
  }

  /** A volume that FAT12 can manage gets it. */
  lemma {:induction false} Done12(r: Request, au: nat, pau: nat)
    requires r.Valid() && r.szBlk == 1 && Size(pau) && pau == (if au == 0 then AutoSize(Fat16, r.szVol) else au)
    requires Quot(r.szVol, pau) <= MAX_FAT12 && 33 + Fat12Size(Quot(r.szVol, pau)) + 16 * pau <= r.szVol
    ensures Settle(r, Fat16, au).Done? && Settle(r, Fat16, au).plan.kind == Fat12
  {
    hide And, Aligned, FirstSize, TooSmall, PowerOfTwo, AutoSize, Settle, Quot, Try;
    BlockPositive(r);
    TryIs(r, Fat16, au, pau);
    SettleStep(r, Fat16, au);
    Attempt12(r, pau);
    var s := Fat12Size(Quot(r.szVol, pau));
    Small12(Quot(r.szVol, pau));
    PlainTry(r, Fat12, pau, s);
    FewerClusters(r.szVol - 33 - s, r.szVol, pau);
  }

  lemma Small12(n: nat)
    requires n <= MAX_FAT12
    ensures Fat12Size(n) <= 12 && 512 * Fat12Size(n) <= 3 * n / 2 + 515
  {
  }

  /** The outcome of the attempt with FAT16. */
  lemma {:induction false} Plain16(r: Request, au: nat, pau: nat)
    requires r.Valid() && r.szBlk == 1 && Size(pau) && pau == (if au == 0 then AutoSize(Fat16, r.szVol) else au)
    requires MAX_FAT12 < Quot(r.szVol, pau) < 0x7FFF_0000
    requires 33 + (2 * Quot(r.szVol, pau) + 515) / 512 + 16 * pau <= r.szVol
    ensures var c := Quot(r.szVol - 33 - (2 * Quot(r.szVol, pau) + 515) / 512, pau);
      var t := Settle(r, Fat16, au);
      && (MAX_FAT12 < c <= MAX_FAT16 ==> t.Done? && t.plan.kind == Fat16)
      && (c > MAX_FAT16 && au == 0 && 2 * pau <= 64 ==> t == Settle(r, Fat16, 2 * pau))
      && (c > MAX_FAT16 && !(au == 0 && 2 * pau <= 64) && r.anyFat32 ==> t == Settle(r, Fat32, au))
      && (c <= MAX_FAT12 && au == 0 && 2 * pau <= 128 ==> t == Settle(r, Fat16, 2 * pau))
  {
    hide And, Aligned, FirstSize, TooSmall, PowerOfTwo, AutoSize, Settle, Quot, Try;
    BlockPositive(r);
    var n0 := Quot(r.szVol, pau);
    TryIs(r, Fat16, au, pau);
    SettleStep(r, Fat16, au);
    QuotIs(r.szVol, pau);
    First16(r.szVol, pau, n0);
    PlainTry(r, Fat16, pau, (2 * n0 + 515) / 512);
  }

  /** The numbers behind the automatic sizes: with too many clusters for FAT16 they are large,
      with too few the doubled ones fit FAT12. */
  lemma {:induction false} Doubling(szVol: nat)
    requires 128 <= szVol < 0x1_0000_0000
    ensures var pau := AutoSize(Fat16, szVol); Size(pau)
    ensures var pau := AutoSize(Fat16, szVol);
      Quot(szVol, pau) <= MAX_FAT12 ==> 33 + Fat12Size(Quot(szVol, pau)) + 16 * pau <= szVol
    ensures var pau := AutoSize(Fat16, szVol);
      var n0 := Quot(szVol, pau);
      n0 > MAX_FAT12 ==>
        && n0 < 0x7FFF_0000 && 33 + (2 * n0 + 515) / 512 + 16 * pau <= szVol
        && var c := Quot(szVol - 33 - (2 * n0 + 515) / 512, pau);
           && (c > MAX_FAT16 ==> pau >= 32)
           && (c <= MAX_FAT12 ==> pau <= 32 && Quot(szVol, 2 * pau) <= 2100 && 33 + 12 + 16 * (2 * pau) <= szVol)
  {
    hide AutoSize, Fat12Size, Quot;
    AutoSizes(szVol);
    var pau := AutoSize(Fat16, szVol);
    var n0 := Quot(szVol, pau);
    QuotIs(szVol, pau);
    if n0 <= MAX_FAT12 {
      Small12(n0);
    } else {
      AtLeast(szVol, pau, n0);
      var left := szVol - 33 - (2 * n0 + 515) / 512;
      QuotIs(left, pau);
      TwicePau(szVol, pau, n0, Quot(left, pau));
    }
  }

  lemma AtLeast(szVol: nat, pau: nat, n0: nat)
    requires Size(pau) && n0 * pau <= szVol < n0 * pau + pau && szVol < 0x1_0000_0000 && n0 > MAX_FAT12
    requires pau <= 2 ==> szVol < 0x4000
    ensures 33 + (2 * n0 + 515) / 512 + 16 * pau <= szVol && n0 < 0x7FFF_0000
  {
    if pau == 1 {
    } else if pau == 2 {
    } else if pau == 4 {
    } else if pau == 8 {
    } else if pau == 16 {
    } else if pau == 32 {
    } else if pau == 64 {
    } else {
    }
  }

  lemma TwicePau(szVol: nat, pau: nat, n0: nat, c: nat)
    requires Size(pau) && pau <= 64 && n0 * pau <= szVol < n0 * pau + pau && n0 > MAX_FAT12
    requires 33 + (2 * n0 + 515) / 512 <= szVol
    requires var left := szVol - 33 - (2 * n0 + 515) / 512; c * pau <= left < c * pau + pau
    requires pau < 64 ==> szVol < 65536 * pau
    requires pau >= 2 ==> szVol >= 2048 * pau
    requires pau >= 16 ==> szVol >= 16384 * pau
    ensures c > MAX_FAT16 ==> pau >= 32
    ensures c <= MAX_FAT12 ==> pau <= 32 && Quot(szVol, 2 * pau) <= 2100 && 33 + 12 + 16 * (2 * pau) <= szVol
  {
    if pau == 1 {
    } else if pau == 2 {
    } else if pau == 4 {
    } else if pau == 8 {
    } else if pau == 16 {
    } else if pau == 32 {
    } else {
    }
  }

  /** FAT16 with 32 KiB clusters, once those of 16 KiB were too many. */
  lemma {:induction false} Next64(r: Request)
    requires r.Valid() && r.szBlk == 1 && 0x10_0000 <= r.szVol < 0x20_0000
    ensures Settle(r, Fat16, 64).Done?
  {
    hide Settle, PowerOfTwo, Quot;
    var n0 := Quot(r.szVol, 64);
    QuotIs(r.szVol, 64);
    var left := r.szVol - 33 - (2 * n0 + 515) / 512;
    QuotIs(left, 64);
    Plain16(r, 64, 64);
  }

  /** FAT32, once the volume was too large for FAT16 with 32 KiB clusters. */
  lemma {:induction false} Large32(r: Request)
    requires r.Valid() && r.szBlk == 1 && r.szVol >= 0x3F_FE00
    ensures Settle(r, Fat32, 0).Done?
  {
    hide And, Aligned, FirstSize, TooSmall, PowerOfTwo, AutoSize, Settle, Quot, Try;
    BlockPositive(r);
    AutoSizes(r.szVol);
    var pau := AutoSize(Fat32, r.szVol);
    var n0 := Quot(r.szVol, pau);
    QuotIs(r.szVol, pau);
    TryIs(r, Fat32, 0, pau);
    SettleStep(r, Fat32, 0);
    First32(n0);
    var s := (n0 * 4 + 519) / 512;
    PlainTry(r, Fat32, pau, s);
    QuotIs(r.szVol - 32 - s, pau);
  }

  lemma First32(n0: nat)
    requires n0 <= 0x800_0000
    ensures FirstSize(Fat32, n0) == (Fat32, (n0 * 4 + 519) / 512)
  {
    NoWrap(n0 * 4 + 519);
  }

  /** Asked for any FAT type without alignment, f_mkfs finds a layout for every volume of at least
      128 sectors, and one with clusters. */
  lemma {:induction false} AnyVolumeFits(r: Request)
    requires r.Valid() && r.szBlk == 1 && r.anyFat32
    ensures Settle(r, Fat16, 0).Done? && Settle(r, Fat16, 0).plan.nClst > 0
  {
    hide AutoSize, PowerOfTwo, Settle, Quot, Fat12Size, NoRoom, FirstPau;
    Doubling(r.szVol);
    AutoSizes(r.szVol);
    var pau := AutoSize(Fat16, r.szVol);
    var n0 := Quot(r.szVol, pau);
    QuotIs(r.szVol, pau);
    if n0 <= MAX_FAT12 {
      Done12(r, 0, pau);
    } else {
      Plain16(r, 0, pau);
      var left := r.szVol - 33 - (2 * n0 + 515) / 512;
      var c := Quot(left, pau);
      QuotIs(left, pau);
      if c > MAX_FAT16 {
        if pau == 32 {
          Next64(r);
        } else {
          Large32(r);
        }
      } else if c <= MAX_FAT12 {
        Small12(Quot(r.szVol, 2 * pau));
        Done12(r, 2 * pau, 2 * pau);
      }
    }
    SmallBlocksFit(r, Fat16, 0);
    BlockPositive(r);
    EmptyExactly(r, Fat16, 0);
  }
}
