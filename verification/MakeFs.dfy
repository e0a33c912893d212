/** f_mkfs: what it writes on the disk once the layout is settled, and that mounting the
    result gives back that layout, on a sound and empty volume. */
module MakeFs {
  import opened Basics
  import opened Bytes
  import opened Layout
  import opened Bits
  import Codec = FatCodec
  import opened FatTable
  import opened Volume
  import opened Clusters
  import opened Format
  import opened Mount

  const EXTENT: seq<byte> := [0xEB, 0xFE, 0x90, 0x4D, 0x53, 0x44, 0x4F, 0x53, 0x35, 0x2E, 0x30]
  const LABEL: seq<byte> := [0x4E, 0x4F, 0x20, 0x4E, 0x41, 0x4D, 0x45, 0x20, 0x20, 0x20, 0x20]
  const BLANK: byte := 0x20

  const BPB_Media: nat := 21
  const BPB_SecPerTrk: nat := 24
  const BPB_NumHeads: nat := 26
  const BPB_HiddSec: nat := 28
  const BPB_BkBootSec32: nat := 50
  const BS_DrvNum: nat := 36
  const BS_VolID: nat := 39
  const BS_DrvNum32: nat := 64
  const BS_VolID32: nat := 67

  /** The text "NO NAME    ". */
  predicate NoName(b: seq<byte>) {
    b == [0x4E, 0x4F, 0x20, 0x4E, 0x41, 0x4D, 0x45, 0x20, 0x20, 0x20, 0x20]
  }

  /** The bytes of the boot sector up to byte 36, which all types share but for the FAT size. */
  predicate CommonFields(w: Sector, r: Request, p: Plan) {
    && w[..11] == [0xEB, 0xFE, 0x90, 0x4D, 0x53, 0x44, 0x4F, 0x53, 0x35, 0x2E, 0x30]
    && LoadWord(w, 11) == 512 && w[13] == p.pau % 256 && LoadWord(w, 14) == p.szRsv % 0x1_0000 && w[16] == 1
    && LoadWord(w, 17) == (if p.kind == Fat32 then 0 else 512)
    && LoadWord(w, 19) == (if r.szVol < 0x1_0000 then r.szVol else 0)
    && w[21] == 0xF8 && LoadWord(w, 24) == 63 && LoadWord(w, 26) == 255 && LoadDword(w, 28) == r.bVol
    && LoadDword(w, 32) == (if r.szVol < 0x1_0000 then 0 else r.szVol)
  }

  /** The FAT size, and the bytes from byte 36 to the signature; the four bytes of the volume
      serial number are not determined. */
  predicate KindFields(w: Sector, p: Plan) {
    if p.kind == Fat32 then
      && LoadWord(w, 22) == 0 && LoadDword(w, 36) == p.szFat % 0x1_0000_0000
      && LoadWord(w, 40) == 0 && LoadWord(w, 42) == 0 && LoadDword(w, 44) == 2 && LoadWord(w, 48) == 1
        && LoadWord(w, 50) == 6
      && (forall i :: 52 <= i < 64 ==> w[i] == 0) && w[64] == 0x80 && w[65] == 0 && w[66] == 0x29 && NoName(w[71..82])
      && w[82..90] == [0x46, 0x41, 0x54, 0x33, 0x32, 0x20, 0x20, 0x20] && forall i :: 90 <= i < 510 ==> w[i] == 0
    else
      && LoadWord(w, 22) == p.szFat % 0x1_0000 && w[36] == 0x80 && w[37] == 0 && w[38] == 0x29 && NoName(w[43..54])
      && w[54..62] == [0x46, 0x41, 0x54, 0x20, 0x20, 0x20, 0x20, 0x20] && forall i :: 62 <= i < 510 ==> w[i] == 0
  }

  /** The boot sector of the volume. */
  predicate IsVbr(w: Sector, r: Request, p: Plan) {
    CommonFields(w, r, p) && KindFields(w, p) && LoadWord(w, 510) == 0xAA55
  }

  lemma WordBack(b: seq<byte>, i: nat, v: nat)
    requires i + 2 <= |b|
    ensures LoadWord(Patch(b, i, WordBytes(v)), i) == v % 0x1_0000
  {
  }

  lemma DwordBack(b: seq<byte>, i: nat, v: nat)
    requires i + 4 <= |b|
    ensures LoadDword(Patch(b, i, DwordBytes(v)), i) == v % 0x1_0000_0000
  {
    var d := Patch(b, i, DwordBytes(v));
    assert d[i] == v % 256 && d[i + 1] == v / 256 % 256 && d[i + 2] == v / 65536 % 256
      && d[i + 3] == v / 16777216 % 256;
    FourBytes(v);
  }

  lemma FourBytes(v: nat)
    ensures v % 0x1_0000_0000 == v % 256 + 256 * (v / 256 % 256) + 65536 * (v / 65536 % 256)
      + 16777216 * (v / 16777216 % 256)
  {
    LowByte(v, 0x100_0000);
    LowByte(v / 256, 0x1_0000);
    LowByte(v / 256 / 256, 0x100);
    assert v / 256 / 256 == v / 65536 && v / 65536 / 256 == v / 16777216;
  }

  lemma LowByte(v: nat, m: nat)
    requires m > 0
    ensures v % (256 * m) == v % 256 + 256 * (v / 256 % m)
  {
    var q, r := v / 256, v % 256;
    var s, t := q / m, q % m;
    assert v == 256 * q + r && q == m * s + t;
    assert 256 * (m * s) == (256 * m) * s;
    ModIs(v, 256 * m, s, r + 256 * t);
  }

  /** Outside the offsets from `lo` to `hi` - 1 everything reads the same. */
  ghost predicate Apart(b: seq<byte>, b': seq<byte>, lo: nat, hi: nat) {
    && |b'| == |b|
    && (forall i :: 0 <= i < |b| && !(lo <= i < hi) ==> b'[i] == b[i])
    && (forall i: nat :: i + 2 <= |b| && (i + 2 <= lo || hi <= i) ==> LoadWord(b', i) == LoadWord(b, i))
    && (forall i: nat :: i + 4 <= |b| && (i + 4 <= lo || hi <= i) ==> LoadDword(b', i) == LoadDword(b, i))
  }

  lemma PatchApart(b: seq<byte>, i: nat, d: seq<byte>)
    requires i + |d| <= |b|
    ensures Apart(b, Patch(b, i, d), i, i + |d|)
  {
  }

  method PutBytes(buf: array<byte>, i: nat, d: seq<byte>)
    requires i + |d| <= buf.Length
    modifies buf
    ensures buf[i..i + |d|] == d && Apart(old(buf[..]), buf[..], i, i + |d|)
  {
    PatchApart(buf[..], i, d);
    CopyInto(buf, i, d);
  }

  method PutWord(buf: array<byte>, i: nat, v: nat)
    requires i + 2 <= buf.Length
    modifies buf
    ensures LoadWord(buf[..], i) == v % 0x1_0000 && Apart(old(buf[..]), buf[..], i, i + 2)
  {
    hide LoadWord, LoadDword, WordBytes;
    PatchApart(buf[..], i, WordBytes(v));
    WordBack(buf[..], i, v);
    StoreWord(buf, i, v);
  }

  method PutDword(buf: array<byte>, i: nat, v: nat)
    requires i + 4 <= buf.Length
    modifies buf
    ensures LoadDword(buf[..], i) == v % 0x1_0000_0000 && Apart(old(buf[..]), buf[..], i, i + 4)
  {
    hide LoadWord, LoadDword, DwordBytes;
    PatchApart(buf[..], i, DwordBytes(v));
    DwordBack(buf[..], i, v);
    StoreDword(buf, i, v);
  }

  /** All bytes from `lo` to `hi` - 1 are 0. */
  ghost predicate Blank(b: seq<byte>, lo: nat, hi: nat) {
    && hi <= |b| && (forall i :: lo <= i < hi ==> b[i] == 0)
    && (forall i: nat :: lo <= i && i + 2 <= hi ==> LoadWord(b, i) == 0)
    && (forall i: nat :: lo <= i && i + 4 <= hi ==> LoadDword(b, i) == 0)
  }

  predicate HeadFields(w: Sector, p: Plan) {
    && w[..11] == EXTENT && LoadWord(w, BPB_BytsPerSec) == 512 && w[BPB_SecPerClus] == p.pau % 256
    && LoadWord(w, BPB_RsvdSecCnt) == p.szRsv % 0x1_0000 && w[BPB_NumFATs] == 1
  }

  method FillHead(buf: array<byte>, p: Plan)
    requires buf.Length == 512 && Blank(buf[..], 0, 512)
    modifies buf
    ensures HeadFields(buf[..], p) && Blank(buf[..], BPB_RootEntCnt, 512)
  {
    hide LoadWord, LoadDword;
    PutBytes(buf, 0, EXTENT);
    ghost var b := buf[..];
    assert b[..11] == EXTENT;
    PutWord(buf, BPB_BytsPerSec, 512);
    PutBytes(buf, BPB_SecPerClus, [p.pau % 256]);
    assert buf[BPB_SecPerClus] == buf[BPB_SecPerClus..BPB_SecPerClus + 1][0];
    PutWord(buf, BPB_RsvdSecCnt, p.szRsv);
    PutBytes(buf, BPB_NumFATs, [1]);
    assert buf[BPB_NumFATs] == buf[BPB_NumFATs..BPB_NumFATs + 1][0];
    assert buf[..][..11] == b[..11];
  }

  /** The part of the boot sector that all types share. */
  method FillCommon(buf: array<byte>, r: Request, p: Plan)
    requires buf.Length == 512 && r.Valid() && Blank(buf[..], 0, 512)
    modifies buf
    ensures CommonFields(buf[..], r, p) && Blank(buf[..], 36, 512) && LoadWord(buf[..], BPB_FATSz16) == 0
  {
    hide LoadWord, LoadDword;
    FillHead(buf, p);
    ghost var b := buf[..];
    PutWord(buf, BPB_RootEntCnt, if p.kind == Fat32 then 0 else ROOT_ENTRIES);
    if r.szVol < 0x1_0000 {
      PutWord(buf, BPB_TotSec16, r.szVol);
    } else {
      PutDword(buf, BPB_TotSec32, r.szVol);
    }
    PutBytes(buf, BPB_Media, [0xF8]);
    assert buf[BPB_Media] == buf[BPB_Media..BPB_Media + 1][0];
    PutWord(buf, BPB_SecPerTrk, 63);
    PutWord(buf, BPB_NumHeads, 255);
    PutDword(buf, BPB_HiddSec, r.bVol);
    assert buf[..][..11] == b[..11];
  }

  lemma CommonKept(b: Sector, b': Sector, lo: nat, hi: nat, r: Request, p: Plan)
    requires Apart(b, b', lo, hi) && (36 <= lo || (lo == BPB_FATSz16 && hi == 24)) && CommonFields(b, r, p)
    ensures CommonFields(b', r, p)
  {
    hide LoadWord, LoadDword;
    assert b'[..11] == b[..11];
  }

  /** The part that differs between FAT32 and the others. */
  method FillKind(buf: array<byte>, p: Plan, serial: nat)
    requires buf.Length == 512 && Blank(buf[..], 36, 512) && LoadWord(buf[..], BPB_FATSz16) == 0 && p.kind == Fat32
    modifies buf
    ensures KindFields(buf[..], p) && Apart(old(buf[..]), buf[..], 36, 510)
    ensures LoadDword(buf[..], 67) == serial % 0x1_0000_0000
  {
    hide LoadWord, LoadDword;
    PutDword(buf, BS_VolID32, serial);
    PutDword(buf, BPB_FATSz32, p.szFat);
    PutDword(buf, BPB_RootClus32, 2);
    PutWord(buf, BPB_FSInfo32, 1);
    PutWord(buf, BPB_BkBootSec32, 6);
    FillNames(buf, BS_DrvNum32, FAT32 + [BLANK, BLANK, BLANK]);
  }

  /** Drive number, extended signature, label and type text, around the serial number. */
  method FillNames(buf: array<byte>, o: nat, text: seq<byte>)
    requires o + 26 <= buf.Length && |text| == 8
    modifies buf
    ensures buf[o] == 0x80 && buf[o + 2] == 0x29 && NoName(buf[o + 7..o + 18]) && buf[o + 18..o + 26] == text
    ensures forall i :: 0 <= i < buf.Length && !(o <= i < o + 26 && i != o + 1 && !(o + 3 <= i < o + 7)) ==>
      buf[i] == old(buf[i])
    ensures Apart(old(buf[..]), buf[..], o, o + 26)
    ensures LoadDword(buf[..], o + 3) == old(LoadDword(buf[..], o + 3))
  {
    ghost var b := buf[..];
    buf[o] := 0x80;
    buf[o + 2] := 0x29;
    CopyInto(buf, o + 7, LABEL);
    CopyInto(buf, o + 18, text);
    assert buf[o + 7..o + 18] == LABEL;
    assert buf[o + 18..o + 26] == text;
  }

  method FillKind16(buf: array<byte>, r: Request, p: Plan, serial: nat)
    requires buf.Length == 512 && p.kind != Fat32 && CommonFields(buf[..], r, p) && Blank(buf[..], 36, 512)
    modifies buf
    ensures KindFields(buf[..], p) && CommonFields(buf[..], r, p)
    ensures LoadDword(buf[..], 39) == serial % 0x1_0000_0000
  {
    hide LoadWord, LoadDword, CommonFields;
    ghost var b := buf[..];
    PutWord(buf, BPB_FATSz16, p.szFat);
    CommonKept(b, buf[..], BPB_FATSz16, 24, r, p);
    b := buf[..];
    PutDword(buf, BS_VolID, serial);
    FillNames(buf, BS_DrvNum, FAT + [BLANK, BLANK, BLANK, BLANK, BLANK]);
    CommonKept(b, buf[..], 36, 62, r, p);
  }

  lemma KindKept(b: Sector, b': Sector, p: Plan)
    requires Apart(b, b', BS_55AA, 512) && KindFields(b, p)
    ensures KindFields(b', p)
  {
    hide LoadWord, LoadDword;
    assert b'[71..82] == b[71..82] && b'[82..90] == b[82..90];
    assert b'[43..54] == b[43..54] && b'[54..62] == b[54..62];
  }

  /** The boot sector, in a cleared buffer. */
  method FillVbr(buf: array<byte>, r: Request, p: Plan, serial: nat)
    requires buf.Length == 512 && r.Valid() && Blank(buf[..], 0, 512)
    modifies buf
    ensures IsVbr(buf[..], r, p) && LoadDword(buf[..], if p.kind == Fat32 then 67 else 39) == serial % 0x1_0000_0000
  {
    hide LoadWord, LoadDword, CommonFields, KindFields, Blank;
    FillCommon(buf, r, p);
    ghost var b := buf[..];
    if p.kind == Fat32 {
      FillKind(buf, p, serial);
      CommonKept(b, buf[..], 36, 510, r, p);
    } else {
      FillKind16(buf, r, p, serial);
    }
    b := buf[..];
    PutWord(buf, BS_55AA, 0xAA55);
    CommonKept(b, buf[..], BS_55AA, 512, r, p);
    KindKept(b, buf[..], p);
  }

  // ----- the other sectors -----

  lemma ClearedBlank()
    ensures Blank(ZeroSector(), 0, 512)
  {
  }

  method FreshBuffer() returns (buf: array<byte>)
    ensures fresh(buf) && buf.Length == 512 && buf[..] == ZeroSector() && Blank(buf[..], 0, 512)
  {
    buf := new byte[512](_ => 0);
    assert buf[..] == ZeroSector();
    ClearedBlank();
  }

  /** The information sector of FAT32: the free count and the last allocated cluster, between
      its three signatures. */
  predicate IsInfo(w: Sector, free: nat, last: nat) {
    && LoadDword(w, 0) == 0x4161_5252 && LoadDword(w, 484) == 0x6141_7272 && LoadWord(w, 510) == 0xAA55
    && LoadDword(w, 488) == free && LoadDword(w, 492) == last
    && forall i :: 4 <= i < 510 && !(484 <= i < 496) ==> w[i] == 0
  }

  method FillInfo(buf: array<byte>, free: nat, last: nat)
    requires buf.Length == 512 && free < 0x1_0000_0000 && last < 0x1_0000_0000
    modifies buf
    ensures IsInfo(buf[..], free, last)
  {
    hide LoadWord, LoadDword;
    PutBytes(buf, 0, ZeroSector());
    assert forall i :: 0 <= i < 512 ==> buf[i] == buf[0..512][i];
    PutDword(buf, 0, 0x4161_5252);
    PutDword(buf, FSI_StrucSig, 0x6141_7272);
    PutDword(buf, FSI_Free_Count, free);
    PutDword(buf, FSI_Nxt_Free, last);
    PutWord(buf, BS_55AA, 0xAA55);
  }

  /** A partition table whose first entry, with all its sixteen bytes, is that of a partition of
      `szVol` sectors from `bVol` on; the other entries are unused. */
  predicate IsMbr(w: Sector, kind: Kind, bVol: nat, szVol: nat) {
    var n := (bVol + szVol) / 16065;
    && (forall i :: 0 <= i < 446 ==> w[i] == 0) && w[446] == 0 && w[447] == 1 && w[448] == 1 && w[449] == 0
    && w[450] == SystemId(kind, szVol) && w[451] == 254 && w[452] == n / 256 % 4 * 64 + 63 && w[453] == n % 256
    && LoadDword(w, 454) == bVol && LoadDword(w, 458) == szVol
    && (forall i :: 462 <= i < 510 ==> w[i] == 0) && LoadWord(w, 510) == 0xAA55
  }

  function SystemId(kind: Kind, szVol: nat): byte {
    if kind == Fat32 then 0x0C else if szVol >= 0x1_0000 then 0x06 else if kind == Fat16 then 0x04 else 0x01
  }

  method FillMbr(buf: array<byte>, kind: Kind, bVol: nat, szVol: nat)
    requires buf.Length == 512 && Blank(buf[..], 0, 512) && bVol + szVol < 0x1_0000_0000
    modifies buf
    ensures IsMbr(buf[..], kind, bVol, szVol)
  {
    hide LoadWord, LoadDword, SystemId;
    PutWord(buf, BS_55AA, 0xAA55);
    var n := (bVol + szVol) / (63 * 255);
    Quarter(n);
    PutBytes(buf, MBR_Table, [0, 1, 1, 0, SystemId(kind, szVol), 254, n / 4 / 64 % 4 * 64 + 63, n % 256]);
    EightBytes(buf[..], MBR_Table, [0, 1, 1, 0, SystemId(kind, szVol), 254, n / 256 % 4 * 64 + 63, n % 256]);
    PutDword(buf, MBR_Table + 8, bVol);
    PutDword(buf, MBR_Table + 12, szVol);
  }

  lemma Quarter(n: nat)
    ensures n / 4 / 64 == n / 256
  {
  }

  lemma EightBytes(b: seq<byte>, i: nat, d: seq<byte>)
    requires |d| == 8 && i + 8 <= |b| && b[i..i + 8] == d
    ensures b[i] == d[0] && b[i + 1] == d[1] && b[i + 2] == d[2] && b[i + 3] == d[3]
    ensures b[i + 4] == d[4] && b[i + 5] == d[5] && b[i + 6] == d[6] && b[i + 7] == d[7]
  {
    var c := b[i..i + 8];
    assert c[0] == b[i] && c[1] == b[i + 1] && c[2] == b[i + 2] && c[3] == b[i + 3];
    assert c[4] == b[i + 4] && c[5] == b[i + 5] && c[6] == b[i + 6] && c[7] == b[i + 7];
  }

  /** The bytes a new FAT starts with: entries 0 and 1, on FAT32 also that of the root directory. */
  function FirstEntries(kind: Kind): seq<byte> {
    match kind
    case Fat12 => [0xF8, 0xFF, 0xFF]
    case Fat16 => [0xF8, 0xFF, 0xFF, 0xFF]
    case Fat32 => [0xF8, 0xFF, 0xFF, 0xFF, 0xFF, 0xFF, 0xFF, 0xFF, 0xFF, 0xFF, 0xFF, 0x0F]
  }

  /** The first sector of a new FAT. */
  predicate IsFatHead(w: Sector, kind: Kind) {
    FirstEntries(kind) <= w && forall i :: |FirstEntries(kind)| <= i < 512 ==> w[i] == 0
  }

  method FillFatHead(buf: array<byte>, kind: Kind)
    requires buf.Length == 512 && buf[..] == ZeroSector()
    modifies buf
    ensures IsFatHead(buf[..], kind)
  {
    hide DwordBytes;
    HeadBytes();
    if kind == Fat32 {
      StoreDword(buf, 0, 0xFFFF_FFF8);
      StoreDword(buf, 4, 0xFFFF_FFFF);
      StoreDword(buf, 8, 0x0FFF_FFFF);
    } else {
      StoreDword(buf, 0, if kind == Fat12 then 0xFF_FFF8 else 0xFFFF_FFF8);
    }
    var head := FirstEntries(kind);
    assert forall i :: 0 <= i < |head| ==> buf[..][i] == head[i];
  }

  lemma HeadBytes()
    ensures DwordBytes(0xFFFF_FFF8) == [0xF8, 0xFF, 0xFF, 0xFF] && DwordBytes(0xFFFF_FFFF) == [0xFF, 0xFF, 0xFF, 0xFF]
    ensures DwordBytes(0x0FFF_FFFF) == [0xFF, 0xFF, 0xFF, 0x0F] && DwordBytes(0xFF_FFF8) == [0xF8, 0xFF, 0xFF, 0]
  {
  }

  /** Writes `nsect` sectors from `sect` on, a buffer at a time; only its first sector may
      be other than 0, and it is cleared after its first use. */
  method WriteFill(d: Disk, sect0: nat, nsect0: nat, first: Sector, szBuf: nat) returns (d': Disk)
    requires nsect0 > 0 && sect0 + nsect0 <= |d| && szBuf > 0
    ensures |d'| == |d| && forall s :: 0 <= s < |d| ==>
      d'[s] == if s == sect0 then first else if sect0 < s < sect0 + nsect0 then ZeroSector() else d[s]
  {
    d' := d;
    var sect, nsect := sect0, nsect0;
    var head: Sector := first;
    while true
      invariant |d'| == |d| && 0 < nsect <= nsect0 && sect + nsect == sect0 + nsect0
      invariant head == if nsect == nsect0 then first else ZeroSector()
      invariant forall s :: 0 <= s < |d| ==>
        d'[s] == if !(sect0 <= s < sect) then d[s] else if s == sect0 then first else ZeroSector()
      decreases nsect
    {
      var n := if nsect > szBuf then szBuf else nsect;
      d' := Patch(d', sect, [head] + seq<Sector>(n - 1, _ => ZeroSector()));
      head := ZeroSector();
      sect, nsect := sect + n, nsect - n;
      if nsect == 0 {
        break;
      }
    }
  }

  // ----- f_mkfs -----

  /** The sectors behind the FAT that are cleared: the root directory. */
  function RootSectors(p: Plan): nat {
    if p.kind == Fat32 then p.pau else p.szDir
  }

  /** What f_mkfs leaves on a disk that was `d0`. */
  ghost predicate Formatted(d0: Disk, d: Disk, r: Request, p: Plan, sfd: bool) {
    && |d| == |d0| == r.bVol + r.szVol && (r.bVol == if sfd then 0 else 63)
    && r.bVol < p.bFat && p.szFat > 0 && p.bFat + p.szFat + RootSectors(p) <= |d|
    && (p.kind == Fat32 ==> r.bVol + 32 <= p.bFat)
    && IsVbr(d[r.bVol], r, p)
    && (p.kind == Fat32 ==>
          d[r.bVol + 6] == d[r.bVol] && d[r.bVol + 7] == d[r.bVol + 1] && p.nClst > 0
            && IsInfo(d[r.bVol + 1], p.nClst - 1, 2))
    && IsFatHead(d[p.bFat], p.kind)
    && (forall s :: p.bFat < s < p.bFat + p.szFat + RootSectors(p) ==> d[s] == ZeroSector())
    && (!sfd ==> IsMbr(d[0], p.kind, r.bVol, r.szVol))
    && forall s :: 0 <= s < |d| && !(r.bVol <= s < p.bFat + p.szFat + RootSectors(p)) && (s != 0 || sfd) ==>
      d[s] == d0[s]
  }

  /** The boot sector and, on FAT32, its copy and the information sectors are written. */
  ghost predicate BootWritten(d0: Disk, d: Disk, r: Request, p: Plan) {
    && |d| == |d0| && r.bVol + 7 < |d|
    && IsVbr(d[r.bVol], r, p)
    && (p.kind == Fat32 ==>
          d[r.bVol + 6] == d[r.bVol] && d[r.bVol + 7] == d[r.bVol + 1] && p.nClst > 0
            && IsInfo(d[r.bVol + 1], p.nClst - 1, 2))
    && forall s :: 0 <= s < |d| && s != r.bVol && !(p.kind == Fat32 && s - r.bVol in {1, 6, 7}) ==> d[s] == d0[s]
  }

  method WriteBoot(d0: Disk, r: Request, p: Plan, serial: nat) returns (d: Disk)
    requires r.Valid() && r.bVol + 7 < |d0| && (p.kind == Fat32 ==> 0 < p.nClst < 0x1_0000_0000)
    ensures BootWritten(d0, d, r, p)
  {
    hide LoadWord, LoadDword, IsVbr, IsInfo, ZeroSector, Blank, PowerOfTwo;
    d := d0;
    var buf := FreshBuffer();
    FillVbr(buf, r, p, serial);
    d := d[r.bVol := buf[..]];
    if p.kind == Fat32 {
      d := d[r.bVol + 6 := buf[..]];
      buf := FreshBuffer();
      FillInfo(buf, p.nClst - 1, 2);
      d := d[r.bVol + 7 := buf[..]];
      d := d[r.bVol + 1 := buf[..]];
    }
  }

  /** The FAT and the root directory are initialised. */
  ghost predicate AreasWritten(d0: Disk, d: Disk, p: Plan) {
    && |d| == |d0| && p.bFat + p.szFat + RootSectors(p) <= |d| && p.szFat > 0
    && IsFatHead(d[p.bFat], p.kind)
    && (forall s :: p.bFat < s < p.bFat + p.szFat + RootSectors(p) ==> d[s] == ZeroSector())
    && forall s :: 0 <= s < |d| && !(p.bFat <= s < p.bFat + p.szFat + RootSectors(p)) ==> d[s] == d0[s]
  }

  method WriteAreas(d0: Disk, p: Plan, szBuf: nat) returns (d: Disk)
    requires p.bFat + p.szFat + RootSectors(p) <= |d0| && p.szFat > 0 && RootSectors(p) > 0 && szBuf > 0
    ensures AreasWritten(d0, d, p)
  {
    hide LoadWord, LoadDword, IsFatHead, ZeroSector, Blank;
    var buf := FreshBuffer();
    FillFatHead(buf, p.kind);
    d := WriteFill(d0, p.bFat, p.szFat, buf[..], szBuf);
    d := WriteFill(d, p.bFat + p.szFat, RootSectors(p), ZeroSector(), szBuf);
  }

  /** The writes of f_mkfs for a settled layout. */
  method WriteVolume(d0: Disk, r: Request, p: Plan, sfd: bool, szBuf: nat, serial: nat) returns (d: Disk)
    requires r.Valid() && Sound(r, p) && |d0| == r.bVol + r.szVol && r.bVol == (if sfd then 0 else 63) && szBuf > 0
    ensures Formatted(d0, d, r, p, sfd)
  {
    hide LoadWord, LoadDword, IsVbr, IsInfo, IsMbr, IsFatHead, Quot, Multiple, PowerOfTwo, FatNeed, ZeroSector, Blank,
      Sound;
    SoundFacts(r, p);
    d := WriteBoot(d0, r, p, serial);
    d := WriteAreas(d, p, szBuf);
    if !sfd {
      var buf := FreshBuffer();
      FillMbr(buf, p.kind, r.bVol, r.szVol);
      d := d[0 := buf[..]];
    }
  }

  lemma SoundFacts(r: Request, p: Plan)
    requires r.Valid() && Sound(r, p)
    ensures RootSectors(p) > 0 && p.szFat > 0 && p.bFat == r.bVol + p.szRsv && 0 < p.szRsv < 0x1_0000
    ensures p.kind == Fat32 ==> p.szRsv >= 32 && 0 < p.nClst < 0x1_0000_0000
    ensures p.kind == Fat32 || p.nClst > 0 ==> p.bFat + p.szFat + p.szDir + p.pau <= r.bVol + r.szVol
    ensures p.bFat + p.szFat + RootSectors(p) <= r.bVol + r.szVol
    ensures p.kind != Fat32 ==> RootSectors(p) == p.szDir == 32
  {
    QuotIs(r.szVol - p.szRsv - p.szFat - p.szDir, p.pau);
  }

  datatype MkResult = MkOk | Aborted | BadParameter | NoCore

  /** The cluster size asked for, in bytes, is none or one a volume can have. */
  predicate AuOk(au: nat) {
    au == 0 || (512 <= au <= 0x100_0000 && And(au, au - 1) == 0)
  }

  /** The erase block size the device reports, or 1 if it makes no sense. */
  function Block(szBlk: nat): nat {
    if szBlk == 0 || szBlk > 32768 || And(szBlk, szBlk - 1) != 0 then 1 else szBlk
  }

  /** The erase block size is taken as reported if it is a power of two up to 32768, else as 1. */
  lemma BlockIs(szBlk: nat)
    ensures Block(szBlk) == if 0 < szBlk <= 32768 && PowerOfTwo(szBlk) then szBlk else 1
  {
    if szBlk > 0 {
      AndLess(szBlk);
    }
  }

  /** A cluster size of 0 bytes, or a power of two from 512 to 16 Mi, is admitted. */
  lemma AuIs(au: nat)
    ensures AuOk(au) <==> au == 0 || (512 <= au <= 0x100_0000 && PowerOfTwo(au))
  {
    if au > 0 {
      AndLess(au);
    }
  }

  lemma BlockOk(szBlk: nat)
    ensures PowerOfTwo(Block(szBlk)) && 0 < Block(szBlk) <= 32768
  {
    if szBlk > 0 {
      AndLess(szBlk);
    }
  }

  lemma AuSize(au: nat)
    requires AuOk(au) && au / 512 <= 128
    ensures au / 512 == 0 || Size(au / 512)
    ensures au / 512 == 0 ==> au == 0
  {
    if au != 0 {
      AndLess(au);
      Shifted(au, 9);
    }
  }

  lemma {:induction false} Shifted(x: nat, k: nat)
    requires PowerOfTwo(x) && k <= 9 && Pow2(k) <= x && x / Pow2(k) <= 128
    ensures PowerOfTwo(x / Pow2(k)) && Size(x / Pow2(k))
    ensures k == 9 ==> Pow2(k) == 512
    decreases k
  {
    if k == 0 {
      SmallPowers(x);
    } else {
      Halved(x);
      DivDiv(x, Pow2(k - 1));
      assert x / Pow2(k) == x / 2 / Pow2(k - 1);
      Shifted(x / 2, k - 1);
    }
    assert Pow2(0) == 1 && Pow2(1) == 2 && Pow2(2) == 4 && Pow2(3) == 8 && Pow2(4) == 16;
    assert Pow2(5) == 32 && Pow2(6) == 64 && Pow2(7) == 128 && Pow2(8) == 256 && Pow2(9) == 512;
  }

  lemma DivDiv(x: nat, m: nat)
    requires m > 0
    ensures x / (2 * m) == x / 2 / m
  {
    var q, r := x / 2, x % 2;
    var s, t := q / m, q % m;
    assert x == 2 * q + r && q == m * s + t;
    assert 2 * (m * s) == (2 * m) * s;
    ModIs(x, 2 * m, s, r + 2 * t);
  }

  /** f_mkfs, without partition table lookup and without exFAT. */
  method Mkfs(d0: Disk, au0: nat, optFat: bool, optFat32: bool, sfd: bool, blk: nat, szBuf: nat, serial: nat)
    returns (res: MkResult, d: Disk, ghost r: Request, ghost t: Turn)
    requires |d0| < 0x1_0000_0000
    ensures res != MkOk ==> d == d0
    ensures !AuOk(au0) ==> res == BadParameter
    ensures AuOk(au0) && szBuf == 0 ==> res == NoCore
    ensures AuOk(au0) && szBuf > 0 && |d0| < (if sfd then 0 else 63) + 128 ==> res == Aborted
    ensures AuOk(au0) && szBuf > 0 && |d0| >= (if sfd then 0 else 63) + 128 ==>
      && r.Valid() && r.bVol == (if sfd then 0 else 63) && r.bVol + r.szVol == |d0| && r.anyFat32 == optFat32
      && r.szBlk == (if 0 < blk <= 32768 && PowerOfTwo(blk) then blk else 1)
      && if au0 / 512 > 128 || (!optFat && !optFat32) then res == BadParameter
         else
           && t == Settle(r, if optFat32 && !optFat then Fat32 else Fat16, au0 / 512)
           && (res == MkOk <==> t.Done?) && (res == Aborted <==> t.Abort?)
           && (res == MkOk ==> Sound(r, t.plan) && Formatted(d0, d, r, t.plan, sfd))
  {
    hide Formatted, Sound, Settle, And;
    d := d0;
    t := Abort;
    var bVol := if sfd then 0 else 63;
    r := Request(0, bVol, 1, optFat32);
    BlockOk(blk);
    BlockIs(blk);
    if au0 != 0 && (au0 < 512 || au0 > 0x100_0000 || And(au0, au0 - 1) != 0) {
      return BadParameter, d, r, t;
    }
    var au := au0 / 512;
    if szBuf == 0 {
      return NoCore, d, r, t;
    }
    if |d0| < bVol || |d0| - bVol < 128 {
      return Aborted, d, r, t;
    }
    var req := Request(|d0| - bVol, bVol, Block(blk), optFat32);
    r := req;
    if au > 128 || (!optFat && !optFat32) {
      return BadParameter, d, r, t;
    }
    AuSize(au0);
    var fmt := if optFat32 && !optFat then Fat32 else Fat16;
    var turn := ChooseLayout(req, fmt, au);
    t := turn;
    SettleSound(req, fmt, au);
    if turn.Abort? {
      return Aborted, d, r, t;
    }
    d := WriteVolume(d0, req, turn.plan, sfd, szBuf, serial);
    res := MkOk;
  }

  // ----- what was formatted mounts -----

  /** The layout as find_volume should see it. */
  function GeometryOf(r: Request, p: Plan): Geometry {
    Geometry(p.kind, 1, p.pau, if p.kind == Fat32 then 0 else ROOT_ENTRIES, p.nClst + 2, p.szFat, r.bVol, p.bFat,
      if p.kind == Fat32 then 2 else p.bFat + p.szFat, p.bFat + p.szFat + p.szDir)
  }

  /** A boot sector of f_mkfs is accepted exactly when the volume has a cluster, and read
      back as the layout it was made for. */
  lemma {:induction false} VbrAccepted(w: Sector, r: Request, p: Plan)
    requires r.Valid() && Sound(r, p) && IsVbr(w, r, p)
    ensures Accept(w, r.bVol) == if p.nClst > 0 then Some(GeometryOf(r, p)) else None
  {
    hide LoadWord, LoadDword, W, And, PowerOfTwo, Quot, Multiple;
    SoundFacts(r, p);
    FatFits(r, p);
    assert FatSize(w) == p.szFat && TotalSectors(w) == r.szVol;
    SizePower(p.pau);
    AndLess(p.pau);
    NoWrap(p.szFat);
    NoWrap(p.szRsv + p.szFat + p.szDir);
    NoWrap(p.bFat);
    NoWrap(p.bFat + p.szFat);
    NoWrap(p.bFat + p.szFat + p.szDir);
    assert r.szVol - (p.szRsv + p.szFat + p.szDir) == r.szVol - p.szRsv - p.szFat - p.szDir;
  }

  lemma FatFits(r: Request, p: Plan)
    requires r.Valid() && Sound(r, p)
    ensures p.szRsv % 0x1_0000 == p.szRsv && p.pau % 256 == p.pau && p.szFat % 0x1_0000_0000 == p.szFat
    ensures p.kind != Fat32 ==> p.szFat % 0x1_0000 == p.szFat
  {
  }

  lemma SizePower(x: nat)
    requires Size(x)
    ensures PowerOfTwo(x) && 0 < x <= 128
  {
    assert PowerOfTwo(1);
    assert PowerOfTwo(2) && PowerOfTwo(4) && PowerOfTwo(8) && PowerOfTwo(16);
    assert PowerOfTwo(32);
    assert PowerOfTwo(64);
    assert PowerOfTwo(128);
  }

  lemma VbrIsFat(w: Sector, r: Request, p: Plan)
    requires IsVbr(w, r, p)
    ensures w[0] == 0xEB && (w[54..57] == FAT || w[82..87] == FAT32) && LoadWord(w, 510) == 0xAA55
  {
    hide LoadWord, LoadDword;
    assert w[0] == w[..11][0];
    assert w[54..57] == w[54..62][..3] && w[82..87] == w[82..90][..5];
  }

  /** What the partition table says: one partition, which covers exactly the sectors that the boot
      sector in it claims, up to the end of the disk; its type tells kind and size. */
  lemma {:induction false} FormattedPartition(d0: Disk, d: Disk, r: Request, p: Plan)
    requires r.Valid() && Sound(r, p) && Formatted(d0, d, r, p, false)
    ensures LoadDword(d[0], 454) == 63 && LoadDword(d[0], 458) == TotalSectors(d[63]) && 63 + TotalSectors(d[63]) == |d|
    ensures LoadDword(d[63], 28) == 63
    ensures d[0][450] == 0x0C <==> p.kind == Fat32
    ensures d[0][450] == 0x06 <==> p.kind != Fat32 && |d| - 63 >= 0x1_0000
    ensures d[0][450] == 0x04 <==> p.kind == Fat16 && |d| - 63 < 0x1_0000
    ensures d[0][450] == 0x01 <==> p.kind == Fat12 && |d| - 63 < 0x1_0000
    ensures d[0][450 + 16] == 0 && d[0][450 + 32] == 0 && d[0][450 + 48] == 0
  {
    hide LoadWord, LoadDword, Sound, PowerOfTwo, KindFields;
  }

  lemma {:induction false} FormattedFound(d0: Disk, d: Disk, r: Request, p: Plan, sfd: bool)
    requires r.Valid() && Sound(r, p) && Formatted(d0, d, r, p, sfd)
    ensures Locate(d) == (0, r.bVol)
  {
    hide LoadWord, LoadDword, Sound, PowerOfTwo, CommonFields, KindFields;
    VbrIsFat(d[r.bVol], r, p);
    if !sfd {
      assert CheckFs(d, 0) == 2;
      assert Partition(d[0], 0) == 63;
      assert CheckFs(d, 63) == 0;
    }
  }

  /** Mounting what f_mkfs made succeeds exactly when it has a cluster, and recovers type,
      bases, cluster size and count; FAT32 also the free count and the last cluster. */
  lemma {:induction false} FormattedMounts(d0: Disk, d: Disk, r: Request, p: Plan, sfd: bool)
    requires r.Valid() && Sound(r, p) && Formatted(d0, d, r, p, sfd)
    ensures Outcome(d) ==
      if p.nClst == 0 then NoFileSystem
      else if p.kind == Fat32 then Mount.Volume(Mounted(GeometryOf(r, p), p.nClst - 1, 2, r.bVol + 1))
      else Mount.Volume(Mounted(GeometryOf(r, p), UNKNOWN, UNKNOWN, r.bVol))
  {
    hide LoadWord, LoadDword, Sound, PowerOfTwo, Accept, Locate;
    FormattedFound(d0, d, r, p, sfd);
    VbrAccepted(d[r.bVol], r, p);
    SoundFacts(r, p);
  }

  /** What f_mkfs made for a request mounts exactly when the request leaves room for a cluster
      behind the aligned system area; with erase blocks of at most 15 clusters it does. */
  lemma {:induction false} FormatMountsExactly(d0: Disk, d: Disk, r: Request, kind: Kind, au: nat, sfd: bool)
    requires r.Valid() && kind != Fat12 && (au == 0 || Size(au))
    requires Settle(r, kind, au).Done? && Formatted(d0, d, r, Settle(r, kind, au).plan, sfd)
    ensures Outcome(d).Volume? <==> !NoRoom(r, kind, au)
    ensures !Outcome(d).Volume? ==> Outcome(d).NoFileSystem?
    ensures r.szBlk <= 15 * FirstPau(r, au) ==> Outcome(d).Volume?
  {
    hide Outcome, Settle, NoRoom, Formatted, Sound, FirstPau, PowerOfTwo;
    BlockPositive(r);
    SettleSound(r, kind, au);
    EmptyExactly(r, kind, au);
    FormattedMounts(d0, d, r, Settle(r, kind, au).plan, sfd);
    if r.szBlk <= 15 * FirstPau(r, au) {
      SmallBlocksFit(r, kind, au);
    }
  }

  /** The recovered layout is valid and the disk holds it. */
  lemma {:induction false} FormattedValid(r: Request, p: Plan)
    requires r.Valid() && Sound(r, p) && p.nClst > 0
    ensures GeometryOf(r, p).Valid() && GeometryOf(r, p).DataEnd() <= r.bVol + r.szVol
  {
    hide Quot, Multiple, PowerOfTwo, FatNeed;
    SoundFacts(r, p);
    SizePower(p.pau);
    FatBits(p.kind, p.nClst + 2, p.szFat);
    var left := r.szVol - p.szRsv - p.szFat - p.szDir;
    QuotTimes(left, p.pau);
  }

  // ----- the volume is sound and empty -----

  lemma {:induction false} ZeroDigits(b: seq<byte>, k: nat, w: nat)
    requires k + w <= 2 * |b| && forall i :: k / 2 <= i < |b| ==> b[i] == 0
    ensures Codec.Digits(b, k, w) == 0
    decreases w
  {
    if w > 0 {
      ZeroDigits(b, k + 1, w - 1);
    }
  }

  /** The entries of a new FAT: all free, but for the reserved ones and, on FAT32, the root
      directory. */
  ghost predicate EmptyFat(f: Table, kind: Kind) {
    && |f| >= 3 && f[0] != 0 && f[1] != 0
    && (forall c :: InRange(f, c) && (kind == Fat32 ==> c != 2) ==> f[c] == 0)
    && (kind == Fat32 ==> f[2] == 0x0FFF_FFFF >= |f|)
  }

  lemma {:induction false} FormattedFat(d0: Disk, d: Disk, r: Request, p: Plan, sfd: bool)
    requires r.Valid() && Sound(r, p) && Formatted(d0, d, r, p, sfd) && p.nClst > 0
    ensures GeometryOf(r, p).Valid() && GeometryOf(r, p).FatEnd() <= |d|
    ensures EmptyFat(FatOf(d, GeometryOf(r, p)), p.kind)
  {
    hide Sound, PowerOfTwo, Quot, FatNeed, IsVbr, IsInfo, IsMbr, Codec.Entry, Geometry.Valid, FirstEntries;
    FormattedValid(r, p);
    var g := GeometryOf(r, p);
    NewFatBytes(d0, d, r, p, sfd);
    EntriesOf(g);
    var b, f := FatBytes(d, g), FatOf(d, g);
    HeadEntries(b, p.kind);
    forall c | InRange(f, c) && (p.kind == Fat32 ==> c != 2) ensures f[c] == 0 {
      NewEntry(b, p.kind, c);
    }
  }

  lemma EntriesOf(g: Geometry)
    requires g.Valid()
    ensures Codec.Fits(seq(512 * g.fsize, _ => 0), g.kind, g.nFatEnt) && 3 <= g.nFatEnt <= MaxClusters(g.kind) + 2
  {
  }

  /** The new FAT starts with the reserved entries and is zero behind them. */
  ghost predicate NewBytes(b: seq<byte>, kind: Kind) {
    FirstEntries(kind) <= b && forall i :: |FirstEntries(kind)| <= i < |b| ==> b[i] == 0
  }

  lemma {:induction false} NewFatBytes(d0: Disk, d: Disk, r: Request, p: Plan, sfd: bool)
    requires Formatted(d0, d, r, p, sfd) && GeometryOf(r, p).Valid() && GeometryOf(r, p).FatEnd() <= |d|
    ensures NewBytes(FatBytes(d, GeometryOf(r, p)), p.kind)
  {
    hide IsVbr, IsInfo, IsMbr, Geometry.Valid, FirstEntries;
    HeadShort(p.kind);
    var b, head := FatBytes(d, GeometryOf(r, p)), FirstEntries(p.kind);
    forall i | 0 <= i < |b| ensures b[i] == if i < |head| then head[i] else 0 {
      if i >= 512 {
        assert d[p.bFat + i / 512] == ZeroSector();
      }
    }
  }

  lemma HeadShort(kind: Kind)
    ensures 3 <= |FirstEntries(kind)| <= 12
  {
  }

  lemma {:induction false} NewEntry(b: seq<byte>, kind: Kind, c: nat)
    requires Codec.Fits(b, kind, c + 1) && c >= (if kind == Fat32 then 3 else 2) && NewBytes(b, kind)
    ensures Codec.Entry(b, kind, c) == 0
  {
    match kind
    case Fat12 => ZeroDigits(b, 3 * c, 3);
    case Fat16 => ZeroDigits(b, 4 * c, 4);
    case Fat32 => ZeroDigits(b, 8 * c, 7);
  }

  lemma HeadEntries(b: seq<byte>, kind: Kind)
    requires Codec.Fits(b, kind, 3) && NewBytes(b, kind)
    ensures Codec.Entry(b, kind, 0) != 0 && Codec.Entry(b, kind, 1) != 0
    ensures kind == Fat32 ==> Codec.Entry(b, kind, 2) == 0x0FFF_FFFF
  {
    hide Codec.Entry;
    match kind
    case Fat12 =>
      Codec.Get12(b, 0);
      Codec.Get12(b, 1);
    case Fat16 =>
      Codec.Get16(b, 0);
      Codec.Get16(b, 1);
    case Fat32 =>
      Codec.Get32(b, 0);
      Codec.Get32(b, 1);
      Codec.Get32(b, 2);
  }

  lemma {:induction false} ZerosFrom(f: Table, i: nat)
    requires i <= |f| && forall c :: i <= c < |f| ==> f[c] == 0
    ensures Zeros(f, i) == |f| - i
    decreases |f| - i
  {
    if i < |f| {
      ZerosFrom(f, i + 1);
    }
  }

  lemma {:induction false} EmptyForest(f: Table, kind: Kind)
    requires EmptyFat(f, kind)
    ensures Forest(f) && NoOnes(f) && f[0] != 0 && f[1] != 0
    ensures FreeCount(f) == |f| - (if kind == Fat32 then 3 else 2)
  {
    if kind == Fat32 {
      ZerosFrom(f, 3);
      assert IsChain(f, 2, [2]);
    } else {
      ZerosFrom(f, 2);
    }
  }

  /** A volume object made from what find_volume found on a freshly formatted disk is sound:
      its FAT is a forest with every cluster free but the FAT32 root directory, and the
      recorded free count is right. */
  lemma {:induction false} FormattedHealthy(d0: Disk, d: Disk, r: Request, p: Plan, sfd: bool, fs: FatVolume)
    requires r.Valid() && Sound(r, p) && Formatted(d0, d, r, p, sfd) && p.nClst > 0 && Outcome(d).Volume?
    requires var m := Outcome(d).m;
      fs.g == m.g && fs.disk == d && fs.winsect == m.winsect && !fs.wflag && fs.freeClst == m.free
    requires fs.win.Length == 512 && fs.win[..] == d[fs.winsect]
    ensures fs.Valid() && fs.g.DataEnd() <= |fs.disk| && Healthy(fs)
    ensures FreeCount(fs.Fat()) == p.nClst - (if p.kind == Fat32 then 1 else 0)
  {
    hide Sound, Quot, FatNeed, IsVbr, IsInfo, IsMbr, FatOf, Forest, FreeCount, PowerOfTwo, Outcome, Formatted;
    FormattedMounts(d0, d, r, p, sfd);
    FormattedFat(d0, d, r, p, sfd);
    FormattedValid(r, p);
    EmptyForest(FatOf(d, GeometryOf(r, p)), p.kind);
    SoundFacts(r, p);
    FormattedSize(d0, d, r, p, sfd);
  }

  lemma FormattedSize(d0: Disk, d: Disk, r: Request, p: Plan, sfd: bool)
    requires Formatted(d0, d, r, p, sfd)
    ensures |d| == r.bVol + r.szVol
  {
  }

  /** Mounting a fresh volume and asking for its free clusters gives their true number. */
  method MountAndCount(ghost d0: Disk, d: Disk, ghost r: Request, ghost p: Plan, ghost sfd: bool)
    returns (res: FResult, n: nat)
    requires r.Valid() && Sound(r, p) && Formatted(d0, d, r, p, sfd) && p.nClst > 0
    ensures res == FResult.Ok && n == p.nClst - (if p.kind == Fat32 then 1 else 0)
  {
    hide Sound, FatOf, Forest, FreeCount, PowerOfTwo, Outcome, Formatted, NoOnes;
    FormattedMounts(d0, d, r, p, sfd);
    FormattedFat(d0, d, r, p, sfd);
    EmptyForest(FatOf(d, GeometryOf(r, p)), p.kind);
    FormattedValid(r, p);
    FormattedSize(d0, d, r, p, sfd);
    SoundFacts(r, p);
    var found := FindVolume(d);
    var m := found.m;
    FormattedCounts(m.g, r, p);
    var fs := new FatVolume(m.g, d, m.winsect, m.free, m.last, m.g.kind == Fat32);
    res, n := GetFree(fs);
  }

  lemma FormattedCounts(g: Geometry, r: Request, p: Plan)
    requires g == GeometryOf(r, p) && r.Valid() && Sound(r, p) && p.nClst > 0
    ensures g.dataBase <= r.bVol + r.szVol && !g.InSecondFat(r.bVol) && !g.InSecondFat(r.bVol + 1)
    ensures r.bVol + 1 < r.bVol + r.szVol < 0x1_0000_0000 && g.nFatEnt == p.nClst + 2
  {
    hide Quot, Multiple, PowerOfTwo, FatNeed;
    SoundFacts(r, p);
  }
}
