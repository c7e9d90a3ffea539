/** Sectors, bytes, and the encoding of FAT entries in the bytes of a FAT. */
module FatCodec {
  import opened Arith

  type byte = x: int | 0 <= x < 256
  type Sector = seq<byte>

  datatype FsType = Fat12 | Fat16 | Fat32 | ExFat

  // ---- runs of sectors as one run of bytes ----

  ghost predicate AllSized(secs: seq<Sector>, ss: nat) {
    forall s | 0 <= s < |secs| :: |secs[s]| == ss
  }

  /** The bytes of a run of sectors, in order. */
  function Flat(secs: seq<Sector>): seq<byte> {
    if secs == [] then [] else Flat(secs[..|secs| - 1]) + secs[|secs| - 1]
  }

  lemma {:induction false} FlatLength(secs: seq<Sector>, ss: nat)
    requires AllSized(secs, ss)
    ensures |Flat(secs)| == Times(ss, |secs|)
  {
    if secs != [] {
      FlatLength(secs[..|secs| - 1], ss);
    }
  }

  /** Where sector `s`, offset `o` is in the run. */
  lemma {:induction false} FlatIndex(secs: seq<Sector>, ss: nat, s: nat, o: nat)
    requires AllSized(secs, ss) && s < |secs| && o < ss
    ensures Times(ss, s) + o < |Flat(secs)| == Times(ss, |secs|)
    ensures Flat(secs)[Times(ss, s) + o] == secs[s][o]
  {
    var front := secs[..|secs| - 1];
    FlatLength(secs, ss);
    FlatLength(front, ss);
    if s < |front| {
      FlatIndex(front, ss, s, o);
    }
  }

  /** Replacing one byte of one sector replaces one byte of the run. */
  lemma {:induction false} FlatPoke(secs: seq<Sector>, ss: nat, s: nat, o: nat, b: byte)
    requires AllSized(secs, ss) && s < |secs| && o < ss
    ensures Times(ss, s) + o < |Flat(secs)|
    ensures AllSized(Poked(secs, s, o, b), ss)
    ensures Flat(Poked(secs, s, o, b)) == Flat(secs)[Times(ss, s) + o := b]
  {
    FlatIndex(secs, ss, s, o);
    var front := secs[..|secs| - 1];
    FlatLength(front, ss);
    var p := Poked(secs, s, o, b);
    if s < |front| {
      FlatPoke(front, ss, s, o, b);
      assert p[..|p| - 1] == Poked(front, s, o, b);
    } else {
      assert p[..|p| - 1] == front;
    }
  }

  /** A run of sectors with byte `o` of sector `s` replaced. */
  function Poked(secs: seq<Sector>, s: nat, o: nat, b: byte): seq<Sector>
    requires s < |secs| && o < |secs[s]|
  {
    var sec: Sector := secs[s][o := b];
    secs[s := sec]
  }

  /** A part of a part. */
  lemma SliceOfSlice(s: seq<byte>, at: nat, len: nat, o: nat, n: nat)
    requires at + len <= |s| && o + n <= len
    ensures s[at..at + len][o..o + n] == s[at + o..at + o + n]
  {
    var a, b := s[at..at + len][o..o + n], s[at + o..at + o + n];
    forall i | 0 <= i < n
      ensures a[i] == b[i]
    {
      assert s[at..at + len][o + i] == s[at + o + i];
    }
  }

  // ---- FAT entries ----

  /** Bytes the FAT needs for `n` entries, as `mount_volume` computes `szbfat`. */
  function FatBytes(t: FsType, n: nat): nat {
    match t
    case Fat12 => n * 3 / 2 + n % 2
    case Fat16 => n * 2
    case Fat32 => n * 4
    case ExFat => n * 4
  }

  /** Byte offset of entry `c` in the FAT. */
  function EntryOffset(t: FsType, c: nat): nat {
    match t
    case Fat12 => c + c / 2
    case Fat16 => c * 2
    case Fat32 => c * 4
    case ExFat => c * 4
  }

  lemma FatBytesMono(t: FsType, m: nat, n: nat)
    requires m <= n
    ensures FatBytes(t, m) <= FatBytes(t, n)
  {
  }

  function EntryWidth(t: FsType): nat {
    if t == Fat12 || t == Fat16 then 2 else 4
  }

  /** Entry `c` ends inside a FAT of `n > c` entries. */
  lemma EntryFits(t: FsType, c: nat, n: nat)
    requires c < n
    ensures EntryOffset(t, c) + EntryWidth(t) <= FatBytes(t, n)
  {
    if t == Fat12 {
      assert n * 3 / 2 + n % 2 == n + (n + 1) / 2;
    }
  }

  function Word(b0: byte, b1: byte): nat {
    b0 + 0x100 * b1
  }

  function Dword(b0: byte, b1: byte, b2: byte, b3: byte): nat {
    b0 + 0x100 * b1 + 0x1_0000 * b2 + 0x100_0000 * b3
  }

  function WordAt(fat: seq<byte>, i: nat): nat
    requires i + 1 < |fat|
  {
    Word(fat[i], fat[i + 1])
  }

  function DwordAt(fat: seq<byte>, i: nat): nat
    requires i + 3 < |fat|
  {
    Dword(fat[i], fat[i + 1], fat[i + 2], fat[i + 3])
  }

  /** A FAT12 entry is the upper or the lower 12 bits of a word. */
  function Entry12(wc: nat, c: nat): nat {
    if c % 2 == 1 then wc / 16 else wc % 0x1000
  }

  /** The value of entry `c`, as `get_fat` cuts it out of the FAT bytes. */
  function Entry(t: FsType, fat: seq<byte>, c: nat): nat
    requires FatBytes(t, c + 1) <= |fat|
  {
    EntryFits(t, c, c + 1);
    match t
    case Fat12 => Entry12(WordAt(fat, c + c / 2), c)
    case Fat16 => WordAt(fat, c * 2)
    case Fat32 => DwordAt(fat, c * 4) % 0x1000_0000
    case ExFat => DwordAt(fat, c * 4) % 0x8000_0000
  }

  /** The byte order, on four bytes of each kind and on the first six bytes of a FAT12. */
  lemma KnownEntries(fat: seq<byte>, first: seq<byte>)
    requires |fat| == 4 && fat[0] == 0x78 && fat[1] == 0x56 && fat[2] == 0x34 && fat[3] == 0xF2
    requires |first| == 6 && first[0] == 0xF8 && first[1] == 0xFF && first[2] == 0xFF
    requires first[3] == 0x03 && first[4] == 0x40 && first[5] == 0
    ensures Entry(Fat16, fat, 0) == 0x5678 && Entry(Fat16, fat, 1) == 0xF234
    ensures Entry(Fat32, fat, 0) == 0x0234_5678 && Entry(ExFat, fat, 0) == 0x7234_5678
    ensures Entry(Fat12, first, 0) == 0xFF8 && Entry(Fat12, first, 1) == 0xFFF
    ensures Entry(Fat12, first, 2) == 3 && Entry(Fat12, first, 3) == 4
  {
    assert WordAt(first, 0) == 0xFFF8 && WordAt(first, 1) == 0xFFFF;
    assert WordAt(first, 3) == 0x4003 && WordAt(first, 4) == 0x40;
  }

  /** The reserved top four bits of a FAT32 entry. */
  function Top4(fat: seq<byte>, c: nat): nat
    requires FatBytes(Fat32, c + 1) <= |fat|
  {
    DwordAt(fat, c * 4) / 0x1000_0000
  }

  /** The part of a value an entry can hold. */
  function Cut(t: FsType, val: nat): nat {
    match t
    case Fat12 => val % 0x1000
    case Fat16 => val % 0x1_0000
    case Fat32 => val % 0x1000_0000
    case ExFat => val % 0x8000_0000
  }

  /** The first two bytes of a value, low byte first. */
  function WordByte(val: nat, k: nat): byte
    requires k < 2
  {
    if k == 0 then val % 256 else val / 256 % 256
  }

  /** The first four bytes of a value, low byte first. */
  function DwordByte(val: nat, k: nat): byte
    requires k < 4
  {
    if k == 0 then val % 256 else if k == 1 then val / 256 % 256
    else if k == 2 then val / 256 / 256 % 256 else val / 256 / 256 / 256 % 256
  }

  lemma DwordOfBytes(val: nat)
    requires val < 0x1_0000_0000
    ensures Dword(DwordByte(val, 0), DwordByte(val, 1), DwordByte(val, 2), DwordByte(val, 3)) == val
  {
    var q1 := val / 256;
    var q2 := q1 / 256;
    var q3 := q2 / 256;
    assert val == 256 * q1 + val % 256;
    assert q1 == 256 * q2 + q1 % 256;
    assert q2 == 256 * q3 + q2 % 256;
  }

  /** First byte of a FAT12 entry: an odd entry leaves the low nibble to its neighbour. */
  function Low12(b: byte, c: nat, val: nat): byte {
    if c % 2 == 1 then b % 16 + val % 16 * 16 else val % 256
  }

  /** Second byte of a FAT12 entry: an even entry leaves the high nibble to its neighbour. */
  function High12(b: byte, c: nat, val: nat): byte {
    if c % 2 == 1 then val / 16 % 256 else b / 16 * 16 + val / 256 % 16
  }

  /** A FAT32 entry takes 28 bits and keeps the top four it had. */
  function Keep4(val: nat, was: nat): (w: nat) {
    val % 0x1000_0000 + was / 0x1000_0000 * 0x1000_0000
  }

  /** The FAT after `put_fat(c, val)`: FAT12 merges nibbles, FAT32 keeps the top bits. */
  function Put(t: FsType, fat: seq<byte>, c: nat, val: nat): (r: seq<byte>)
    requires FatBytes(t, c + 1) <= |fat| && val < 0x1_0000_0000
    ensures |r| == |fat|
  {
    EntryFits(t, c, c + 1);
    var i := EntryOffset(t, c);
    match t
    case Fat12 => fat[i := Low12(fat[i], c, val)][i + 1 := High12(fat[i + 1], c, val)]
    case Fat16 => fat[i := WordByte(val, 0)][i + 1 := WordByte(val, 1)]
    case Fat32 => PutDword(fat, i, Keep4(val, DwordAt(fat, i)))
    case ExFat => PutDword(fat, i, val)
  }

  lemma Put12Is(fat: seq<byte>, c: nat, val: nat)
    requires FatBytes(Fat12, c + 1) <= |fat| && val < 0x1_0000_0000
    ensures c + c / 2 + 1 < |fat|
    ensures Put(Fat12, fat, c, val) ==
            fat[c + c / 2 := Low12(fat[c + c / 2], c, val)][c + c / 2 + 1 := High12(fat[c + c / 2 + 1], c, val)]
  {
    EntryFits(Fat12, c, c + 1);
  }

  function PutDword(fat: seq<byte>, i: nat, w: nat): (r: seq<byte>)
    requires i + 3 < |fat|
    ensures |r| == |fat|
  {
    fat[i := DwordByte(w, 0)][i + 1 := DwordByte(w, 1)][i + 2 := DwordByte(w, 2)][i + 3 := DwordByte(w, 3)]
  }

  lemma DwordAtPut(fat: seq<byte>, i: nat, w: nat)
    requires i + 3 < |fat| && w < 0x1_0000_0000
    ensures DwordAt(PutDword(fat, i, w), i) == w
  {
    DwordOfBytes(w);
  }

  /** Reading back what was put gives the value cut to the entry's width. */
  lemma GetPutSame(t: FsType, fat: seq<byte>, c: nat, val: nat)
    requires FatBytes(t, c + 1) <= |fat| && val < 0x1_0000_0000
    ensures Entry(t, Put(t, fat, c, val), c) == Cut(t, val)
    ensures t == Fat32 ==> Top4(Put(t, fat, c, val), c) == Top4(fat, c)
  {
    match t
    case Fat12 => GetPut12(fat, c, val);
    case Fat16 => GetPut16(fat, c, val);
    case Fat32 => GetPut32(fat, c, val);
    case ExFat => DwordAtPut(fat, c * 4, val);
  }

  lemma GetPut16(fat: seq<byte>, c: nat, val: nat)
    requires FatBytes(Fat16, c + 1) <= |fat| && val < 0x1_0000_0000
    ensures Entry(Fat16, Put(Fat16, fat, c, val), c) == val % 0x1_0000
  {
    assert val % 0x1_0000 == val % 256 + 256 * (val / 256 % 256);
  }

  lemma GetPut32(fat: seq<byte>, c: nat, val: nat)
    requires FatBytes(Fat32, c + 1) <= |fat| && val < 0x1_0000_0000
    ensures Entry(Fat32, Put(Fat32, fat, c, val), c) == val % 0x1000_0000
    ensures Top4(Put(Fat32, fat, c, val), c) == Top4(fat, c)
  {
    Keep4Is(val, DwordAt(fat, c * 4));
    DwordAtPut(fat, c * 4, Keep4(val, DwordAt(fat, c * 4)));
  }

  lemma Keep4Is(val: nat, w: nat)
    requires w < 0x1_0000_0000
    ensures Keep4(val, w) < 0x1_0000_0000
    ensures Keep4(val, w) % 0x1000_0000 == val % 0x1000_0000 && Keep4(val, w) / 0x1000_0000 == w / 0x1000_0000
  {
    assert w / 0x1000_0000 < 16;
  }

  lemma GetPut12(fat: seq<byte>, c: nat, val: nat)
    requires FatBytes(Fat12, c + 1) <= |fat| && val < 0x1_0000_0000
    ensures Entry(Fat12, Put(Fat12, fat, c, val), c) == val % 0x1000
  {
    EntryFits(Fat12, c, c + 1);
    var i := c + c / 2;
    Nibbles12(fat[i], fat[i + 1], c, val);
  }

  lemma Nibbles12(b0: byte, b1: byte, c: nat, val: nat)
    ensures Entry12(Word(Low12(b0, c, val), High12(b1, c, val)), c) == val % 0x1000
  {
    if c % 2 == 1 {
      Nibbles12Odd(b0, val);
    } else {
      Nibbles12Even(b1, val);
    }
  }

  lemma Nibbles12Odd(b: byte, val: nat)
    ensures (b % 16 + val % 16 * 16 + 0x100 * (val / 16 % 256)) / 16 == val % 0x1000
  {
    assert val % 0x1000 == val % 16 + 16 * (val / 16 % 256);
  }

  lemma Nibbles12Even(b: byte, val: nat)
    ensures (val % 256 + 0x100 * (b / 16 * 16 + val / 256 % 16)) % 0x1000 == val % 0x1000
  {
    assert val % 0x1000 == val % 256 + 256 * (val / 256 % 16);
  }

  /** No other entry changes, even where FAT12 entries share a byte. */
  lemma GetPutOther(t: FsType, fat: seq<byte>, c: nat, val: nat, d: nat)
    requires FatBytes(t, c + 1) <= |fat| && FatBytes(t, d + 1) <= |fat|
    requires val < 0x1_0000_0000 && d != c
    ensures Entry(t, Put(t, fat, c, val), d) == Entry(t, fat, d)
    ensures t == Fat32 ==> Top4(Put(t, fat, c, val), d) == Top4(fat, d)
  {
    match t
    case Fat12 => GetPutOther12(fat, c, val, d);
    case Fat16 =>
    case Fat32 => DwordAtOther(fat, c, Keep4(val, DwordAt(fat, c * 4)), d);
    case ExFat => DwordAtOther(fat, c, val, d);
  }

  lemma DwordAtOther(fat: seq<byte>, c: nat, w: nat, d: nat)
    requires c * 4 + 3 < |fat| && d * 4 + 3 < |fat| && c != d
    ensures DwordAt(PutDword(fat, c * 4, w), d * 4) == DwordAt(fat, d * 4)
  {
    assert d * 4 + 3 < c * 4 || c * 4 + 3 < d * 4;
  }

  lemma GetPutOther12(fat: seq<byte>, c: nat, val: nat, d: nat)
    requires FatBytes(Fat12, c + 1) <= |fat| && FatBytes(Fat12, d + 1) <= |fat|
    requires val < 0x1_0000_0000 && d != c
    ensures Entry(Fat12, Put(Fat12, fat, c, val), d) == Entry(Fat12, fat, d)
  {
    EntryFits(Fat12, c, c + 1);
    EntryFits(Fat12, d, d + 1);
    var i, j := c + c / 2, d + d / 2;
    Offsets12(c, d);
    if j == i + 1 {        // d's low nibble is in c's second byte
      HighNibbleKept(fat[j], fat[j + 1], c, d, val);
    } else if i == j + 1 { // d's high nibble is in c's first byte
      LowNibbleKept(fat[j], fat[j + 1], c, d, val);
    }
  }

  lemma Offsets12(c: nat, d: nat)
    requires c != d
    ensures var i, j := c + c / 2, d + d / 2;
            || (j == i + 1 && c % 2 == 0 && d % 2 == 1)
            || (i == j + 1 && d % 2 == 0 && c % 2 == 1)
            || j + 1 < i || i + 1 < j
  {
    assert c == 2 * (c / 2) + c % 2;
    assert d == 2 * (d / 2) + d % 2;
  }

  lemma HighNibbleKept(b0: byte, b1: byte, c: nat, d: nat, val: nat)
    requires c % 2 == 0 && d % 2 == 1
    ensures Entry12(Word(High12(b0, c, val), b1), d) == Entry12(Word(b0, b1), d)
  {
    assert High12(b0, c, val) / 16 == b0 / 16;
  }

  lemma LowNibbleKept(b0: byte, b1: byte, c: nat, d: nat, val: nat)
    requires c % 2 == 1 && d % 2 == 0
    ensures Entry12(Word(b0, Low12(b1, c, val)), d) == Entry12(Word(b0, b1), d)
  {
    LowNibble(b1, val);
    WordMod(b0, b1);
    WordMod(b0, Low12(b1, c, val));
  }

  lemma LowNibble(b: byte, val: nat)
    ensures (b % 16 + val % 16 * 16) % 16 == b % 16
  {
  }

  lemma WordMod(b0: byte, b1: byte)
    ensures Word(b0, b1) % 0x1000 == b0 + 0x100 * (b1 % 16)
  {
    assert b1 == 16 * (b1 / 16) + b1 % 16;
  }

  /** The whole FAT as a sequence of entry values (entries 0 and 1 name no cluster). */
  function Table(t: FsType, n: nat, fat: seq<byte>): (tab: seq<nat>)
    requires FatBytes(t, n) <= |fat|
    ensures |tab| == n
  {
    if n == 0 then []
    else
      FatBytesMono(t, n - 1, n);
      Table(t, n - 1, fat) + [if n <= 2 then 0 else Entry(t, fat, n - 1)]
  }

  lemma {:induction false} TableAt(t: FsType, n: nat, fat: seq<byte>, c: nat)
    requires FatBytes(t, n) <= |fat| && 2 <= c < n
    ensures FatBytes(t, c + 1) <= |fat|
    ensures Table(t, n, fat)[c] == Entry(t, fat, c)
  {
    FatBytesMono(t, n - 1, n);
    if c < n - 1 {
      TableAt(t, n - 1, fat, c);
    }
  }

  /** `put_fat` is the update of one element of the table. */
  lemma {:induction false} TablePut(t: FsType, n: nat, fat: seq<byte>, c: nat, val: nat)
    requires FatBytes(t, n) <= |fat| && 2 <= c < n && val < 0x1_0000_0000
    ensures FatBytes(t, c + 1) <= |fat|
    ensures Table(t, n, Put(t, fat, c, val)) == Table(t, n, fat)[c := Cut(t, val)]
  {
    FatBytesMono(t, c + 1, n);
    var f' := Put(t, fat, c, val);
    GetPutSame(t, fat, c, val);
    forall d | 0 <= d < n
      ensures Table(t, n, f')[d] == Table(t, n, fat)[c := Cut(t, val)][d]
    {
      if d >= 2 {
        TableAt(t, n, fat, d);
        TableAt(t, n, f', d);
        if d != c { GetPutOther(t, fat, c, val, d); }
      } else {
        TableLow(t, n, fat, d);
        TableLow(t, n, f', d);
      }
    }
  }

  lemma {:induction false} TableLow(t: FsType, n: nat, fat: seq<byte>, c: nat)
    requires FatBytes(t, n) <= |fat| && c < 2 && c < n
    ensures Table(t, n, fat)[c] == 0
  {
    FatBytesMono(t, n - 1, n);
    if c < n - 1 {
      TableLow(t, n - 1, fat, c);
    }
  }
}
