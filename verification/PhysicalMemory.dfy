/**
  Physical memory as bytes, and the two structures the kernel overlays on it:
  page tables (512 eight-byte entries, section 4.5 of the Intel SDM, Volume
  3A) and the nodes of the intrusive free list.
 */
module PhysicalMemory {
  import opened Words

  /** Physical frame numbers: address bits 12 to 51. */
  type Frame = f: nat | f < 0x100_0000_0000

  type Index = i: nat | i < 512

  type PageBytes = p: seq<Byte> | |p| == 4096 witness seq(4096, _ => 0)

  type Ram = map<Frame, PageBytes>

  /**
    All 64 bits of a page-table entry.  `low`, `mid` and `high` are the bits
    (3..6, 8..11 and 52..62) that this kernel never interprets.
   */
  datatype RawEntry = Entry(
    frame: Frame, present: bool, writable: bool, user: bool, huge: bool, noExec: bool,
    low: nat, mid: nat, high: nat)

  type Entry = e: RawEntry | e.low < 16 && e.mid < 16 && e.high < 2048
    witness Entry(0, false, false, false, false, false, 0, 0, 0)

  /** `PageTableEntry::is_unused` compares the whole word with zero. */
  const UNUSED: Entry := Entry(0, false, false, false, false, false, 0, 0, 0)

  function Bit(b: bool): nat { if b then 1 else 0 }

  /** Bits 0 to 11: present, writable, user, four others, huge, four others. */
  function LowBits(e: Entry): (w: nat)
    ensures w < 4096
  {
    Bit(e.present) + 2 * (Bit(e.writable) + 2 * (Bit(e.user) + 2 * (e.low + 16 * (Bit(e.huge) + 2 * e.mid))))
  }

  /** Bits 12 to 63: forty bits of frame number, eleven others, no-execute. */
  function HighBits(e: Entry): (w: nat)
    ensures w < 0x10_0000_0000_0000
  {
    e.frame + 0x100_0000_0000 * (e.high + 2048 * Bit(e.noExec))
  }

  function EncodeEntry(e: Entry): (w: nat)
    ensures w < TWO64
  {
    LowBits(e) + 4096 * HighBits(e)
  }

  function DecodeBits(l: nat, h: nat): (e: Entry)
  {
    Entry(h % 0x100_0000_0000, l % 2 == 1, l / 2 % 2 == 1, l / 4 % 2 == 1, l / 128 % 2 == 1,
          h / 0x8_0000_0000_0000 == 1, l / 8 % 16, l / 256 % 16, h / 0x100_0000_0000 % 2048)
  }

  function DecodeEntry(w: nat): (e: Entry) { DecodeBits(w % 4096, w / 4096) }

  lemma LowFields(e: Entry)
    ensures var l := LowBits(e);
      l % 2 == Bit(e.present) && l / 2 % 2 == Bit(e.writable) && l / 4 % 2 == Bit(e.user)
      && l / 8 % 16 == e.low && l / 128 % 2 == Bit(e.huge) && l / 256 % 16 == e.mid
  {
    var l := LowBits(e);
    assert l / 2 == Bit(e.writable) + 2 * (Bit(e.user) + 2 * (e.low + 16 * (Bit(e.huge) + 2 * e.mid)));
    assert l / 4 == Bit(e.user) + 2 * (e.low + 16 * (Bit(e.huge) + 2 * e.mid));
    assert l / 8 == e.low + 16 * (Bit(e.huge) + 2 * e.mid);
    assert l / 128 == Bit(e.huge) + 2 * e.mid;
    assert l / 256 == e.mid;
  }

  lemma HighFields(e: Entry)
    ensures var h := HighBits(e);
      h % 0x100_0000_0000 == e.frame && h / 0x100_0000_0000 % 2048 == e.high && h / 0x8_0000_0000_0000 == Bit(e.noExec)
  {
  }

  /** Writing an entry and reading it back loses no field. */
  lemma DecodeEncode(e: Entry)
    ensures DecodeEntry(EncodeEntry(e)) == e
  {
    hide LowBits, HighBits;
    LowFields(e);
    HighFields(e);
  }

  /** The word zero is the unused entry, and it is the only word that is. */
  lemma UnusedIsZero(w: nat)
    requires w < TWO64
    ensures DecodeEntry(w) == UNUSED <==> w == 0
  {
  }

  function GetWord(p: PageBytes, i: Index): (w: nat)
    ensures w < TWO64
  {
    Pow256Of8();
    FromLe(p[8 * i..8 * i + 8])
  }

  function SetWord(p: PageBytes, i: Index, w: nat): (q: PageBytes)
  {
    p[..8 * i] + ToLe(w, 8) + p[8 * i + 8..]
  }

  lemma GetSetWord(p: PageBytes, i: Index, w: nat, j: Index)
    requires w < TWO64
    ensures GetWord(SetWord(p, i, w), j) == if i == j then w else GetWord(p, j)
  {
    var q := SetWord(p, i, w);
    if i == j {
      assert q[8 * j..8 * j + 8] == ToLe(w, 8);
      WordRoundTrip(w);
    } else if j < i {
      assert 8 * j + 8 <= 8 * i;
      assert q[8 * j..8 * j + 8] == p[8 * j..8 * j + 8];
    } else {
      assert 8 * i + 8 <= 8 * j;
      assert q[8 * j..8 * j + 8] == p[8 * j..8 * j + 8];
    }
  }

  // ---------------------------------------------------------------- page tables

  /** What the processor reads at entry `i` of the table in frame `f`. */
  function EntryAt(ram: Ram, f: Frame, i: Index): (e: Entry)
  {
    if f in ram then DecodeEntry(GetWord(ram[f], i)) else UNUSED
  }

  function SetEntry(ram: Ram, f: Frame, i: Index, e: Entry): (r: Ram)
  {
    if f !in ram then ram else ram[f := SetWord(ram[f], i, EncodeEntry(e))]
  }

  function ZeroPage(): (p: PageBytes) { seq(4096, _ => 0) }

  lemma SetEntryEffect(ram: Ram, f: Frame, i: Index, e: Entry)
    requires f in ram
    ensures SetEntry(ram, f, i, e).Keys == ram.Keys
    ensures forall g: Frame, j: Index ::
      EntryAt(SetEntry(ram, f, i, e), g, j) == if g == f && j == i then e else EntryAt(ram, g, j)
  {
    forall g: Frame, j: Index
      ensures EntryAt(SetEntry(ram, f, i, e), g, j) == if g == f && j == i then e else EntryAt(ram, g, j)
    {
      if g == f {
        GetSetWord(ram[f], i, EncodeEntry(e), j);
        DecodeEncode(e);
      }
    }
  }

  lemma {:induction false} ZerosAreZero(s: seq<Byte>)
    requires forall k :: 0 <= k < |s| ==> s[k] == 0
    ensures FromLe(s) == 0
  {
    if s != [] {
      ZerosAreZero(s[1..]);
    }
  }

  lemma ZeroPageEffect(ram: Ram, f: Frame)
    ensures forall g: Frame, j: Index ::
      EntryAt(ram[f := ZeroPage()], g, j) == if g == f then UNUSED else EntryAt(ram, g, j)
  {
    var zeroed := ram[f := ZeroPage()];
    forall g: Frame, j: Index
      ensures EntryAt(zeroed, g, j) == if g == f then UNUSED else EntryAt(ram, g, j)
    {
      ZerosAreZero(ZeroPage()[8 * j..8 * j + 8]);
      UnusedIsZero(0);
    }
  }

  // ------------------------------------------------------------------ free list

  /** A `FreeNode`, overlaid on the first three words of a free frame. */
  datatype FreeNode = Node(next: Option<Frame>, frame: Frame)

  function AddressToFrame(w: nat): (f: Frame) { (w / 4096) % 0x100_0000_0000 }

  function NodeAt(ram: Ram, f: Frame): (n: FreeNode)
  {
    if f !in ram then Node(None, 0) else
    Node(if GetWord(ram[f], 0) == 0 then None else Some(AddressToFrame(GetWord(ram[f], 1))),
         AddressToFrame(GetWord(ram[f], 2)))
  }

  function SetNode(ram: Ram, f: Frame, n: FreeNode): (r: Ram)
  {
    if f !in ram then ram else
    var tag := if n.next.Some? then 1 else 0;
    var link := if n.next.Some? then 4096 * n.next.value else 0;
    ram[f := SetWord(SetWord(SetWord(ram[f], 0, tag), 1, link), 2, 4096 * n.frame)]
  }

  lemma SetNodeEffect(ram: Ram, f: Frame, n: FreeNode)
    requires f in ram
    ensures SetNode(ram, f, n).Keys == ram.Keys
    ensures NodeAt(SetNode(ram, f, n), f) == n
  {
    var tag := if n.next.Some? then 1 else 0;
    var link := if n.next.Some? then 4096 * n.next.value else 0;
    var p0 := ram[f];
    var p1 := SetWord(p0, 0, tag);
    var p2 := SetWord(p1, 1, link);
    GetSetWord(p0, 0, tag, 0);
    GetSetWord(p1, 1, link, 0);
    GetSetWord(p1, 1, link, 1);
    GetSetWord(p2, 2, 4096 * n.frame, 0);
    GetSetWord(p2, 2, 4096 * n.frame, 1);
    GetSetWord(p2, 2, 4096 * n.frame, 2);
    assert AddressToFrame(4096 * n.frame) == n.frame;
    if n.next.Some? {
      assert AddressToFrame(link) == n.next.value;
    }
  }

  /** A frame whose bytes do not change still holds the same entries and the same node. */
  lemma Untouched(ram: Ram, ram': Ram, f: Frame)
    requires f in ram && f in ram' && ram[f] == ram'[f]
    ensures NodeAt(ram', f) == NodeAt(ram, f)
    ensures forall j: Index :: EntryAt(ram', f, j) == EntryAt(ram, f, j)
  {
  }

  lemma AllUntouchedBut(ram: Ram, ram': Ram, changed: set<Frame>)
    requires ram.Keys == ram'.Keys
    requires forall g: Frame :: g in ram && g !in changed ==> ram'[g] == ram[g]
    ensures forall g: Frame :: g in ram && g !in changed ==> NodeAt(ram', g) == NodeAt(ram, g)
    ensures forall g: Frame, j: Index :: g !in changed ==> EntryAt(ram', g, j) == EntryAt(ram, g, j)
  {
  }
}
