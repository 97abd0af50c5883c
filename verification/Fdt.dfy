/** The device-tree writer (fdt.c:45-282). */
module Fdt {
  import opened Bits

  type Byte = b: nat | b < 256

  /** A C string: no byte is zero. */
  type Name = s: seq<Byte> | 0 !in s

  const MAGIC := 0xd00dfeed
  const BEGIN_NODE := 1
  const END_NODE := 2
  const PROP := 3
  const NOP := 4
  const END := 9

  // ---------- bytes ----------

  /** A 32-bit cell, most significant byte first. */
  function Be32(v: nat): (s: seq<Byte>)
    ensures |s| == 4
  {
    [Rem(Quot(v, 0x100_0000), 256), Rem(Quot(v, 0x1_0000), 256), Rem(Quot(v, 0x100), 256), Rem(v, 256)]
  }

  function Read32(s: seq<Byte>, pos: nat): (v: nat)
    requires pos + 4 <= |s|
    ensures v < 0x1_0000_0000
  {
    s[pos] as int * 0x100_0000 + s[pos + 1] as int * 0x1_0000 + s[pos + 2] as int * 0x100 + s[pos + 3] as int
  }

  /** A cell holds a number up to its low 32 bits. */
  lemma ReadBe32(v: nat)
    ensures Read32(Be32(v), 0) == v % 0x1_0000_0000
  {
    var a, b, c := Quot(v, 0x100), Quot(v, 0x1_0000), Quot(v, 0x100_0000);
    QuotTwice(v, 0x100, 0x100);
    QuotTwice(v, 0x1_0000, 0x100);
    DivMod(v, 0x100);
    DivMod(a, 0x100);
    DivMod(b, 0x100);
    DivMod(c, 0x100);
    DivUnique(v, 0x1_0000_0000, c / 0x100, Read32(Be32(v), 0));
  }

  lemma QuotTwice(v: nat, p: nat, q: nat)
    requires p >= 1 && q >= 1
    ensures Quot(v, p * q) == Quot(Quot(v, p), q)
  {
    DivMod(v, p);
    DivMod(v / p, q);
    var h, b, r := v / p / q, v / p % q, v % p;
    MulAssoc(h, q, p);
    Distribute(h * q, b, p);
    MulOrder(b + 1, q, p);
    Distribute(b, 1, p);
    DivUnique(v, p * q, h, b * p + r);
  }

  function Zeros(n: nat): (s: seq<Byte>)
    ensures |s| == n && forall k :: 0 <= k < n ==> s[k] == 0
  {
    seq(n, _ => 0)
  }

  /** Rounding up to a multiple of `a`. */
  function Align(n: nat, a: nat): (r: nat)
    requires a >= 1
    ensures r % a == 0 && n <= r < n + a
  {
    AlignFacts(n, a);
    (n + a - 1) / a * a
  }

  lemma AlignFacts(n: nat, a: nat)
    requires a >= 1
    ensures var r := (n + a - 1) / a * a; r % a == 0 && n <= r < n + a
  {
    var q := (n + a - 1) / a;
    DivMod(n + a - 1, a);
    DivUnique(q * a, a, q, 0);
  }

  /** The string that starts at `pos`. */
  function CStr(s: seq<Byte>, pos: nat): (r: Name)
    ensures pos + |r| <= |s| || r == []
    decreases |s| - pos
  {
    if pos >= |s| || s[pos] == 0 then [] else [s[pos]] + CStr(s, pos + 1)
  }

  /** A string is found where it and a terminator stand. */
  lemma {:induction false} CStrAt(s: seq<Byte>, pos: nat, name: Name)
    requires pos + |name| < |s| && s[pos..pos + |name|] == name && s[pos + |name|] == 0
    ensures CStr(s, pos) == name
    decreases |name|
  {
    if name != [] {
      assert s[pos] == name[0];
      assert name[0] in name;
      var rest: Name := name[1..];
      assert s[pos + 1..pos + 1 + |rest|] == rest;
      CStrAt(s, pos + 1, rest);
    }
  }

  /** Where a string ends inside a table that ends with a terminator. */
  lemma {:induction false} CStrEnds(s: seq<Byte>, pos: nat)
    requires pos < |s| && s[|s| - 1] == 0
    ensures pos + |CStr(s, pos)| < |s| && s[pos + |CStr(s, pos)|] == 0
    ensures s[pos..pos + |CStr(s, pos)|] == CStr(s, pos)
    decreases |s| - pos
  {
    if s[pos] != 0 {
      CStrEnds(s, pos + 1);
    }
  }

  // ---------- the string table ----------

  predicate Terminated(table: seq<Byte>) {
    table == [] || table[|table| - 1] == 0
  }

  /** The offset of the first entry from `pos` on that equals `name`, or the table's length. */
  function Find(table: seq<Byte>, pos: nat, name: Name): (r: nat)
    requires Terminated(table) && pos <= |table|
    ensures pos <= r <= |table|
    ensures r < |table| ==> CStr(table, r) == name
    decreases |table| - pos
  {
    if pos == |table| then pos
    else
      CStrEnds(table, pos);
      if CStr(table, pos) == name then pos else Find(table, pos + |CStr(table, pos)| + 1, name)
  }

  /** The table once it holds `name`. */
  function WithString(table: seq<Byte>, name: Name): (r: seq<Byte>)
    requires Terminated(table)
    ensures Terminated(r) && table <= r
  {
    if Find(table, 0, name) < |table| then table else table + name + [0]
  }

  /** The entries of a table from `pos` on. */
  function Entries(table: seq<Byte>, pos: nat): seq<Name>
    requires Terminated(table) && pos <= |table|
    decreases |table| - pos
  {
    if pos == |table| then []
    else
      CStrEnds(table, pos);
      [CStr(table, pos)] + Entries(table, pos + |CStr(table, pos)| + 1)
  }

  lemma {:induction false} FindIs(table: seq<Byte>, pos: nat, name: Name)
    requires Terminated(table) && pos <= |table|
    ensures Find(table, pos, name) < |table| <==> name in Entries(table, pos)
    decreases |table| - pos
  {
    if pos < |table| {
      CStrEnds(table, pos);
      FindIs(table, pos + |CStr(table, pos)| + 1, name);
    }
  }

  /** A string keeps its offset however the table grows. */
  lemma CStrStable(table: seq<Byte>, longer: seq<Byte>, pos: nat)
    requires Terminated(table) && table <= longer && pos < |table|
    ensures CStr(longer, pos) == CStr(table, pos)
  {
    CStrEnds(table, pos);
    CStrAt(longer, pos, CStr(table, pos));
  }

  lemma {:induction false} EntriesGrow(table: seq<Byte>, pos: nat, name: Name)
    requires Terminated(table) && pos <= |table|
    ensures Entries(table + name + [0], pos) == Entries(table, pos) + [name]
    decreases |table| - pos
  {
    var longer := table + name + [0];
    if pos < |table| {
      CStrEnds(table, pos);
      CStrStable(table, longer, pos);
      EntriesGrow(table, pos + |CStr(table, pos)| + 1, name);
    } else {
      CStrAt(longer, pos, name);
      assert Entries(longer, |longer|) == [];
    }
  }

  predicate Distinct(names: seq<Name>) {
    forall j, k :: 0 <= j < k < |names| ==> names[j] != names[k]
  }

  /** The table holds every requested name once: a known name costs nothing, a new one
      becomes the last entry. */
  lemma WithStringIs(table: seq<Byte>, name: Name)
    requires Terminated(table)
    ensures var old_ := Entries(table, 0);
      Entries(WithString(table, name), 0) == if name in old_ then old_ else old_ + [name]
    ensures Distinct(Entries(table, 0)) ==> Distinct(Entries(WithString(table, name), 0))
  {
    FindIs(table, 0, name);
    EntriesGrow(table, 0, name);
  }

  /** The offset handed out stands for the name, now and in every later table. */
  lemma OffsetStands(table: seq<Byte>, name: Name, later: seq<Byte>)
    requires Terminated(table) && WithString(table, name) <= later
    ensures Find(table, 0, name) < |later| && CStr(later, Find(table, 0, name)) == name
  {
    var t := WithString(table, name);
    var p := Find(table, 0, name);
    if p < |table| {
      CStrStable(table, later, p);
    } else {
      CStrAt(t, p, name);
      CStrStable(t, later, p);
    }
  }

  // ---------- trees and their encoding ----------

  datatype Item = Property(name: Name, data: seq<Byte>) | Child(node: Node)

  datatype Node = Node(name: Name, items: seq<Item>)

  /** Data followed by zeros up to a cell boundary. */
  function Padded(data: seq<Byte>): (r: seq<Byte>)
    ensures |r| == Align(|data|, 4)
  {
    data + Zeros(Align(|data|, 4) - |data|)
  }

  /** The structure block of a tree and the string table after it, as its begin, property
      and end calls leave them. */
  function NodeBytes(node: Node, table: seq<Byte>): (r: (seq<Byte>, seq<Byte>))
    requires Terminated(table)
    ensures Terminated(r.1) && table <= r.1
    decreases node
  {
    var items := ItemsBytes(node.items, table);
    (Be32(BEGIN_NODE) + Padded(node.name + [0]) + items.0 + Be32(END_NODE), items.1)
  }

  function ItemsBytes(items: seq<Item>, table: seq<Byte>): (r: (seq<Byte>, seq<Byte>))
    requires Terminated(table)
    ensures Terminated(r.1) && table <= r.1
    decreases items
  {
    if items == [] then ([], table)
    else
      var first := ItemBytes(items[0], table);
      var rest := ItemsBytes(items[1..], first.1);
      (first.0 + rest.0, rest.1)
  }

  function ItemBytes(item: Item, table: seq<Byte>): (r: (seq<Byte>, seq<Byte>))
    requires Terminated(table)
    ensures Terminated(r.1) && table <= r.1
    decreases item
  {
    match item
    case Property(name, data) =>
      (Be32(PROP) + Be32(|data|) + Be32(Find(table, 0, name)) + Padded(data), WithString(table, name))
    case Child(node) => NodeBytes(node, table)
  }

  /** An array of cells as property data. */
  function Cells(tab: seq<nat>): (r: seq<Byte>)
    ensures |r| == 4 * |tab|
  {
    if tab == [] then [] else Cells(tab[..|tab| - 1]) + Be32(tab[|tab| - 1])
  }

  lemma ReadParts(a: seq<Byte>, b: seq<Byte>, pos: nat)
    requires |b| == 4 && pos + 4 <= |a + b|
    ensures pos + 4 <= |a| ==> Read32(a + b, pos) == Read32(a, pos)
    ensures pos == |a| ==> Read32(a + b, pos) == Read32(b, 0)
  {
  }

  /** Every cell is found at its place. */
  lemma {:induction false} ReadCells(tab: seq<nat>, k: nat)
    requires k < |tab|
    ensures Read32(Cells(tab), 4 * k) == tab[k] % 0x1_0000_0000
    decreases |tab|
  {
    hide Be32;
    hide Read32;
    var n := |tab| - 1;
    ReadParts(Cells(tab[..n]), Be32(tab[n]), 4 * k);
    if k == n {
      ReadBe32(tab[n]);
    } else {
      ReadCells(tab[..n], k);
    }
  }

  lemma CellsPadded(data: seq<Byte>)
    requires |data| % 4 == 0
    ensures Padded(data) == data
  {
  }

  // ---------- the blob ----------

  const HEADER := 40

  function RsvMap(st: seq<Byte>): (r: nat)
    ensures r % 8 == 0
  {
    Align(HEADER + |st|, 8)
  }

  function Total(st: seq<Byte>, strings: seq<Byte>): (r: nat)
    ensures r % 8 == 0
  {
    Align(RsvMap(st) + 16 + |strings|, 8)
  }

  /** `s` stands in `b` at `pos`. */
  predicate At(b: seq<Byte>, pos: nat, s: seq<Byte>) {
    pos + |s| <= |b| && b[pos..pos + |s|] == s
  }

  /** The ten header cells, in the order of the header. */
  function Header(st: seq<Byte>, strings: seq<Byte>): (h: seq<nat>)
    ensures |h| == 10
  {
    [MAGIC, Total(st, strings), HEADER, RsvMap(st) + 16, RsvMap(st), 17, 16, 0, |strings|, |st|]
  }

  /** A blob: header, structure block, empty reservation map and string block, each at the
      offset its header cell gives. */
  ghost predicate IsBlob(b: seq<Byte>, st: seq<Byte>, strings: seq<Byte>) {
    && |b| == Total(st, strings)
    && (forall k :: 0 <= k < 10 ==> At(b, 4 * k, Be32(Header(st, strings)[k])))
    && At(b, HEADER, st)
    && At(b, RsvMap(st), Zeros(16))
    && At(b, RsvMap(st) + 16, strings)
  }

  /** The header holds these ten cells. */
  ghost predicate HeaderIs(b: seq<Byte>, cells: seq<seq<Byte>>) {
    |cells| == 10 && forall k :: 0 <= k < 10 ==> |cells[k]| == 4 && At(b, 4 * k, cells[k])
  }

  ghost function CellsOf(b: seq<Byte>): (cells: seq<seq<Byte>>)
    requires |b| >= HEADER
    ensures HeaderIs(b, cells)
  {
    seq(10, k requires 0 <= k < 10 => b[4 * k..4 * k + 4])
  }

  lemma HeaderKept(b: seq<Byte>, c: seq<Byte>, cells: seq<seq<Byte>>)
    requires HeaderIs(b, cells) && HEADER <= |b| && HEADER <= |c| && b[..HEADER] == c[..HEADER]
    ensures HeaderIs(c, cells)
  {
    forall k | 0 <= k < 10
      ensures At(c, 4 * k, cells[k])
    {
      assert At(b, 4 * k, cells[k]);
      assert c[4 * k..4 * k + 4] == c[..HEADER][4 * k..4 * k + 4] == b[..HEADER][4 * k..4 * k + 4] == b[4 * k..4 * k + 4];
    }
  }

  /** The part of a blob written so far: header cells, then `body`; beyond it nothing has
      changed. */
  ghost predicate Written(b: seq<Byte>, orig: seq<Byte>, cells: seq<seq<Byte>>, body: seq<Byte>) {
    && HeaderIs(b, cells) && At(b, HEADER, body)
    && |b| == |orig| && b[HEADER + |body|..] == orig[HEADER + |body|..]
  }

  lemma CellSet(b: seq<Byte>, c: seq<Byte>, cells: seq<seq<Byte>>, k: nat, s: seq<Byte>)
    requires HeaderIs(b, cells) && k < 10 && |s| == 4 && |b| == |c| && HEADER <= |b|
    requires c[..4 * k] == b[..4 * k] && c[4 * k..4 * k + 4] == s && c[4 * k + 4..] == b[4 * k + 4..]
    ensures HeaderIs(c, cells[k := s])
  {
    forall j | 0 <= j < 10 && j != k
      ensures At(c, 4 * j, cells[j])
    {
      assert At(b, 4 * j, cells[j]);
      if j < k {
        SliceBelow(b, c, 4 * k, 4 * j, 4 * j + 4);
      } else {
        SliceAbove(b, c, 4 * k + 4, 4 * j, 4 * j + 4);
      }
    }
  }

  lemma SliceBelow(b: seq<Byte>, c: seq<Byte>, n: nat, i: nat, j: nat)
    requires i <= j <= n <= |b| && n <= |c| && b[..n] == c[..n]
    ensures b[i..j] == c[i..j]
  {
    assert b[i..j] == b[..n][i..j] && c[i..j] == c[..n][i..j];
  }

  lemma SliceAbove(b: seq<Byte>, c: seq<Byte>, n: nat, i: nat, j: nat)
    requires n <= i <= j <= |b| && |b| == |c| && b[n..] == c[n..]
    ensures b[i..j] == c[i..j]
  {
    var d, e := i - n, j - n;
    assert b[i..j] == b[n..][d..e] && c[i..j] == c[n..][d..e];
  }

  /** Consecutive pieces stand one after the other. */
  lemma Pieces(b: seq<Byte>, pos: nat, s: seq<Byte>, t: seq<Byte>)
    ensures At(b, pos, s + t) <==> At(b, pos, s) && At(b, pos + |s|, t)
  {
    if At(b, pos, s + t) {
      var m, n := pos + |s|, pos + |s| + |t|;
      assert b[pos..m] == b[pos..n][..|s|] && b[m..n] == b[pos..n][|s|..];
    }
    if At(b, pos, s) && At(b, pos + |s|, t) {
      var m, n := pos + |s|, pos + |s| + |t|;
      assert b[pos..n] == b[pos..m] + b[m..n];
    }
  }

  /** Cutting a sequence keeps what stands before the cut. */
  lemma CutAt(b: seq<Byte>, n: nat, pos: nat, s: seq<Byte>)
    requires pos + |s| <= n <= |b|
    ensures At(b, pos, s) <==> At(b[..n], pos, s)
  {
    assert b[..n][pos..pos + |s|] == b[pos..pos + |s|];
  }

  // ---------- the writer ----------

  class Writer {
    var tab: seq<Byte>
    var openNodeCount: int
    var stringTable: seq<Byte>

    ghost predicate Valid()
      reads this
    {
      Terminated(stringTable) && |tab| % 4 == 0 && Distinct(Entries(stringTable, 0))
    }

    constructor ()
      ensures Valid() && tab == [] && stringTable == [] && openNodeCount == 0
    {
      tab, openNodeCount, stringTable := [], 0, [];
    }

    method Put32(value: nat)
      modifies this`tab
      ensures tab == old(tab) + Be32(value)
    {
      tab := tab + Be32(value);
    }

    method PutData(data: seq<Byte>)
      requires |tab| % 4 == 0
      modifies this`tab
      ensures tab == old(tab) + Padded(data) && |tab| % 4 == 0
    {
      var len1 := (|data| + 3) / 4;
      tab := tab + data + Zeros(len1 * 4 - |data|);
    }

    method BeginNode(name: Name)
      requires Valid()
      modifies this`tab, this`openNodeCount
      ensures Valid() && tab == old(tab) + (Be32(BEGIN_NODE) + Padded(name + [0]))
      ensures openNodeCount == old(openNodeCount) + 1
    {
      Put32(BEGIN_NODE);
      PutData(name + [0]);
      openNodeCount := openNodeCount + 1;
    }

    method EndNode()
      requires Valid()
      modifies this`tab, this`openNodeCount
      ensures Valid() && tab == old(tab) + Be32(END_NODE) && openNodeCount == old(openNodeCount) - 1
    {
      Put32(END_NODE);
      openNodeCount := openNodeCount - 1;
    }

    method GetStringOffset(name: Name) returns (offset: nat)
      requires Valid()
      modifies this`stringTable
      ensures Valid() && stringTable == WithString(old(stringTable), name)
      ensures offset == Find(old(stringTable), 0, name)
    {
      WithStringIs(stringTable, name);
      var pos := 0;
      while pos < |stringTable|
        invariant stringTable == old(stringTable) && pos <= |stringTable|
        invariant Find(stringTable, 0, name) == Find(stringTable, pos, name)
      {
        CStrEnds(stringTable, pos);
        if CStr(stringTable, pos) == name {
          return pos;
        }
        pos := pos + |CStr(stringTable, pos)| + 1;
      }
      offset := |stringTable|;
      stringTable := stringTable + name + [0];
    }

    method Prop(name: Name, data: seq<Byte>)
      requires Valid()
      modifies this`tab, this`stringTable
      ensures Valid() && (tab, stringTable) == (old(tab) + ItemBytes(Property(name, data), old(stringTable)).0,
                                                ItemBytes(Property(name, data), old(stringTable)).1)
    {
      Put32(PROP);
      Put32(|data|);
      var offset := GetStringOffset(name);
      Put32(offset);
      PutData(data);
      assert tab == old(tab) + ItemBytes(Property(name, data), old(stringTable)).0;
    }

    method PropTabU32(name: Name, cells: seq<nat>)
      requires Valid()
      modifies this`tab, this`stringTable
      ensures Valid() && (tab, stringTable) == (old(tab) + ItemBytes(Property(name, Cells(cells)), old(stringTable)).0,
                                                ItemBytes(Property(name, Cells(cells)), old(stringTable)).1)
    {
      hide Be32;
      hide Cells;
      hide Find;
      hide WithString;
      Put32(PROP);
      Put32(|cells| * 4);
      var offset := GetStringOffset(name);
      Put32(offset);
      PutCells(cells);
      CellsPadded(Cells(cells));
      assert tab == old(tab) + ItemBytes(Property(name, Cells(cells)), old(stringTable)).0;
    }

    /** The loop of fdt_prop_tab_u32. */
    method PutCells(cells: seq<nat>)
      modifies this`tab
      ensures tab == old(tab) + Cells(cells)
    {
      var i := 0;
      while i < |cells|
        invariant 0 <= i <= |cells|
        invariant tab == old(tab) + Cells(cells[..i])
      {
        Put32(cells[i]);
        assert cells[..i + 1][..i] == cells[..i];
        i := i + 1;
      }
      assert cells[..i] == cells;
    }

    /** The calls that write one tree. */
    method WriteNode(node: Node)
      requires Valid()
      modifies this
      ensures Valid() && openNodeCount == old(openNodeCount)
      ensures tab == old(tab) + NodeBytes(node, old(stringTable)).0
      ensures stringTable == NodeBytes(node, old(stringTable)).1
      decreases node
    {
      BeginNode(node.name);
      WriteItems(node.items);
      EndNode();
    }

    method WriteItems(items: seq<Item>)
      requires Valid()
      modifies this
      ensures Valid() && openNodeCount == old(openNodeCount)
      ensures tab == old(tab) + ItemsBytes(items, old(stringTable)).0
      ensures stringTable == ItemsBytes(items, old(stringTable)).1
      decreases items
    {
      hide ItemBytes;
      hide NodeBytes;
      if items != [] {
        WriteItem(items[0]);
        WriteItems(items[1..]);
      }
    }

    method WriteItem(item: Item)
      requires Valid()
      modifies this
      ensures Valid() && openNodeCount == old(openNodeCount)
      ensures tab == old(tab) + ItemBytes(item, old(stringTable)).0
      ensures stringTable == ItemBytes(item, old(stringTable)).1
      decreases item
    {
      match item {
        case Property(name, data) => Prop(name, data);
        case Child(node) => WriteNode(node);
      }
    }

    /** memcpy into the blob. */
    method Copy(dst: array<Byte>, pos: nat, s: seq<Byte>)
      requires pos + |s| <= dst.Length
      modifies dst
      ensures dst[..pos] == old(dst[..pos]) && dst[pos..pos + |s|] == s && dst[pos + |s|..] == old(dst[pos + |s|..])
    {
      var i := 0;
      while i < |s|
        invariant 0 <= i <= |s|
        invariant dst[..pos] == old(dst[..pos]) && dst[pos..pos + i] == s[..i]
        invariant dst[pos + |s|..] == old(dst[pos + |s|..])
      {
        dst[pos + i] := s[i];
        i := i + 1;
      }
    }

    method PutCell(dst: array<Byte>, k: nat, v: nat,
                   ghost orig: seq<Byte>, ghost cells: seq<seq<Byte>>, ghost body: seq<Byte>)
      requires k < 10 && Written(dst[..], orig, cells, body)
      modifies dst
      ensures Written(dst[..], orig, cells[k := Be32(v)], body)
    {
      ghost var b, d, n := dst[..], 4 * k + 4, HEADER + |body|;
      Copy(dst, 4 * k, Be32(v));
      CellSet(b, dst[..], cells, k, Be32(v));
      assert dst[..][HEADER..n] == dst[d..][HEADER - d..n - d] == b[d..][HEADER - d..n - d] == b[HEADER..n];
      assert dst[..][n..] == dst[d..][n - d..] == b[d..][n - d..] == b[n..];
    }

    /** The copies that fill the blob after its header. */
    method Append(dst: array<Byte>, pos: nat, s: seq<Byte>,
                  ghost orig: seq<Byte>, ghost cells: seq<seq<Byte>>, ghost body: seq<Byte>)
      requires pos == HEADER + |body| && pos + |s| <= dst.Length && Written(dst[..], orig, cells, body)
      modifies dst
      ensures Written(dst[..], orig, cells, body + s)
    {
      ghost var b := dst[..];
      Copy(dst, pos, s);
      Appended(b, dst[..], pos, s, orig, cells, body);
    }

    /** Zeros up to the next multiple of 8. */
    method AlignTo8(dst: array<Byte>, start: nat,
                    ghost orig: seq<Byte>, ghost cells: seq<seq<Byte>>, ghost body: seq<Byte>) returns (pos: nat)
      requires start == HEADER + |body| && Align(start, 8) <= dst.Length && Written(dst[..], orig, cells, body)
      modifies dst
      ensures pos == Align(start, 8) && Written(dst[..], orig, cells, body + Zeros(pos - start))
    {
      pos := start;
      ghost var b := dst[..];
      while pos % 8 != 0
        invariant start <= pos <= Align(start, 8)
        invariant dst[..start] == b[..start] && dst[start..pos] == Zeros(pos - start)
        invariant dst[pos..] == b[pos..]
        decreases Align(start, 8) - pos
      {
        dst[pos] := 0;
        pos := pos + 1;
      }
      Appended(b, dst[..], start, Zeros(pos - start), orig, cells, body);
    }

    /** The header cells that do not depend on the layout. */
    method PutConstants(dst: array<Byte>, ghost orig: seq<Byte>, ghost cells: seq<seq<Byte>>) returns (ghost after: seq<seq<Byte>>)
      requires Written(dst[..], orig, cells, [])
      modifies dst
      ensures Written(dst[..], orig, after, []) && |after| == 10
      ensures after[0] == Be32(MAGIC) && after[5] == Be32(17) && after[6] == Be32(16) && after[7] == Be32(0)
      ensures after[8] == Be32(|stringTable|) && after[9] == Be32(|tab|)
    {
      assert |cells| == 10;
      hide Written;
      hide Be32;
      after := cells;
      PutCell(dst, 0, MAGIC, orig, after, []);
      after := after[0 := Be32(MAGIC)];
      PutCell(dst, 5, 17, orig, after, []);
      after := after[5 := Be32(17)];
      PutCell(dst, 6, 16, orig, after, []);
      after := after[6 := Be32(16)];
      PutCell(dst, 7, 0, orig, after, []);
      after := after[7 := Be32(0)];
      PutCell(dst, 8, |stringTable|, orig, after, []);
      after := after[8 := Be32(|stringTable|)];
      PutCell(dst, 9, |tab|, orig, after, []);
      after := after[9 := Be32(|tab|)];
    }

    /** fdt_output. */
    method Output(dst: array<Byte>) returns (pos: nat)
      requires Valid() && openNodeCount == 0
      requires dst.Length >= Total(tab + Be32(END), stringTable)
      modifies this`tab, dst
      ensures Valid() && tab == old(tab) + Be32(END)
      ensures pos == Total(tab, stringTable) && IsBlob(dst[..][..pos], tab, stringTable)
      ensures dst[..][pos..] == old(dst[..])[pos..]
    {
      hide Distinct;
      hide Entries;
      hide Terminated;
      hide Total;
      hide IsBlob;
      Put32(END);
      assert |tab| % 4 == 0;
      pos := LayOut(dst);
    }

    /** The structure block and the empty reservation map. */
    method PutStructure(dst: array<Byte>, ghost orig: seq<Byte>, ghost cells: seq<seq<Byte>>)
      returns (pos: nat, ghost pad: seq<Byte>)
      requires dst.Length >= RsvMap(tab) + 16 && |cells| == 10 && Written(dst[..], orig, cells, [])
      modifies dst
      ensures pos == RsvMap(tab) + 16 && |pad| == RsvMap(tab) - HEADER - |tab|
      ensures Written(dst[..], orig, cells[2 := Be32(HEADER)][4 := Be32(RsvMap(tab))], [] + tab + pad + Zeros(16))
    {
      hide Written;
      hide Be32;
      hide Align;
      hide Zeros;
      pos := HEADER;
      PutCell(dst, 2, pos, orig, cells, []);
      ghost var placed := cells[2 := Be32(pos)];
      Append(dst, pos, tab, orig, placed, []);
      pos := pos + |tab|;
      pos := AlignTo8(dst, pos, orig, placed, [] + tab);
      pad := Zeros(pos - HEADER - |tab|);
      PutCell(dst, 4, pos, orig, placed, [] + tab + pad);
      Append(dst, pos, Zeros(16), orig, placed[4 := Be32(pos)], [] + tab + pad);
      pos := pos + 16;
    }

    /** The string block and the total size. */
    method PutStrings(dst: array<Byte>, start: nat, ghost orig: seq<Byte>, ghost cells: seq<seq<Byte>>,
                      ghost body: seq<Byte>) returns (pos: nat, ghost gap: seq<Byte>)
      requires start == HEADER + |body| && |cells| == 10 && Written(dst[..], orig, cells, body)
      requires dst.Length >= Align(start + |stringTable|, 8)
      modifies dst
      ensures pos == Align(start + |stringTable|, 8) && |gap| == pos - start - |stringTable|
      ensures Written(dst[..], orig, cells[3 := Be32(start)][1 := Be32(pos)], body + stringTable + gap)
    {
      hide Written;
      hide Be32;
      hide Align;
      hide Zeros;
      pos := start;
      PutCell(dst, 3, pos, orig, cells, body);
      ghost var placed := cells[3 := Be32(pos)];
      Append(dst, pos, stringTable, orig, placed, body);
      pos := AlignTo8(dst, pos + |stringTable|, orig, placed, body + stringTable);
      gap := Zeros(pos - start - |stringTable|);
      PutCell(dst, 1, pos, orig, placed, body + stringTable + gap);
    }

    /** The part of fdt_output that fills the blob. */
    method LayOut(dst: array<Byte>) returns (pos: nat)
      requires dst.Length >= Total(tab, stringTable)
      modifies dst
      ensures pos == Total(tab, stringTable) && IsBlob(dst[..][..pos], tab, stringTable)
      ensures dst[..][pos..] == old(dst[..])[pos..]
    {
      ghost var orig, start := dst[..], CellsOf(dst[..]);
      assert Written(dst[..], orig, start, []);
      hide Written;
      hide IsBlob;
      hide HeaderIs;
      hide Be32;
      hide Align;
      hide Zeros;
      ghost var constants := PutConstants(dst, orig, start);
      ghost var pad: seq<Byte>, gap: seq<Byte>;
      pos, pad := PutStructure(dst, orig, constants);
      pos, gap := PutStrings(dst, pos, orig, constants[2 := Be32(HEADER)][4 := Be32(RsvMap(tab))],
                             [] + tab + pad + Zeros(16));
      BlobIs(dst[..], orig, pos, tab, stringTable, constants, pad, gap);
    }
  }

  lemma Appended(b: seq<Byte>, c: seq<Byte>, pos: nat, s: seq<Byte>,
                 orig: seq<Byte>, cells: seq<seq<Byte>>, body: seq<Byte>)
    requires pos == HEADER + |body| && pos + |s| <= |b| && Written(b, orig, cells, body) && |c| == |b|
    requires c[..pos] == b[..pos] && c[pos..pos + |s|] == s && c[pos + |s|..] == b[pos + |s|..]
    ensures Written(c, orig, cells, body + s)
  {
    assert c[..HEADER] == c[..pos][..HEADER] == b[..pos][..HEADER] == b[..HEADER];
    HeaderKept(b, c, cells);
    assert c[HEADER..pos] == c[..pos][HEADER..] == b[..pos][HEADER..] == b[HEADER..pos];
    Pieces(c, HEADER, body, s);
    assert b[pos + |s|..] == b[pos..][|s|..] == orig[pos..][|s|..] == orig[pos + |s|..];
  }

  lemma BlobIs(b: seq<Byte>, orig: seq<Byte>, n: nat, st: seq<Byte>, strings: seq<Byte>,
               constants: seq<seq<Byte>>, pad: seq<Byte>, gap: seq<Byte>)
    requires n == Total(st, strings) <= |b| && |constants| == 10
    requires |pad| == RsvMap(st) - HEADER - |st| && |gap| == n - RsvMap(st) - 16 - |strings|
    requires constants[0] == Be32(MAGIC) && constants[5] == Be32(17) && constants[6] == Be32(16)
    requires constants[7] == Be32(0) && constants[8] == Be32(|strings|) && constants[9] == Be32(|st|)
    requires Written(b, orig, constants[2 := Be32(HEADER)][4 := Be32(RsvMap(st))][3 := Be32(RsvMap(st) + 16)][1 := Be32(n)],
                     [] + st + pad + Zeros(16) + strings + gap)
    ensures IsBlob(b[..n], st, strings) && b[n..] == orig[n..]
  {
    var cells := constants[2 := Be32(HEADER)][4 := Be32(RsvMap(st))][3 := Be32(RsvMap(st) + 16)][1 := Be32(n)];
    assert [] + st == st;
    Pieces(b, HEADER, st + pad + Zeros(16) + strings, gap);
    Pieces(b, HEADER, st + pad + Zeros(16), strings);
    Pieces(b, HEADER, st + pad, Zeros(16));
    Pieces(b, HEADER, st, pad);
    CutAt(b, n, HEADER, st);
    CutAt(b, n, RsvMap(st), Zeros(16));
    CutAt(b, n, RsvMap(st) + 16, strings);
    forall k | 0 <= k < 10
      ensures At(b[..n], 4 * k, Be32(Header(st, strings)[k]))
    {
      CutAt(b, n, 4 * k, cells[k]);
    }
  }
}
