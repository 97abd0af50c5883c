/** An independent reader for flattened device trees (Devicetree Specification v0.4,
    sections 5.2 to 5.6), and the proof that it undoes the writer. */
module FdtParse {
  import opened Bits
  import opened Fdt

  /** What was read and where it ended. */
  datatype Read<T> = Fail | Read(value: T, end: nat)

  // ---------- the reader ----------

  /** The items of a node from `pos` on, up to its end token. */
  function ParseItems(b: seq<Byte>, pos: nat, strings: seq<Byte>): (r: Read<seq<Item>>)
    ensures r.Read? ==> pos < r.end <= |b|
    decreases |b| - pos
  {
    if pos + 4 > |b| then Fail
    else
      var token := Read32(b, pos);
      if token == END_NODE then Read([], pos + 4)
      else if token == NOP then ParseItems(b, pos + 4, strings)
      else if token == PROP then
        if pos + 12 > |b| then Fail
        else
          var len, offset := Read32(b, pos + 4), Read32(b, pos + 8);
          var next := pos + 12 + Align(len, 4);
          if next > |b| || offset >= |strings| then Fail
          else Prepend(Property(CStr(strings, offset), b[pos + 12..pos + 12 + len]), ParseItems(b, next, strings))
      else if token == BEGIN_NODE then
        var child := ParseNode(b, pos, strings);
        if child.Fail? then Fail else Prepend(Child(child.value), ParseItems(b, child.end, strings))
      else Fail
  }

  function Prepend(item: Item, rest: Read<seq<Item>>): (r: Read<seq<Item>>)
    ensures r.Read? <==> rest.Read?
    ensures r.Read? ==> r.end == rest.end
  {
    if rest.Fail? then Fail else Read([item] + rest.value, rest.end)
  }

  /** The node whose begin token stands at `pos`. */
  function ParseNode(b: seq<Byte>, pos: nat, strings: seq<Byte>): (r: Read<Node>)
    ensures r.Read? ==> pos < r.end <= |b|
    decreases |b| - pos, 0
  {
    if pos + 4 > |b| || Read32(b, pos) != BEGIN_NODE then Fail
    else
      var name := CStr(b, pos + 4);
      var items := ParseItems(b, pos + 4 + Align(|name| + 1, 4), strings);
      if items.Fail? then Fail else Read(Node(name, items.value), items.end)
  }

  /** The root of a blob, found through the header, if the header is sound, no memory is
      reserved and nothing but an end token follows the root. */
  function ParseBlob(b: seq<Byte>): Read<Node> {
    if |b| < HEADER || Read32(b, 0) != MAGIC || Read32(b, 4) != |b| || Read32(b, 24) > 17 then Fail
    else
      var structAt, stringsAt, rsvAt := Read32(b, 8), Read32(b, 12), Read32(b, 16);
      var stringsEnd, structEnd := stringsAt + Read32(b, 32), structAt + Read32(b, 36);
      if structEnd > |b| || stringsEnd > |b| || rsvAt + 16 > |b| || b[rsvAt..rsvAt + 16] != Zeros(16) then Fail
      else
        var st := b[structAt..structEnd];
        var root := ParseNode(st, 0, b[stringsAt..stringsEnd]);
        if root.Read? && root.end + 4 == |st| && Read32(st, root.end) == END then Read(root.value, |b|) else Fail
  }

  // ---------- reading back what was written ----------

  lemma CellAt(b: seq<Byte>, pos: nat, v: nat)
    requires At(b, pos, Be32(v))
    ensures pos + 4 <= |b| && Read32(b, pos) == v % 0x1_0000_0000
  {
    hide Be32;
    ReadBe32(v);
    ReadSame(b, pos, Be32(v));
  }

  lemma ReadSame(b: seq<Byte>, pos: nat, s: seq<Byte>)
    requires |s| == 4 && At(b, pos, s)
    ensures Read32(b, pos) == Read32(s, 0)
  {
    assert b[pos] == s[0] && b[pos + 1] == s[1] && b[pos + 2] == s[2] && b[pos + 3] == s[3];
  }

  /** A written string and its terminator read back. */
  lemma NameAt(b: seq<Byte>, pos: nat, name: Name)
    requires At(b, pos, Padded(name + [0]))
    ensures CStr(b, pos) == name
  {
    var data := name + [0];
    Pieces(b, pos, data, Zeros(Align(|data|, 4) - |data|));
    Pieces(b, pos, name, [0]);
    assert b[pos + |name|] == 0;
    CStrAt(b, pos, name);
  }

  ghost predicate Readable(b: seq<Byte>, strings: seq<Byte>) {
    |b| < 0x1_0000_0000 && |strings| < 0x1_0000_0000
  }

  /** Reading the items of a written node, whatever surrounds them. */
  lemma {:induction false} ItemsRead(items: seq<Item>, table: seq<Byte>, b: seq<Byte>, pos: nat, strings: seq<Byte>)
    requires Readable(b, strings) && Terminated(table) && ItemsBytes(items, table).1 <= strings
    requires At(b, pos, ItemsBytes(items, table).0 + Be32(END_NODE))
    ensures ParseItems(b, pos, strings) == Read(items, pos + |ItemsBytes(items, table).0| + 4)
    decreases items
  {
    hide Be32;
    hide At;
    hide ItemBytes;
    hide ParseItems;
    hide Readable;
    hide Terminated;
    if items == [] {
      assert [] + Be32(END_NODE) == Be32(END_NODE);
      CellAt(b, pos, END_NODE);
      EndRead(b, pos, strings);
    } else {
      var first := ItemBytes(items[0], table);
      var rest := ItemsBytes(items[1..], first.1);
      assert first.0 + rest.0 + Be32(END_NODE) == first.0 + (rest.0 + Be32(END_NODE));
      Pieces(b, pos, first.0, rest.0 + Be32(END_NODE));
      ItemsRead(items[1..], first.1, b, pos + |first.0|, strings);
      ItemRead(items[0], table, b, pos, strings, items[1..], pos + |first.0| + |rest.0| + 4);
      assert items == [items[0]] + items[1..];
    }
  }

  lemma EndRead(b: seq<Byte>, pos: nat, strings: seq<Byte>)
    requires pos + 4 <= |b| && Read32(b, pos) == END_NODE
    ensures ParseItems(b, pos, strings) == Read([], pos + 4)
  {
  }

  lemma {:induction false} ItemRead(item: Item, table: seq<Byte>, b: seq<Byte>, pos: nat, strings: seq<Byte>,
                                    tail: seq<Item>, end: nat)
    requires Readable(b, strings) && Terminated(table) && ItemBytes(item, table).1 <= strings
    requires At(b, pos, ItemBytes(item, table).0)
    requires ParseItems(b, pos + |ItemBytes(item, table).0|, strings) == Read(tail, end)
    ensures ParseItems(b, pos, strings) == Read([item] + tail, end)
    decreases item
  {
    hide At;
    hide CStr;
    hide Align;
    hide Readable;
    hide Terminated;
    match item {
      case Property(name, data) =>
        PropertyRead(name, data, table, b, pos, strings);
      case Child(node) =>
        NodeRead(node, table, b, pos, strings);
        hide ParseNode;
    }
  }

  lemma PropertyRead(name: Name, data: seq<Byte>, table: seq<Byte>, b: seq<Byte>, pos: nat, strings: seq<Byte>)
    requires Readable(b, strings) && Terminated(table) && WithString(table, name) <= strings
    requires At(b, pos, ItemBytes(Property(name, data), table).0)
    ensures |ItemBytes(Property(name, data), table).0| == 12 + Align(|data|, 4)
    ensures pos + 12 + Align(|data|, 4) <= |b|
    ensures Read32(b, pos) == PROP && Read32(b, pos + 4) == |data|
    ensures Read32(b, pos + 8) < |strings| && CStr(strings, Read32(b, pos + 8)) == name
    ensures b[pos + 12..pos + 12 + |data|] == data
  {
    hide Be32;
    hide At;
    hide CStr;
    hide Find;
    hide WithString;
    hide Align;
    hide Padded;
    var offset := Find(table, 0, name);
    FourPieces(b, pos, Be32(PROP), Be32(|data|), Be32(offset), Padded(data));
    CellAt(b, pos, PROP);
    CellAt(b, pos + 4, |data|);
    CellAt(b, pos + 8, offset);
    OffsetStands(table, name, strings);
    DataAt(b, pos + 12, data);
    ModSmall(|data|, 0x1_0000_0000);
    ModSmall(offset, 0x1_0000_0000);
  }

  lemma DataAt(b: seq<Byte>, pos: nat, data: seq<Byte>)
    requires At(b, pos, Padded(data))
    ensures pos + Align(|data|, 4) <= |b| && b[pos..pos + |data|] == data
  {
    Pieces(b, pos, data, Zeros(Align(|data|, 4) - |data|));
  }

  lemma FourPieces(b: seq<Byte>, pos: nat, c0: seq<Byte>, c1: seq<Byte>, c2: seq<Byte>, d: seq<Byte>)
    requires At(b, pos, c0 + c1 + c2 + d) && |c0| == 4 && |c1| == 4 && |c2| == 4
    ensures At(b, pos, c0) && At(b, pos + 4, c1) && At(b, pos + 8, c2) && At(b, pos + 12, d)
  {
    hide At;
    Pieces(b, pos, c0 + c1 + c2, d);
    Pieces(b, pos, c0 + c1, c2);
    Pieces(b, pos, c0, c1);
  }

  lemma {:induction false} NodeRead(node: Node, table: seq<Byte>, b: seq<Byte>, pos: nat, strings: seq<Byte>)
    requires Readable(b, strings) && Terminated(table) && NodeBytes(node, table).1 <= strings
    requires At(b, pos, NodeBytes(node, table).0)
    ensures pos + 4 <= |b| && Read32(b, pos) == BEGIN_NODE
    ensures ParseNode(b, pos, strings) == Read(node, pos + |NodeBytes(node, table).0|)
    decreases node
  {
    hide Be32;
    hide At;
    hide ItemsBytes;
    hide ParseItems;
    var items := ItemsBytes(node.items, table);
    var start, name := Be32(BEGIN_NODE), Padded(node.name + [0]);
    assert start + name + items.0 + Be32(END_NODE) == (start + name) + (items.0 + Be32(END_NODE));
    Pieces(b, pos, start + name, items.0 + Be32(END_NODE));
    Pieces(b, pos, start, name);
    CellAt(b, pos, BEGIN_NODE);
    NameAt(b, pos + 4, node.name);
    ItemsRead(node.items, table, b, pos + |start + name|, strings);
  }

  /** The blob fdt_output makes of a finished tree reads back as that tree. */
  lemma BlobReads(b: seq<Byte>, node: Node, st: seq<Byte>, strings: seq<Byte>)
    requires (st, strings) == (NodeBytes(node, []).0 + Be32(END), NodeBytes(node, []).1)
    requires IsBlob(b, st, strings) && |b| < 0x1_0000_0000
    ensures ParseBlob(b) == Read(node, |b|)
  {
    hide Be32;
    hide At;
    hide ParseNode;
    hide NodeBytes;
    hide Align;
    HeaderReads(b, st, strings);
    SliceOf(b, HEADER, st);
    SliceOf(b, RsvMap(st), Zeros(16));
    SliceOf(b, RsvMap(st) + 16, strings);
    StructReads(node, st, strings);
    hide IsBlob;
    hide Read32;
    hide Zeros;
  }

  lemma StructReads(node: Node, st: seq<Byte>, strings: seq<Byte>)
    requires (st, strings) == (NodeBytes(node, []).0 + Be32(END), NodeBytes(node, []).1)
    requires Readable(st, strings)
    ensures |st| >= 4 && ParseNode(st, 0, strings) == Read(node, |st| - 4) && Read32(st, |st| - 4) == END
  {
    hide Be32;
    hide At;
    hide ParseNode;
    hide NodeBytes;
    WholeAt(st);
    Pieces(st, 0, NodeBytes(node, []).0, Be32(END));
    CellAt(st, |st| - 4, END);
    NodeRead(node, [], st, 0, strings);
  }

  lemma WholeAt(s: seq<Byte>)
    ensures At(s, 0, s)
  {
  }

  lemma SliceOf(b: seq<Byte>, pos: nat, s: seq<Byte>)
    requires At(b, pos, s)
    ensures pos + |s| <= |b| && b[pos..pos + |s|] == s
  {
  }

  lemma HeaderReads(b: seq<Byte>, st: seq<Byte>, strings: seq<Byte>)
    requires IsBlob(b, st, strings) && |b| < 0x1_0000_0000
    ensures |b| >= HEADER
    ensures forall k :: 0 <= k < 10 ==> Read32(b, 4 * k) == Header(st, strings)[k]
    ensures Read32(b, 0) == MAGIC && Read32(b, 4) == |b| && Read32(b, 8) == HEADER
    ensures Read32(b, 12) == RsvMap(st) + 16 && Read32(b, 16) == RsvMap(st) && Read32(b, 24) == 16
    ensures Read32(b, 32) == |strings| && Read32(b, 36) == |st|
  {
    CellsRead(b, st, strings);
    hide IsBlob;
    hide Read32;
    HeaderCells(st, strings);
    hide Header;
    var h := Header(st, strings);
    assert Read32(b, 4 * 0) == h[0] && Read32(b, 4 * 1) == h[1] && Read32(b, 4 * 2) == h[2] && Read32(b, 4 * 3) == h[3];
    assert Read32(b, 4 * 4) == h[4] && Read32(b, 4 * 6) == h[6] && Read32(b, 4 * 8) == h[8] && Read32(b, 4 * 9) == h[9];
  }

  lemma HeaderCells(st: seq<Byte>, strings: seq<Byte>)
    ensures var h := Header(st, strings);
      && h[0] == MAGIC && h[1] == Total(st, strings) && h[2] == HEADER && h[3] == RsvMap(st) + 16
      && h[4] == RsvMap(st) && h[6] == 16 && h[8] == |strings| && h[9] == |st|
  {
  }

  lemma CellsRead(b: seq<Byte>, st: seq<Byte>, strings: seq<Byte>)
    requires IsBlob(b, st, strings) && |b| < 0x1_0000_0000
    ensures |b| >= HEADER && |b| == Total(st, strings)
    ensures forall k :: 0 <= k < 10 ==> Read32(b, 4 * k) == Header(st, strings)[k]
  {
    hide Be32;
    var h := Header(st, strings);
    forall k | 0 <= k < 10
      ensures 4 * k + 4 <= |b| && Read32(b, 4 * k) == h[k]
    {
      assert At(b, 4 * k, Be32(h[k]));
      CellAt(b, 4 * k, h[k]);
    }
  }

  /** The three blocks and the header do not overlap, the reservation map and the size are
      multiples of 8, and the structure block starts on a cell boundary. */
  lemma BlocksApart(st: seq<Byte>, strings: seq<Byte>)
    ensures HEADER + |st| <= RsvMap(st) && RsvMap(st) + 16 + |strings| <= Total(st, strings)
    ensures RsvMap(st) % 8 == 0 && Total(st, strings) % 8 == 0 && HEADER % 4 == 0
  {
  }

  /** Writing a tree and asking for the blob, then reading the blob. */
  method WriteAndRead(node: Node, dst: array<Byte>) returns (size: nat)
    requires dst.Length >= Total(NodeBytes(node, []).0 + Be32(END), NodeBytes(node, []).1)
    requires dst.Length < 0x1_0000_0000
    modifies dst
    ensures size <= dst.Length && ParseBlob(dst[..][..size]) == Read(node, size)
  {
    hide NodeBytes;
    hide ParseBlob;
    hide IsBlob;
    var writer := new Writer();
    writer.WriteNode(node);
    assert [] + NodeBytes(node, []).0 == NodeBytes(node, []).0;
    size := writer.Output(dst);
    BlobReads(dst[..][..size], node, writer.tab, writer.stringTable);
  }
}
