/**
 The G2G1 file of a graph (code/gsc_graph.cpp, 2633-2989): what is saved is what is
 loaded, what is loaded is consistent, and a corrupt body is refused.

 Origins and costs are 32-bit patterns here: the file never looks inside a float.
 */
module SaveFile {
  import opened GraphTypes
  import opened GraphEdits
  import opened Crc32

  type FileNode = Node<bv32>
  type FileEdge = Edge<bv32>

  const HEADER: nat := 20
  const NODE_SIZE: nat := 20
  const EDGE_SIZE: nat := 16
  const VERSION: nat := 1
  const MAGIC: Bytes := [0x47, 0x32, 0x47, 0x31] // "G2G1"
  const WORD_LIMIT: nat := 0x1_0000_0000
  const FILE_LIMIT: nat := 0x8000_0000

  // ---- little-endian numbers -----------------------------------------------------

  function Digit(n: nat, unit: nat): bv8
    requires unit > 0
  {
    ((n / unit) % 256) as bv8
  }

  function Word16(n: nat): (r: Bytes)
    ensures |r| == 2
  {
    [Digit(n, 1), Digit(n, 256)]
  }

  function Word32(n: nat): (r: Bytes)
    ensures |r| == 4
  {
    [Digit(n, 1), Digit(n, 256), Digit(n, 65536), Digit(n, 16777216)]
  }

  function Read16(b: Bytes, p: nat): nat
    requires p + 2 <= |b|
  {
    (b[p] as nat) + 256 * (b[p + 1] as nat)
  }

  function Read32(b: Bytes, p: nat): nat
    requires p + 4 <= |b|
  {
    (b[p] as nat) + 256 * (b[p + 1] as nat) + 65536 * (b[p + 2] as nat) + 16777216 * (b[p + 3] as nat)
  }

  function Bits(x: bv32): (r: Bytes)
    ensures |r| == 4
  {
    Word32(x as nat)
  }

  function ReadBits(b: Bytes, p: nat): bv32
    requires p + 4 <= |b|
  {
    var n := Read32(b, p);
    if n < WORD_LIMIT then n as bv32 else 0
  }

  lemma ByteReads(d: nat)
    requires d < 256
    ensures ((d as bv8) as nat) == d
  {
    var x := ByteOfValue(d);
    ByteComesBack(x);
  }

  lemma ByteComesBack(x: bv8)
    ensures (x as nat) as bv8 == x
  {
  }

  lemma NextByteValue(x: bv8)
    requires x != 0xFF
    ensures ((x + 1) as nat) == (x as nat) + 1
  {
  }

  lemma {:induction false} ByteOfValue(d: nat) returns (x: bv8)
    requires d < 256
    ensures x as nat == d
  {
    x := 0;
    var full: bv8 := 0xFF;
    assert x as nat == 0 && full as nat == 255;
    if d > 0 {
      x := ByteOfValue(d - 1);
      NextByteValue(x);
      x := x + 1;
    }
  }

  lemma DigitReads(n: nat, unit: nat)
    requires unit > 0
    ensures (Digit(n, unit) as nat) == (n / unit) % 256
  {
    ByteReads((n / unit) % 256);
  }

  lemma DigitsAddUp(n: nat)
    requires n < WORD_LIMIT
    ensures (n / 1) % 256 + 256 * ((n / 256) % 256) + 65536 * ((n / 65536) % 256)
        + 16777216 * ((n / 16777216) % 256) == n
  {
    var q, r, t := n / 256, n / 65536, n / 16777216;
    assert q / 256 == r && r / 256 == t;
  }

  lemma Read32Word(n: nat, b: Bytes, p: nat)
    requires n < WORD_LIMIT && p + 4 <= |b| && b[p..p + 4] == Word32(n)
    ensures Read32(b, p) == n
  {
    hide Digit;
    var w := Word32(n);
    assert b[p..p + 4][0] == w[0] && b[p..p + 4][1] == w[1] && b[p..p + 4][2] == w[2] && b[p..p + 4][3] == w[3];
    DigitReads(n, 1);
    DigitReads(n, 256);
    DigitReads(n, 65536);
    DigitReads(n, 16777216);
    DigitsAddUp(n);
  }

  lemma ReadBitsBits(x: bv32, b: Bytes, p: nat)
    requires p + 4 <= |b| && b[p..p + 4] == Bits(x)
    ensures ReadBits(b, p) == x
  {
    hide Word32;
    hide Read32;
    Read32Word(x as nat, b, p);
  }

  // ---- records -------------------------------------------------------------------

  datatype EdgeRecord = EdgeRecord(from: nat, edge: FileEdge)

  function NodeBytes(n: FileNode): (r: Bytes)
    ensures |r| == NODE_SIZE
  {
    Bits(n.origin.x) + Bits(n.origin.y) + Bits(n.origin.z) + Bits(n.ty) + Word32(if n.removed then 1 else 0)
  }

  /** The node of a record, without edges. */
  function NodeAt(b: Bytes, p: nat): FileNode
    requires p + NODE_SIZE <= |b|
  {
    Node(Vec(ReadBits(b, p), ReadBits(b, p + 4), ReadBits(b, p + 8)), ReadBits(b, p + 12), Read32(b, p + 16) != 0, [])
  }

  function EdgeBytes(r: EdgeRecord): (s: Bytes)
    ensures |s| == EDGE_SIZE
  {
    Word32(r.from) + Word32(r.edge.to) + Bits(r.edge.ty) + Bits(r.edge.cost)
  }

  function EdgeAt(b: Bytes, p: nat): EdgeRecord
    requires p + EDGE_SIZE <= |b|
  {
    EdgeRecord(Read32(b, p), Edge(Read32(b, p + 4), ReadBits(b, p + 8), ReadBits(b, p + 12)))
  }

  function Blank(n: FileNode): FileNode {
    n.(edges := [])
  }

  /** Where the fields of a record are. */
  lemma Fields(b: Bytes, p: nat, size: nat, v: Bytes, w: Bytes, x: Bytes, y: Bytes, z: Bytes)
    requires |v| == |w| == |x| == |y| == 4 && size == 16 + |z|
    requires p + size <= |b| && b[p..p + size] == v + w + x + y + z
    ensures b[p..p + 4] == v && b[p + 4..p + 8] == w && b[p + 8..p + 12] == x && b[p + 12..p + 16] == y
    ensures b[p + 16..p + size] == z
  {
    assert v + w + x + y + z == v + (w + (x + (y + z)));
    Cut(b, p, v, w + (x + (y + z)), size);
    Cut(b, p + 4, w, x + (y + z), size - 4);
    Cut(b, p + 8, x, y + z, size - 8);
    Cut(b, p + 12, y, z, size - 12);
  }

  lemma Cut(b: Bytes, p: nat, v: Bytes, w: Bytes, size: nat)
    requires p + size <= |b| && size == |v| + |w| && b[p..p + size] == v + w
    ensures b[p..p + |v|] == v && b[p + |v|..p + size] == w
  {
    assert b[p..p + |v|] == b[p..p + size][..|v|];
    assert b[p + |v|..p + size] == b[p..p + size][|v|..];
  }

  lemma NodeAtReadsBack(n: FileNode, b: Bytes, p: nat)
    requires p + NODE_SIZE <= |b| && b[p..p + NODE_SIZE] == NodeBytes(n)
    ensures NodeAt(b, p) == Blank(n)
  {
    hide Bits;
    hide ReadBits;
    hide Word32;
    hide Read32;
    Fields(b, p, NODE_SIZE, Bits(n.origin.x), Bits(n.origin.y), Bits(n.origin.z), Bits(n.ty),
        Word32(if n.removed then 1 else 0));
    ReadBitsBits(n.origin.x, b, p);
    ReadBitsBits(n.origin.y, b, p + 4);
    ReadBitsBits(n.origin.z, b, p + 8);
    ReadBitsBits(n.ty, b, p + 12);
    Read32Word(if n.removed then 1 else 0, b, p + 16);
  }

  lemma EdgeAtReadsBack(r: EdgeRecord, b: Bytes, p: nat)
    requires r.from < WORD_LIMIT && r.edge.to < WORD_LIMIT
    requires p + EDGE_SIZE <= |b| && b[p..p + EDGE_SIZE] == EdgeBytes(r)
    ensures EdgeAt(b, p) == r
  {
    hide Bits;
    hide ReadBits;
    hide Word32;
    hide Read32;
    assert EdgeBytes(r) == Word32(r.from) + Word32(r.edge.to) + Bits(r.edge.ty) + Bits(r.edge.cost) + [];
    Fields(b, p, EDGE_SIZE, Word32(r.from), Word32(r.edge.to), Bits(r.edge.ty), Bits(r.edge.cost), []);
    Read32Word(r.from, b, p);
    Read32Word(r.edge.to, b, p + 4);
    ReadBitsBits(r.edge.ty, b, p + 8);
    ReadBitsBits(r.edge.cost, b, p + 12);
  }

  // ---- saving ----------------------------------------------------------------------

  function AllNodeBytes(nodes: seq<FileNode>): (r: Bytes)
    ensures |r| == NODE_SIZE * |nodes|
  {
    if nodes == [] then [] else AllNodeBytes(nodes[..|nodes| - 1]) + NodeBytes(nodes[|nodes| - 1])
  }

  function AllEdgeBytes(records: seq<EdgeRecord>): (r: Bytes)
    ensures |r| == EDGE_SIZE * |records|
  {
    if records == [] then [] else AllEdgeBytes(records[..|records| - 1]) + EdgeBytes(records[|records| - 1])
  }

  /** The edges of one node, in order, as the file lists them. */
  function Outgoing(u: nat, edges: seq<FileEdge>): (r: seq<EdgeRecord>)
    ensures |r| == |edges|
  {
    if edges == [] then [] else Outgoing(u, edges[..|edges| - 1]) + [EdgeRecord(u, edges[|edges| - 1])]
  }

  /** All edges, node by node. */
  function Records(nodes: seq<FileNode>): (r: seq<EdgeRecord>)
    ensures |r| == EdgeTotal(nodes)
  {
    if nodes == [] then []
    else Records(nodes[..|nodes| - 1]) + Outgoing(|nodes| - 1, nodes[|nodes| - 1].edges)
  }

  function Body(nodes: seq<FileNode>): (r: Bytes)
    ensures |r| == NODE_SIZE * |nodes| + EDGE_SIZE * EdgeTotal(nodes)
  {
    AllNodeBytes(nodes) + AllEdgeBytes(Records(nodes))
  }

  /** The header up to the checksum. */
  function Fixed(nodeCount: nat, edgeCount: nat): (r: Bytes)
    ensures |r| == HEADER - 4
  {
    MAGIC + Word16(VERSION) + Word16(0) + Word32(nodeCount) + Word32(edgeCount)
  }

  function File(nodeCount: nat, edgeCount: nat, checksum: bv32, body: Bytes): (r: Bytes)
    ensures |r| == HEADER + |body|
    ensures r[HEADER..] == body
  {
    Fixed(nodeCount, edgeCount) + Bits(checksum) + body
  }

  /** The bytes a save writes. */
  function Image(nodes: seq<FileNode>): Bytes {
    File(|nodes|, EdgeTotal(nodes), Crc(Body(nodes)).bits, Body(nodes))
  }

  // ---- loading ---------------------------------------------------------------------

  /** Server settings and the graphs there are already; the node cap is read as unsigned. */
  datatype Limits = Limits(maxNodes: nat, maxGraphs: int, graphs: nat)

  datatype LoadError =
    | Missing | TooSmall | BadMagic | BadVersion | TooManyNodes | TooManyEdges | SizeMismatch
    | Corrupt | NoRoomForGraph | EdgeOutOfRange(index: nat) | EdgeTouchesRemoved(index: nat)

  datatype Loaded = Refused(why: LoadError) | Loaded(nodes: seq<FileNode>, edgeCount: nat)

  function NodesOf(body: Bytes, n: nat): (r: seq<FileNode>)
    requires NODE_SIZE * n <= |body|
    ensures |r| == n
  {
    if n == 0 then [] else NodesOf(body, n - 1) + [NodeAt(body, NODE_SIZE * (n - 1))]
  }

  function RecordsOf(body: Bytes, start: nat, k: nat): (r: seq<EdgeRecord>)
    requires start + EDGE_SIZE * k <= |body|
    ensures |r| == k
  {
    if k == 0 then [] else RecordsOf(body, start, k - 1) + [EdgeAt(body, start + EDGE_SIZE * (k - 1))]
  }

  /** One more edge record, or the reason to refuse it. */
  function AddRecord(nodes: seq<FileNode>, r: EdgeRecord, index: nat): Loaded {
    if r.from >= |nodes| || r.edge.to >= |nodes| then Refused(EdgeOutOfRange(index))
    else if nodes[r.from].removed || nodes[r.edge.to].removed then Refused(EdgeTouchesRemoved(index))
    else Loaded(SetEdges(nodes, r.from, nodes[r.from].edges + [r.edge]), index + 1)
  }

  /** The node list after the edge records, or the refusal of the first bad one. */
  function Build(blank: seq<FileNode>, records: seq<EdgeRecord>): Loaded {
    if records == [] then Loaded(blank, 0)
    else
      var before := Build(blank, records[..|records| - 1]);
      if before.Refused? then before else AddRecord(before.nodes, records[|records| - 1], |records| - 1)
  }

  /** What the checks ahead of the body say: the two counts, or a refusal. */
  datatype Header = Rejected(why: LoadError) | Counts(nodeCount: nat, edgeCount: nat)

  function ReadHeader(file: Bytes, limits: Limits): (r: Header)
    ensures r.Counts? ==> |file| == HEADER + NODE_SIZE * r.nodeCount + EDGE_SIZE * r.edgeCount
  {
    if |file| == 0 then Rejected(Missing)
    else if |file| < HEADER then Rejected(TooSmall)
    else if file[..4] != MAGIC then Rejected(BadMagic)
    else if Read16(file, 4) != VERSION then Rejected(BadVersion)
    else
      var nodeCount, edgeCount := Read32(file, 8), Read32(file, 12);
      if nodeCount > limits.maxNodes then Rejected(TooManyNodes)
      else if edgeCount > (|file| - HEADER) / EDGE_SIZE then Rejected(TooManyEdges)
      else if |file| != HEADER + NODE_SIZE * nodeCount + EDGE_SIZE * edgeCount then Rejected(SizeMismatch)
      else if Crc(file[HEADER..]).bits != ReadBits(file, 16) then Rejected(Corrupt)
      else if limits.graphs >= limits.maxGraphs then Rejected(NoRoomForGraph)
      else Counts(nodeCount, edgeCount)
  }

  /** What a load gives. */
  function LoadOf(file: Bytes, limits: Limits): Loaded {
    var header := ReadHeader(file, limits);
    if header.Rejected? then Refused(header.why)
    else
      var body := file[HEADER..];
      Build(NodesOf(body, header.nodeCount), RecordsOf(body, NODE_SIZE * header.nodeCount, header.edgeCount))
  }

  // ---- the two calls -------------------------------------------------------------------

  /** memcpy to p, which moves on. */
  method Put(buffer: array<bv8>, p: nat, s: Bytes) returns (q: nat)
    requires p + |s| <= buffer.Length
    modifies buffer
    ensures q == p + |s|
    ensures buffer[..q] == old(buffer[..p]) + s
    ensures buffer[q..] == old(buffer[q..])
  {
    for i := 0 to |s|
      invariant buffer[..p] == old(buffer[..p])
      invariant buffer[p..p + i] == s[..i]
      invariant buffer[p + i..] == old(buffer[p + i..])
    {
      buffer[p + i] := s[i];
    }
    q := p + |s|;
  }

  method PutNodes(buffer: array<bv8>, start: nat, nodes: seq<FileNode>) returns (p: nat)
    requires start + NODE_SIZE * |nodes| <= buffer.Length
    modifies buffer
    ensures p == start + NODE_SIZE * |nodes|
    ensures buffer[..p] == old(buffer[..start]) + AllNodeBytes(nodes)
  {
    hide NodeBytes;
    p := start;
    ghost var head := buffer[..start];
    for i := 0 to |nodes|
      invariant p == start + NODE_SIZE * i
      invariant buffer[..p] == head + AllNodeBytes(nodes[..i])
    {
      p := Put(buffer, p, NodeBytes(nodes[i]));
      OneMoreNode(head, nodes, i);
    }
    assert nodes[..|nodes|] == nodes;
  }

  lemma OneMoreNode(head: Bytes, nodes: seq<FileNode>, i: nat)
    requires i < |nodes|
    ensures head + AllNodeBytes(nodes[..i]) + NodeBytes(nodes[i]) == head + AllNodeBytes(nodes[..i + 1])
  {
    hide NodeBytes;
    assert nodes[..i + 1][..i] == nodes[..i];
  }

  /** The edges of node u. */
  method PutEdges(buffer: array<bv8>, start: nat, u: nat, edges: seq<FileEdge>) returns (p: nat)
    requires start + EDGE_SIZE * |edges| <= buffer.Length
    modifies buffer
    ensures p == start + EDGE_SIZE * |edges|
    ensures buffer[..p] == old(buffer[..start]) + AllEdgeBytes(Outgoing(u, edges))
  {
    hide EdgeBytes;
    p := start;
    ghost var head := buffer[..start];
    for e := 0 to |edges|
      invariant p == start + EDGE_SIZE * e
      invariant buffer[..p] == head + AllEdgeBytes(Outgoing(u, edges[..e]))
    {
      p := Put(buffer, p, EdgeBytes(EdgeRecord(u, edges[e])));
      OneMoreEdge(head, u, edges, e);
    }
    assert edges[..|edges|] == edges;
  }

  lemma OneMoreEdge(head: Bytes, u: nat, edges: seq<FileEdge>, e: nat)
    requires e < |edges|
    ensures head + AllEdgeBytes(Outgoing(u, edges[..e])) + EdgeBytes(EdgeRecord(u, edges[e])) ==
            head + AllEdgeBytes(Outgoing(u, edges[..e + 1]))
  {
    hide EdgeBytes;
    assert edges[..e + 1][..e] == edges[..e];
  }

  method PutAllEdges(buffer: array<bv8>, start: nat, nodes: seq<FileNode>) returns (p: nat)
    requires start + EDGE_SIZE * EdgeTotal(nodes) <= buffer.Length
    modifies buffer
    ensures p == start + EDGE_SIZE * EdgeTotal(nodes)
    ensures buffer[..p] == old(buffer[..start]) + AllEdgeBytes(Records(nodes))
  {
    hide Outgoing;
    hide AllEdgeBytes;
    hide Records;
    hide EdgeTotal;
    p := start;
    ghost var head := buffer[..start];
    NothingYet(nodes);
    for i := 0 to |nodes|
      invariant p == start + EDGE_SIZE * EdgeTotal(nodes[..i]) <= buffer.Length
      invariant buffer[..p] == head + AllEdgeBytes(Records(nodes[..i]))
    {
      RoomForNext(nodes, i);
      p := PutEdges(buffer, p, i, nodes[i].edges);
      OneMoreList(head, nodes, i);
    }
    assert nodes[..|nodes|] == nodes;
  }

  lemma NothingYet(nodes: seq<FileNode>)
    ensures EdgeTotal(nodes[..0]) == 0 && AllEdgeBytes(Records(nodes[..0])) == []
  {
  }

  lemma {:induction false} RoomForNext(nodes: seq<FileNode>, i: nat)
    requires i < |nodes|
    ensures EdgeTotal(nodes[..i + 1]) == EdgeTotal(nodes[..i]) + |nodes[i].edges|
    ensures EdgeTotal(nodes[..i + 1]) <= EdgeTotal(nodes)
    decreases |nodes|
  {
    var k := |nodes| - 1;
    if i < k {
      RoomForNext(nodes[..k], i);
      assert nodes[..k][..i + 1] == nodes[..i + 1] && nodes[..k][..i] == nodes[..i];
    } else {
      assert nodes[..i + 1] == nodes;
    }
  }

  lemma OneMoreList(head: Bytes, nodes: seq<FileNode>, i: nat)
    requires i < |nodes|
    ensures head + AllEdgeBytes(Records(nodes[..i])) + AllEdgeBytes(Outgoing(i, nodes[i].edges)) ==
            head + AllEdgeBytes(Records(nodes[..i + 1]))
  {
    hide EdgeBytes;
    hide AllEdgeBytes;
    hide Outgoing;
    assert nodes[..i + 1][..i] == nodes[..i];
    EdgeBytesJoin(Records(nodes[..i]), Outgoing(i, nodes[i].edges));
  }

  lemma {:induction false} EdgeBytesJoin(a: seq<EdgeRecord>, b: seq<EdgeRecord>)
    ensures AllEdgeBytes(a + b) == AllEdgeBytes(a) + AllEdgeBytes(b)
    decreases |b|
  {
    hide EdgeBytes;
    if b == [] {
      assert a + b == a;
    } else {
      assert (a + b)[..|a + b| - 1] == a + b[..|b| - 1];
      EdgeBytesJoin(a, b[..|b| - 1]);
    }
  }

  /** The whole body, up to the end of the buffer. */
  method PutRecords(buffer: array<bv8>, start: nat, nodes: seq<FileNode>) returns (p: nat)
    requires start + NODE_SIZE * |nodes| + EDGE_SIZE * EdgeTotal(nodes) == buffer.Length
    modifies buffer
    ensures p == buffer.Length
    ensures buffer[..start] == old(buffer[..start])
    ensures buffer[start..] == Body(nodes)
  {
    hide AllNodeBytes;
    hide AllEdgeBytes;
    hide Records;
    hide EdgeTotal;
    ghost var head := buffer[..start];
    p := PutNodes(buffer, start, nodes);
    p := PutAllEdges(buffer, p, nodes);
    ghost var all := buffer[..];
    assert all == buffer[..p] == head + (AllNodeBytes(nodes) + AllEdgeBytes(Records(nodes)));
    assert all[..start] == buffer[..start] && all[start..] == buffer[start..];
  }

  /** The buffer is sized by the edge counter and filled by the edge lists: with the counter right, exactly. */
  method Save(nodes: seq<FileNode>, edgeCount: nat) returns (buffer: array<bv8>)
    requires edgeCount == EdgeTotal(nodes)
    ensures fresh(buffer) && buffer[..] == Image(nodes)
  {
    hide Body;
    hide Fixed;
    hide EdgeTotal;
    hide Bits;
    hide Crc;
    ghost var body := Body(nodes);
    buffer := new bv8[HEADER + NODE_SIZE * |nodes| + EDGE_SIZE * edgeCount];
    var p := Put(buffer, 0, Fixed(|nodes|, edgeCount));
    var crcField := p;
    assert buffer[..crcField] == Fixed(|nodes|, edgeCount);
    p := p + 4;
    p := PutRecords(buffer, p, nodes);
    assert buffer[..crcField] == buffer[..HEADER][..crcField] == Fixed(|nodes|, edgeCount);
    var crc := GraphCrc32(buffer[HEADER..]);
    p := Put(buffer, crcField, Bits(crc));
    assert buffer[..] == buffer[..p] + buffer[p..] == Fixed(|nodes|, edgeCount) + Bits(crc) + body;
  }

  method Load(file: Bytes, limits: Limits) returns (r: Loaded)
    ensures r == LoadOf(file, limits)
  {
    hide NodeAt;
    hide EdgeAt;
    hide AddRecord;
    hide Crc;
    hide Read32;
    hide Read16;
    hide ReadBits;
    hide Build;
    hide NodesOf;
    hide RecordsOf;
    var checked := CheckHeader(file, limits);
    if checked.Rejected? {
      return Refused(checked.why);
    }
    var nodeCount, edgeCount := checked.nodeCount, checked.edgeCount;
    var body := file[HEADER..];
    var nodes := LoadNodes(body, nodeCount);
    r := LoadEdges(body, NODE_SIZE * nodeCount, nodes, edgeCount);
  }

  /** The checks ahead of the records, in their order. */
  method CheckHeader(file: Bytes, limits: Limits) returns (r: Header)
    ensures r == ReadHeader(file, limits)
  {
    hide Crc;
    hide Read32;
    hide Read16;
    hide ReadBits;
    if |file| == 0 { return Rejected(Missing); }
    if |file| < HEADER { return Rejected(TooSmall); }
    if file[..4] != MAGIC { return Rejected(BadMagic); }
    var version := Read16(file, 4);
    var nodeCount := Read32(file, 8);
    var edgeCount := Read32(file, 12);
    var fileCrc := ReadBits(file, 16);
    if version != VERSION { return Rejected(BadVersion); }
    if nodeCount > limits.maxNodes { return Rejected(TooManyNodes); }
    if edgeCount > (|file| - HEADER) / EDGE_SIZE { return Rejected(TooManyEdges); }
    if |file| != HEADER + NODE_SIZE * nodeCount + EDGE_SIZE * edgeCount { return Rejected(SizeMismatch); }
    var crc := GraphCrc32(file[HEADER..]);
    if crc != fileCrc { return Rejected(Corrupt); }
    if limits.graphs >= limits.maxGraphs { return Rejected(NoRoomForGraph); }
    return Counts(nodeCount, edgeCount);
  }

  method LoadNodes(body: Bytes, count: nat) returns (nodes: seq<FileNode>)
    requires NODE_SIZE * count <= |body|
    ensures nodes == NodesOf(body, count)
  {
    hide NodeAt;
    nodes := [];
    var p := 0;
    for i := 0 to count
      invariant p == NODE_SIZE * i
      invariant nodes == NodesOf(body, i)
    {
      nodes := nodes + [NodeAt(body, p)];
      p := p + NODE_SIZE;
    }
  }

  /** Each record is checked before it is used; the first bad one ends the load with no graph. */
  method LoadEdges(body: Bytes, start: nat, blank: seq<FileNode>, count: nat) returns (r: Loaded)
    requires start + EDGE_SIZE * count <= |body|
    ensures r == Build(blank, RecordsOf(body, start, count))
  {
    hide EdgeAt;
    hide Build;
    hide RecordsOf;
    var nodes := blank;
    var edgeCount := 0;
    var p := start;
    NoRecords(blank, body, start);
    for e := 0 to count
      invariant p == start + EDGE_SIZE * e
      invariant Build(blank, RecordsOf(body, start, e)) == Loaded(nodes, edgeCount)
      invariant edgeCount == e
    {
      var record := EdgeAt(body, p);
      p := p + EDGE_SIZE;
      BuildStep(blank, body, start, e);
      if record.from >= |nodes| || record.edge.to >= |nodes| {
        RefusalStays(blank, body, start, e + 1, count);
        return Refused(EdgeOutOfRange(e));
      }
      if nodes[record.from].removed || nodes[record.edge.to].removed {
        RefusalStays(blank, body, start, e + 1, count);
        return Refused(EdgeTouchesRemoved(e));
      }
      nodes := SetEdges(nodes, record.from, nodes[record.from].edges + [record.edge]);
      edgeCount := edgeCount + 1;
    }
    r := Loaded(nodes, edgeCount);
  }

  lemma NoRecords(blank: seq<FileNode>, body: Bytes, start: nat)
    requires start <= |body|
    ensures Build(blank, RecordsOf(body, start, 0)) == Loaded(blank, 0)
  {
  }

  lemma BuildStep(blank: seq<FileNode>, body: Bytes, start: nat, e: nat)
    requires start + EDGE_SIZE * (e + 1) <= |body|
    requires Build(blank, RecordsOf(body, start, e)).Loaded?
    ensures Build(blank, RecordsOf(body, start, e + 1)) ==
            AddRecord(Build(blank, RecordsOf(body, start, e)).nodes, EdgeAt(body, start + EDGE_SIZE * e), e)
  {
    hide EdgeAt;
    hide AddRecord;
    var records := RecordsOf(body, start, e + 1);
    assert records[..e] == RecordsOf(body, start, e);
  }

  lemma {:induction false} RefusalStays(blank: seq<FileNode>, body: Bytes, start: nat, e: nat, count: nat)
    requires e <= count && start + EDGE_SIZE * count <= |body|
    requires Build(blank, RecordsOf(body, start, e)).Refused?
    ensures Build(blank, RecordsOf(body, start, count)) == Build(blank, RecordsOf(body, start, e))
    decreases count
  {
    hide EdgeAt;
    hide AddRecord;
    if e < count {
      RefusalStays(blank, body, start, e, count - 1);
      var records := RecordsOf(body, start, count);
      assert records[..count - 1] == RecordsOf(body, start, count - 1);
    }
  }

  // ---- what is saved is what is loaded -------------------------------------------------

  function Blanks(nodes: seq<FileNode>): (r: seq<FileNode>)
    ensures |r| == |nodes|
    ensures forall i :: 0 <= i < |r| ==> r[i] == Blank(nodes[i])
  {
    if nodes == [] then [] else Blanks(nodes[..|nodes| - 1]) + [Blank(nodes[|nodes| - 1])]
  }

  lemma {:induction false} NodesReadBack(nodes: seq<FileNode>, body: Bytes)
    requires NODE_SIZE * |nodes| <= |body| && body[..NODE_SIZE * |nodes|] == AllNodeBytes(nodes)
    ensures NodesOf(body, |nodes|) == Blanks(nodes)
    decreases |nodes|
  {
    hide NodeBytes;
    hide NodeAt;
    if nodes != [] {
      var k := |nodes| - 1;
      var p := NODE_SIZE * k;
      assert body[0..p + NODE_SIZE] == AllNodeBytes(nodes[..k]) + NodeBytes(nodes[k]);
      Cut(body, 0, AllNodeBytes(nodes[..k]), NodeBytes(nodes[k]), p + NODE_SIZE);
      NodesReadBack(nodes[..k], body);
      NodeAtReadsBack(nodes[k], body, p);
    }
  }

  lemma {:induction false} RecordsReadBack(records: seq<EdgeRecord>, body: Bytes, start: nat)
    requires forall i :: 0 <= i < |records| ==> records[i].from < WORD_LIMIT && records[i].edge.to < WORD_LIMIT
    requires start + EDGE_SIZE * |records| <= |body|
    requires body[start..start + EDGE_SIZE * |records|] == AllEdgeBytes(records)
    ensures RecordsOf(body, start, |records|) == records
    decreases |records|
  {
    hide EdgeBytes;
    hide EdgeAt;
    if records != [] {
      var k := |records| - 1;
      Cut(body, start, AllEdgeBytes(records[..k]), EdgeBytes(records[k]), EDGE_SIZE * k + EDGE_SIZE);
      RecordsReadBack(records[..k], body, start);
      EdgeAtReadsBack(records[k], body, start + EDGE_SIZE * k);
    }
  }

  /** The ends of all records are node ids. */
  lemma {:induction false} RecordEnds(nodes: seq<FileNode>, n: nat)
    requires |nodes| <= n
    requires forall u, i :: 0 <= u < |nodes| && 0 <= i < |nodes[u].edges| ==> nodes[u].edges[i].to < n
    ensures forall i :: 0 <= i < |Records(nodes)| ==> Records(nodes)[i].from < n && Records(nodes)[i].edge.to < n
    decreases |nodes|
  {
    if nodes != [] {
      var k := |nodes| - 1;
      RecordEnds(nodes[..k], n);
      OutgoingAt(k, nodes[k].edges);
    }
  }

  lemma {:induction false} OutgoingAt(u: nat, edges: seq<FileEdge>)
    ensures forall i :: 0 <= i < |edges| ==> Outgoing(u, edges)[i] == EdgeRecord(u, edges[i])
    decreases |edges|
  {
    if edges != [] {
      OutgoingAt(u, edges[..|edges| - 1]);
    }
  }

  /** Node i after the records of the nodes before u and of k edges of u. */
  function StagedNode(nodes: seq<FileNode>, u: nat, k: nat, i: nat): FileNode
    requires i < |nodes| && u <= |nodes| && (if u < |nodes| then k <= |nodes[u].edges| else k == 0)
  {
    if i < u then nodes[i] else if i == u then nodes[i].(edges := nodes[i].edges[..k]) else Blank(nodes[i])
  }

  function Stage(nodes: seq<FileNode>, u: nat, k: nat): seq<FileNode>
    requires u <= |nodes| && (if u < |nodes| then k <= |nodes[u].edges| else k == 0)
  {
    seq(|nodes|, i requires 0 <= i < |nodes| => StagedNode(nodes, u, k, i))
  }

  lemma {:induction false} BuildNodes(nodes: seq<FileNode>, u: nat)
    requires Consistent(nodes) && u <= |nodes|
    ensures Build(Blanks(nodes), Records(nodes[..u])) == Loaded(Stage(nodes, u, 0), EdgeTotal(nodes[..u]))
    decreases u, 0, 0
  {
    hide Build;
    hide Consistent;
    if u == 0 {
      NothingBuilt(nodes);
    } else {
      BuildEdges(nodes, u - 1, |nodes[u - 1].edges|);
      StageEnds(nodes, u);
    }
  }

  lemma NothingBuilt(nodes: seq<FileNode>)
    ensures Build(Blanks(nodes), Records(nodes[..0])) == Loaded(Stage(nodes, 0, 0), EdgeTotal(nodes[..0]))
  {
    assert nodes[..0] == [];
    assert Blanks(nodes) == Stage(nodes, 0, 0) by {
      forall i | 0 <= i < |nodes| ensures Blank(nodes[i]) == StagedNode(nodes, 0, 0, i) {
      }
    }
  }

  lemma StageEnds(nodes: seq<FileNode>, u: nat)
    requires 0 < u <= |nodes|
    ensures nodes[..u][..u - 1] == nodes[..u - 1]
    ensures nodes[u - 1].edges[..|nodes[u - 1].edges|] == nodes[u - 1].edges
    ensures Stage(nodes, u - 1, |nodes[u - 1].edges|) == Stage(nodes, u, 0)
  {
    var edges := nodes[u - 1].edges;
    assert edges[..|edges|] == edges;
  }

  lemma {:induction false} BuildEdges(nodes: seq<FileNode>, u: nat, k: nat)
    requires Consistent(nodes) && u < |nodes| && k <= |nodes[u].edges|
    ensures Build(Blanks(nodes), Records(nodes[..u]) + Outgoing(u, nodes[u].edges[..k])) ==
            Loaded(Stage(nodes, u, k), EdgeTotal(nodes[..u]) + k)
    decreases u, 1, k
  {
    hide Build;
    hide Records;
    hide Outgoing;
    hide AddRecord;
    hide Consistent;
    hide Stage;
    if k == 0 {
      BuildNodes(nodes, u);
      NoneOutgoing(nodes, u);
    } else {
      BuildEdges(nodes, u, k - 1);
      OutgoingGrows(u, nodes[u].edges, k);
      BuildAppend(Blanks(nodes), Records(nodes[..u]), Outgoing(u, nodes[u].edges[..k - 1]),
          EdgeRecord(u, nodes[u].edges[k - 1]));
      StageGrows(nodes, u, k);
    }
  }

  lemma NoneOutgoing(nodes: seq<FileNode>, u: nat)
    requires u < |nodes|
    ensures Records(nodes[..u]) + Outgoing(u, nodes[u].edges[..0]) == Records(nodes[..u])
  {
    hide Records;
  }

  lemma OutgoingGrows(u: nat, edges: seq<FileEdge>, k: nat)
    requires 0 < k <= |edges|
    ensures Outgoing(u, edges[..k]) == Outgoing(u, edges[..k - 1]) + [EdgeRecord(u, edges[k - 1])]
  {
    assert edges[..k][..k - 1] == edges[..k - 1];
  }

  lemma BuildAppend(blank: seq<FileNode>, first: seq<EdgeRecord>, more: seq<EdgeRecord>, r: EdgeRecord)
    requires Build(blank, first + more).Loaded?
    ensures Build(blank, first + (more + [r])) == AddRecord(Build(blank, first + more).nodes, r, |first| + |more|)
  {
    hide AddRecord;
    var all := first + (more + [r]);
    assert all[..|all| - 1] == first + more;
  }

  lemma StageGrows(nodes: seq<FileNode>, u: nat, k: nat)
    requires Consistent(nodes) && u < |nodes| && 0 < k <= |nodes[u].edges|
    ensures AddRecord(Stage(nodes, u, k - 1), EdgeRecord(u, nodes[u].edges[k - 1]), EdgeTotal(nodes[..u]) + k - 1) ==
            Loaded(Stage(nodes, u, k), EdgeTotal(nodes[..u]) + k)
  {
    var s, t := Stage(nodes, u, k - 1), Stage(nodes, u, k);
    var e := nodes[u].edges[k - 1];
    assert LiveEdge(nodes, u, k - 1);
    assert s[u].removed == nodes[u].removed && s[e.to].removed == nodes[e.to].removed;
    assert s[u].edges + [e] == nodes[u].edges[..k];
    assert SetEdges(s, u, s[u].edges + [e]) == t;
  }

  /** Where the header fields of a file are. */
  lemma HeaderFields(nodeCount: nat, edgeCount: nat, checksum: bv32, body: Bytes)
    requires nodeCount < WORD_LIMIT && edgeCount < WORD_LIMIT
    ensures var f := File(nodeCount, edgeCount, checksum, body);
            && f[..4] == MAGIC && Read16(f, 4) == VERSION
            && Read32(f, 8) == nodeCount && Read32(f, 12) == edgeCount && ReadBits(f, 16) == checksum
  {
    hide Word32;
    hide Read32;
    hide Bits;
    hide ReadBits;
    hide Read16;
    hide File;
    var f := File(nodeCount, edgeCount, checksum, body);
    HeaderParts(nodeCount, edgeCount, checksum, body);
    Read32Word(nodeCount, f, 8);
    Read32Word(edgeCount, f, 12);
    ReadBitsBits(checksum, f, 16);
    ReadVersion(f);
  }

  lemma HeaderParts(nodeCount: nat, edgeCount: nat, checksum: bv32, body: Bytes)
    ensures var f := File(nodeCount, edgeCount, checksum, body);
            && f[..4] == MAGIC && f[4..8] == Word16(VERSION) + Word16(0)
            && f[8..12] == Word32(nodeCount) && f[12..16] == Word32(edgeCount) && f[16..20] == Bits(checksum)
  {
    hide Word32;
    hide Word16;
    hide Bits;
    var f := File(nodeCount, edgeCount, checksum, body);
    var second := Word16(VERSION) + Word16(0);
    assert f[0..20] == MAGIC + second + Word32(nodeCount) + Word32(edgeCount) + Bits(checksum);
    Fields(f, 0, 20, MAGIC, second, Word32(nodeCount), Word32(edgeCount), Bits(checksum));
  }

  lemma ReadVersion(f: Bytes)
    requires |f| >= 8 && f[4..8] == Word16(VERSION) + Word16(0)
    ensures Read16(f, 4) == VERSION
  {
    hide Digit;
    assert f[4] == f[4..8][0] && f[5] == f[4..8][1];
    DigitReads(VERSION, 1);
    DigitReads(VERSION, 256);
  }

  /** A file with a right checksum and counts that fit its size is opened. */
  lemma HeaderAccepted(nodeCount: nat, edgeCount: nat, body: Bytes, limits: Limits)
    requires |body| == NODE_SIZE * nodeCount + EDGE_SIZE * edgeCount && HEADER + |body| < FILE_LIMIT
    requires nodeCount <= limits.maxNodes && limits.graphs < limits.maxGraphs
    ensures ReadHeader(File(nodeCount, edgeCount, Crc(body).bits, body), limits) == Counts(nodeCount, edgeCount)
  {
    hide Word32;
    hide Read32;
    hide Read16;
    hide Bits;
    hide ReadBits;
    hide Crc;
    hide File;
    HeaderFields(nodeCount, edgeCount, Crc(body).bits, body);
  }

  /** Within the limits of the server and of a file, loading what was saved rebuilds the graph. */
  lemma SaveThenLoad(nodes: seq<FileNode>, limits: Limits)
    requires Consistent(nodes)
    requires |nodes| <= limits.maxNodes && limits.graphs < limits.maxGraphs
    requires |Image(nodes)| < FILE_LIMIT
    ensures LoadOf(Image(nodes), limits) == Loaded(nodes, EdgeTotal(nodes))
  {
    hide File;
    hide Crc;
    hide ReadHeader;
    hide Build;
    var n, e, body := |nodes|, EdgeTotal(nodes), Body(nodes);
    HeaderAccepted(n, e, body, limits);
    BodyReadsBack(nodes);
    BuildNodes(nodes, n);
    assert nodes[..n] == nodes;
    assert Stage(nodes, n, 0) == nodes;
  }

  lemma BodyReadsBack(nodes: seq<FileNode>)
    requires TargetsInRange(nodes) && |nodes| < WORD_LIMIT
    ensures NodesOf(Body(nodes), |nodes|) == Blanks(nodes)
    ensures RecordsOf(Body(nodes), NODE_SIZE * |nodes|, EdgeTotal(nodes)) == Records(nodes)
  {
    hide AllNodeBytes;
    hide AllEdgeBytes;
    hide Records;
    hide NodesOf;
    hide RecordsOf;
    hide Blanks;
    hide TargetsInRange;
    hide EdgeTotal;
    BodyParts(nodes);
    NodesReadBack(nodes, Body(nodes));
    RecordsReach(nodes);
    RecordsReadBack(Records(nodes), Body(nodes), NODE_SIZE * |nodes|);
  }

  lemma RecordsReach(nodes: seq<FileNode>)
    requires TargetsInRange(nodes) && |nodes| < WORD_LIMIT
    ensures forall i :: 0 <= i < |Records(nodes)| ==>
        Records(nodes)[i].from < WORD_LIMIT && Records(nodes)[i].edge.to < WORD_LIMIT
  {
    hide Records;
    hide EdgeTotal;
    RecordEnds(nodes, |nodes|);
  }

  lemma BodyParts(nodes: seq<FileNode>)
    ensures Body(nodes)[..NODE_SIZE * |nodes|] == AllNodeBytes(nodes)
    ensures Body(nodes)[NODE_SIZE * |nodes|..NODE_SIZE * |nodes| + EDGE_SIZE * EdgeTotal(nodes)] ==
        AllEdgeBytes(Records(nodes))
  {
    hide AllNodeBytes;
    hide AllEdgeBytes;
    hide Records;
    hide EdgeTotal;
  }

  // ---- graphs over other numbers ---------------------------------------------------------

  function Recoded<A, B>(n: Node<A>, f: A -> B): Node<B> {
    Node(Vec(f(n.origin.x), f(n.origin.y), f(n.origin.z)), n.ty, n.removed,
         seq(|n.edges|, i requires 0 <= i < |n.edges| => Edge(n.edges[i].to, n.edges[i].ty, f(n.edges[i].cost))))
  }

  function RecodedAll<A, B>(nodes: seq<Node<A>>, f: A -> B): seq<Node<B>> {
    seq(|nodes|, u requires 0 <= u < |nodes| => Recoded(nodes[u], f))
  }

  lemma RecodedIsConsistent<A, B>(nodes: seq<Node<A>>, f: A -> B)
    requires Consistent(nodes)
    ensures Consistent(RecodedAll(nodes, f))
  {
    var r := RecodedAll(nodes, f);
    forall u, i | 0 <= u < |r| && 0 <= i < |r[u].edges| ensures r[u].edges[i].to < |r| {
      assert LiveEdge(nodes, u, i);
    }
    forall u, i {:trigger LiveEdge(r, u, i)} | 0 <= u < |r| && 0 <= i < |r[u].edges| ensures LiveEdge(r, u, i) {
      assert LiveEdge(nodes, u, i);
    }
  }

  lemma RecodedBack<A, B>(n: Node<A>, f: A -> B, g: B -> A)
    requires forall x :: g(f(x)) == x
    ensures Recoded(Recoded(n, f), g) == n
  {
    var edges := Recoded(Recoded(n, f), g).edges;
    forall i | 0 <= i < |edges| ensures edges[i] == n.edges[i] {
    }
    assert edges == n.edges;
  }

  /** A graph whose numbers have 32-bit patterns that determine them comes back from its file as it was. */
  lemma AnyGraphComesBack<A>(nodes: seq<Node<A>>, pattern: A -> bv32, meaning: bv32 -> A, limits: Limits)
    requires forall x :: meaning(pattern(x)) == x
    requires Consistent(nodes)
    requires |nodes| <= limits.maxNodes && limits.graphs < limits.maxGraphs
    requires |Image(RecodedAll(nodes, pattern))| < FILE_LIMIT
    ensures var r := LoadOf(Image(RecodedAll(nodes, pattern)), limits);
            r.Loaded? && RecodedAll(r.nodes, meaning) == nodes
  {
    hide Recoded;
    hide LoadOf;
    hide Image;
    hide Consistent;
    var stored := RecodedAll(nodes, pattern);
    RecodedIsConsistent(nodes, pattern);
    SaveThenLoad(stored, limits);
    forall u | 0 <= u < |nodes| ensures Recoded(stored[u], meaning) == nodes[u] {
      RecodedBack(nodes[u], pattern, meaning);
    }
    assert RecodedAll(stored, meaning) == nodes;
  }

  // ---- what a load accepts ---------------------------------------------------------------

  /** The edges the records give node u, in file order. */
  function EdgesFrom(records: seq<EdgeRecord>, u: nat): seq<FileEdge> {
    if records == [] then []
    else
      var r := records[|records| - 1];
      EdgesFrom(records[..|records| - 1], u) + if r.from == u then [r.edge] else []
  }

  predicate BadRecord(blank: seq<FileNode>, r: EdgeRecord) {
    r.from >= |blank| || r.edge.to >= |blank| || blank[r.from].removed || blank[r.edge.to].removed
  }

  ghost predicate NodeBuilt(blank: seq<FileNode>, records: seq<EdgeRecord>, nodes: seq<FileNode>, u: nat)
    requires u < |nodes| == |blank|
  {
    nodes[u] == blank[u].(edges := EdgesFrom(records, u))
  }

  /** A load gives every node the edges the file lists for it, and fails exactly when some record is bad. */
  lemma {:induction false} BuildCollects(blank: seq<FileNode>, records: seq<EdgeRecord>)
    requires forall i :: 0 <= i < |blank| ==> blank[i].edges == []
    ensures Build(blank, records).Loaded? <==> forall k :: 0 <= k < |records| ==> !BadRecord(blank, records[k])
    ensures var r := Build(blank, records);
            r.Loaded? ==> |r.nodes| == |blank| && r.edgeCount == |records|
    ensures var r := Build(blank, records);
            r.Loaded? ==> forall u {:trigger NodeBuilt(blank, records, r.nodes, u)} :: 0 <= u < |blank| ==>
                NodeBuilt(blank, records, r.nodes, u)
    decreases |records|
  {
    if records != [] {
      var front, last := records[..|records| - 1], records[|records| - 1];
      BuildCollects(blank, front);
      var before := Build(blank, front);
      if before.Loaded? {
        if last.from < |blank| && last.edge.to < |blank| {
          assert NodeBuilt(blank, front, before.nodes, last.from)
              && NodeBuilt(blank, front, before.nodes, last.edge.to);
        }
        var r := Build(blank, records);
        if r.Loaded? {
          forall u {:trigger NodeBuilt(blank, records, r.nodes, u)} | 0 <= u < |blank|
            ensures NodeBuilt(blank, records, r.nodes, u) {
            assert NodeBuilt(blank, front, before.nodes, u);
          }
        }
      }
    }
  }

  ghost predicate FirstBad(blank: seq<FileNode>, records: seq<EdgeRecord>, k: nat) {
    k < |records| && BadRecord(blank, records[k]) && forall j :: 0 <= j < k ==> !BadRecord(blank, records[j])
  }

  function Complaint(blank: seq<FileNode>, r: EdgeRecord, k: nat): LoadError {
    if r.from >= |blank| || r.edge.to >= |blank| then EdgeOutOfRange(k) else EdgeTouchesRemoved(k)
  }

  /** A refusal names the first bad record. */
  lemma {:induction false} BuildNamesFirstBad(blank: seq<FileNode>, records: seq<EdgeRecord>, k: nat)
    requires forall i :: 0 <= i < |blank| ==> blank[i].edges == []
    requires FirstBad(blank, records, k)
    ensures Build(blank, records) == Refused(Complaint(blank, records[k], k))
    decreases |records|
  {
    var front, last := records[..|records| - 1], records[|records| - 1];
    BuildCollects(blank, front);
    if k < |front| {
      assert FirstBad(blank, front, k);
      BuildNamesFirstBad(blank, front, k);
    } else if last.from < |blank| && last.edge.to < |blank| {
      var before := Build(blank, front);
      assert NodeBuilt(blank, front, before.nodes, last.from) && NodeBuilt(blank, front, before.nodes, last.edge.to);
    }
  }

  lemma {:induction false} BuildIsConsistent(blank: seq<FileNode>, records: seq<EdgeRecord>)
    requires forall i :: 0 <= i < |blank| ==> blank[i].edges == []
    requires Build(blank, records).Loaded?
    ensures Consistent(Build(blank, records).nodes)
    ensures EdgeTotal(Build(blank, records).nodes) == Build(blank, records).edgeCount
    decreases |records|
  {
    if records == [] {
      NoEdges(blank);
    } else {
      var front, last := records[..|records| - 1], records[|records| - 1];
      BuildIsConsistent(blank, front);
      BuildCollects(blank, front);
      var nodes := Build(blank, front).nodes;
      AddEdgeKeeps(nodes, last.from, last.edge);
      SetEdgesCounts(nodes, last.from, nodes[last.from].edges + [last.edge]);
    }
  }

  lemma {:induction false} NoEdges(nodes: seq<FileNode>)
    requires forall i :: 0 <= i < |nodes| ==> nodes[i].edges == []
    ensures EdgeTotal(nodes) == 0
    decreases |nodes|
  {
    if nodes != [] {
      NoEdges(nodes[..|nodes| - 1]);
    }
  }

  lemma {:induction false} NodesOfAreBlank(body: Bytes, n: nat)
    requires NODE_SIZE * n <= |body|
    ensures forall i :: 0 <= i < n ==> NodesOf(body, n)[i].edges == []
    decreases n
  {
    if n > 0 {
      NodesOfAreBlank(body, n - 1);
    }
  }

  /** Whatever the bytes, a loaded graph is consistent, counts its edges right and is within the cap. */
  lemma LoadedIsConsistent(file: Bytes, limits: Limits)
    requires LoadOf(file, limits).Loaded?
    ensures Consistent(LoadOf(file, limits).nodes)
    ensures EdgeTotal(LoadOf(file, limits).nodes) == LoadOf(file, limits).edgeCount
    ensures |LoadOf(file, limits).nodes| <= limits.maxNodes
  {
    hide Build;
    hide NodesOf;
    hide RecordsOf;
    hide Read32;
    hide Crc;
    var h, body := ReadHeader(file, limits), file[HEADER..];
    NodesOfAreBlank(body, h.nodeCount);
    var blank, records := NodesOf(body, h.nodeCount), RecordsOf(body, NODE_SIZE * h.nodeCount, h.edgeCount);
    BuildCollects(blank, records);
    BuildIsConsistent(blank, records);
  }

  // ---- corruption ------------------------------------------------------------------------

  /** Equal but for at most four consecutive bytes, all of them in the body. */
  predicate BurstInBody(a: Bytes, b: Bytes, at: nat, width: nat) {
    && |a| == |b| && HEADER <= at && width <= 4 && at + width <= |a|
    && a[..at] == b[..at] && a[at + width..] == b[at + width..]
  }

  lemma BurstChangesBody(a: Bytes, b: Bytes, at: nat, width: nat)
    requires BurstInBody(a, b, at, width) && a != b
    ensures Crc(a[HEADER..]) != Crc(b[HEADER..])
  {
    hide Crc;
    var front, back := a[HEADER..at], a[at + width..];
    var v, w := a[at..at + width], b[at..at + width];
    assert b[HEADER..at] == b[..at][HEADER..] == front;
    assert a == a[..at] + v + back && b == a[..at] + w + back;
    assert a[HEADER..] == front + v + back && b[HEADER..] == front + w + back;
    BurstChangesCrc(front, v, w, back);
  }

  /** Any change confined to four consecutive body bytes of a loadable file makes it corrupt. */
  lemma BurstIsRefused(file: Bytes, damaged: Bytes, at: nat, width: nat, limits: Limits)
    requires LoadOf(file, limits).Loaded?
    requires BurstInBody(file, damaged, at, width) && damaged != file
    ensures LoadOf(damaged, limits) == Refused(Corrupt)
  {
    hide Crc;
    hide Build;
    hide Read32;
    hide Read16;
    hide ReadBits;
    hide BurstInBody;
    BurstChangesBody(file, damaged, at, width);
    BurstSparesHeader(file, damaged, at, width);
    SameHeaders(file, damaged);
    SameField(file, damaged, 20, 16);
  }

  lemma BurstSparesHeader(a: Bytes, b: Bytes, at: nat, width: nat)
    requires BurstInBody(a, b, at, width)
    ensures |a| == |b| >= HEADER && a[..HEADER] == b[..HEADER] && a[..16] == b[..16]
  {
    assert a[..HEADER] == a[..at][..HEADER] == b[..HEADER];
    assert a[..16] == a[..at][..16] == b[..16];
  }

  lemma SameHeaders(a: Bytes, b: Bytes)
    requires |a| == |b| >= HEADER && a[..16] == b[..16]
    ensures a[..4] == b[..4] && Read16(a, 4) == Read16(b, 4)
    ensures Read32(a, 8) == Read32(b, 8) && Read32(a, 12) == Read32(b, 12)
  {
    hide Read32;
    assert a[..4] == a[..16][..4] == b[..4];
    assert a[4] == a[..16][4] && b[4] == b[..16][4] && a[5] == a[..16][5] && b[5] == b[..16][5];
    SameField(a, b, 16, 8);
    SameField(a, b, 16, 12);
  }

  lemma SameField(a: Bytes, b: Bytes, n: nat, p: nat)
    requires p + 4 <= n && n <= |a| && n <= |b| && a[..n] == b[..n]
    ensures Read32(a, p) == Read32(b, p) && ReadBits(a, p) == ReadBits(b, p)
  {
    forall i | 0 <= i < n ensures a[i] == b[i] {
      assert a[i] == a[..n][i] && b[i] == b[..n][i];
    }
  }

  /** A changed checksum field is refused as well. */
  lemma ChecksumIsChecked(file: Bytes, damaged: Bytes, limits: Limits)
    requires LoadOf(file, limits).Loaded?
    requires |damaged| == |file| && damaged[..16] == file[..16] && damaged[HEADER..] == file[HEADER..]
    requires ReadBits(damaged, 16) != ReadBits(file, 16)
    ensures LoadOf(damaged, limits) == Refused(Corrupt)
  {
    hide Crc;
    hide Build;
    hide Read32;
    hide Read16;
    hide ReadBits;
    SameHeaders(file, damaged);
  }

  // ---- a damaged header ------------------------------------------------------------------

  /** The body is n nodes and e edge records, none of them bad. */
  ghost predicate Splits(body: Bytes, n: nat, e: nat) {
    && |body| == NODE_SIZE * n + EDGE_SIZE * e
    && forall k :: 0 <= k < e ==> !BadRecord(NodesOf(body, n), RecordsOf(body, NODE_SIZE * n, e)[k])
  }

  /** A file is loaded exactly when its header is right and its body splits as the counts say. */
  lemma LoadsExactly(file: Bytes, limits: Limits)
    ensures LoadOf(file, limits).Loaded? <==>
      && |file| >= HEADER && file[..4] == MAGIC && Read16(file, 4) == VERSION
      && Read32(file, 8) <= limits.maxNodes
      && Splits(file[HEADER..], Read32(file, 8), Read32(file, 12))
      && Crc(file[HEADER..]).bits == ReadBits(file, 16)
      && limits.graphs < limits.maxGraphs
  {
    hide Build;
    hide NodesOf;
    hide RecordsOf;
    hide BadRecord;
    hide Crc;
    hide Read16;
    hide Read32;
    hide ReadBits;
    if |file| >= HEADER && |file| == HEADER + NODE_SIZE * Read32(file, 8) + EDGE_SIZE * Read32(file, 12) {
      var body, n, e := file[HEADER..], Read32(file, 8), Read32(file, 12);
      NodesOfAreBlank(body, n);
      BuildCollects(NodesOf(body, n), RecordsOf(body, NODE_SIZE * n, e));
    }
  }

  /**
   A loadable file whose header alone was changed still loads exactly when magic, version
   and checksum are as they were and the body splits at the changed counts: whichever
   bytes of the header were changed, and nothing else in it is looked at.
   */
  lemma HeaderDamageExactly(file: Bytes, damaged: Bytes, limits: Limits)
    requires LoadOf(file, limits).Loaded?
    requires |damaged| == |file| && damaged[HEADER..] == file[HEADER..]
    ensures var n, e := Read32(damaged, 8), Read32(damaged, 12);
            LoadOf(damaged, limits).Loaded? <==>
              && damaged[..4] == file[..4] && Read16(damaged, 4) == Read16(file, 4)
              && ReadBits(damaged, 16) == ReadBits(file, 16)
              && n <= limits.maxNodes && Splits(file[HEADER..], n, e)
  {
    hide LoadOf;
    hide Splits;
    hide Crc;
    hide Read16;
    hide Read32;
    hide ReadBits;
    LoadsExactly(file, limits);
    LoadsExactly(damaged, limits);
  }

  /** With only the counts changed: what gets through is a split of the same body into other records. */
  lemma CountDamageExactly(file: Bytes, damaged: Bytes, limits: Limits)
    requires LoadOf(file, limits).Loaded?
    requires |damaged| == |file| && damaged[..8] == file[..8] && damaged[16..] == file[16..]
    ensures var n, e := Read32(damaged, 8), Read32(damaged, 12);
            LoadOf(damaged, limits).Loaded? <==> n <= limits.maxNodes && Splits(file[HEADER..], n, e)
  {
    hide LoadOf;
    hide Splits;
    hide Read32;
    hide ReadBits;
    LoadsExactly(file, limits);
    AroundTheCounts(file, damaged);
    HeaderDamageExactly(file, damaged, limits);
  }

  lemma AroundTheCounts(file: Bytes, damaged: Bytes)
    requires |file| == |damaged| >= HEADER && damaged[..8] == file[..8] && damaged[16..] == file[16..]
    ensures damaged[..4] == file[..4] && Read16(damaged, 4) == Read16(file, 4)
    ensures ReadBits(damaged, 16) == ReadBits(file, 16) && damaged[HEADER..] == file[HEADER..]
  {
    hide ReadBits;
    SameFront(file, damaged, 8);
    SameTail(file, damaged, 16);
    SameWord(file, damaged, 16);
  }

  lemma SameFront(a: Bytes, b: Bytes, n: nat)
    requires |a| == |b| >= n >= 6 && a[..n] == b[..n]
    ensures a[..4] == b[..4] && Read16(a, 4) == Read16(b, 4)
  {
    assert a[..4] == a[..n][..4] == b[..4];
    assert a[4] == a[..n][4] && b[4] == b[..n][4];
    assert a[5] == a[..n][5] && b[5] == b[..n][5];
  }

  lemma SameTail(a: Bytes, b: Bytes, n: nat)
    requires |a| == |b| >= HEADER >= n && a[n..] == b[n..]
    ensures a[HEADER..] == b[HEADER..]
    ensures forall i :: n <= i < |a| ==> a[i] == b[i]
  {
    assert a[HEADER..] == a[n..][HEADER - n..] == b[HEADER..];
    forall i | n <= i < |a| ensures a[i] == b[i] {
      assert a[i] == a[n..][i - n] && b[i] == b[n..][i - n];
    }
  }

  lemma SameWord(a: Bytes, b: Bytes, p: nat)
    requires |a| == |b| >= p + 4
    requires a[p] == b[p] && a[p + 1] == b[p + 1] && a[p + 2] == b[p + 2] && a[p + 3] == b[p + 3]
    ensures Read32(a, p) == Read32(b, p) && ReadBits(a, p) == ReadBits(b, p)
  {
  }

  /** A change of one count alone never gets through: the size no longer fits. */
  lemma OneCountIsChecked(file: Bytes, damaged: Bytes, limits: Limits)
    requires LoadOf(file, limits).Loaded?
    requires |damaged| == |file| && damaged[..8] == file[..8] && damaged[16..] == file[16..]
    requires (Read32(damaged, 8) == Read32(file, 8)) != (Read32(damaged, 12) == Read32(file, 12))
    ensures LoadOf(damaged, limits).Refused?
  {
    hide LoadOf;
    hide Read32;
    LoadsExactly(file, limits);
    CountDamageExactly(file, damaged, limits);
    assert |file[HEADER..]| == NODE_SIZE * Read32(file, 8) + EDGE_SIZE * Read32(file, 12);
  }

  /** A wrong magic or version is refused as such, whatever the rest. */
  lemma MagicAndVersionAreChecked(file: Bytes, limits: Limits)
    requires |file| >= HEADER
    ensures file[..4] != MAGIC ==> LoadOf(file, limits) == Refused(BadMagic)
    ensures file[..4] == MAGIC && Read16(file, 4) != VERSION ==> LoadOf(file, limits) == Refused(BadVersion)
  {
    hide Read16;
    hide Build;
  }

  /** The flag bytes are never read. */
  lemma FlagsAreIgnored(file: Bytes, other: Bytes, limits: Limits)
    requires |file| == |other| >= HEADER && other[..6] == file[..6] && other[8..] == file[8..]
    ensures LoadOf(other, limits) == LoadOf(file, limits)
  {
    hide Crc;
    hide Build;
    hide Read16;
    hide Read32;
    hide ReadBits;
    SameFront(file, other, 6);
    SameTail(file, other, 8);
    SameWord(file, other, 8);
    SameWord(file, other, 12);
    SameWord(file, other, 16);
  }

  function Zeros(n: nat): (r: Bytes)
    ensures |r| == n && forall i :: 0 <= i < n ==> r[i] == 0
  {
    seq(n, i => 0)
  }

  /** Such a split: with the counts 8 and 0 replaced by 4 and 5 a body of zeros still loads, as another graph. */
  lemma CountsAreOutsideTheChecksum(limits: Limits)
    requires limits.maxNodes >= 8 && limits.graphs < limits.maxGraphs
    ensures var body := Zeros(160);
            var crc := Crc(body).bits;
            && LoadOf(File(8, 0, crc, body), limits).Loaded?
            && LoadOf(File(4, 5, crc, body), limits).Loaded?
            && LoadOf(File(8, 0, crc, body), limits) != LoadOf(File(4, 5, crc, body), limits)
  {
    hide Crc;
    hide File;
    hide LoadOf;
    ZeroFileLoads(8, 0, limits);
    ZeroFileLoads(4, 5, limits);
  }

  /** A body of zeros: n live nodes and e edges from the first to itself. */
  lemma ZeroFileLoads(n: nat, e: nat, limits: Limits)
    requires 0 < n <= limits.maxNodes && limits.graphs < limits.maxGraphs
        && HEADER + NODE_SIZE * n + EDGE_SIZE * e < FILE_LIMIT
    ensures var body := Zeros(NODE_SIZE * n + EDGE_SIZE * e);
            var r := LoadOf(File(n, e, Crc(body).bits, body), limits);
            r.Loaded? && |r.nodes| == n
  {
    hide Crc;
    hide File;
    hide Build;
    hide ReadHeader;
    hide NodesOf;
    hide RecordsOf;
    hide BadRecord;
    var body := Zeros(NODE_SIZE * n + EDGE_SIZE * e);
    HeaderAccepted(n, e, body, limits);
    NodesOfAreBlank(body, n);
    ZeroBody(body, n, e);
    BuildCollects(NodesOf(body, n), RecordsOf(body, NODE_SIZE * n, e));
  }

  lemma ZeroBody(body: Bytes, n: nat, e: nat)
    requires |body| == NODE_SIZE * n + EDGE_SIZE * e && n > 0
    requires forall i :: 0 <= i < |body| ==> body[i] == 0
    ensures forall k :: 0 <= k < e ==> !BadRecord(NodesOf(body, n), RecordsOf(body, NODE_SIZE * n, e)[k])
  {
    ZeroNodes(body, n);
    ZeroRecords(body, NODE_SIZE * n, e);
  }

  lemma {:induction false} ZeroNodes(body: Bytes, n: nat)
    requires NODE_SIZE * n <= |body| && forall i :: 0 <= i < |body| ==> body[i] == 0
    ensures forall i :: 0 <= i < n ==> !NodesOf(body, n)[i].removed
    decreases n
  {
    hide ReadBits;
    if n > 0 {
      ZeroNodes(body, n - 1);
    }
  }

  lemma {:induction false} ZeroRecords(body: Bytes, start: nat, k: nat)
    requires start + EDGE_SIZE * k <= |body| && forall i :: 0 <= i < |body| ==> body[i] == 0
    ensures forall i :: 0 <= i < k ==>
        RecordsOf(body, start, k)[i].from == 0 && RecordsOf(body, start, k)[i].edge.to == 0
    decreases k
  {
    hide ReadBits;
    if k > 0 {
      ZeroRecords(body, start, k - 1);
    }
  }
}
