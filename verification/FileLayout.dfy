/**
 Where everything stands in a saved file (code/gsc_graph.cpp, 2626-2739): the format that
 other tools may read, byte by byte, least significant byte first.
 */
module FileLayout {
  import opened GraphTypes
  import opened GraphEdits
  import opened Crc32
  import opened SaveFile

  /** The four bytes at p are this number, the least significant first. */
  predicate NumberAt(b: Bytes, p: nat, n: nat) {
    && p + 4 <= |b|
    && n == (b[p] as nat) + 0x100 * (b[p + 1] as nat) + 0x1_0000 * (b[p + 2] as nat) + 0x100_0000 * (b[p + 3] as nat)
  }

  lemma WordStands(b: Bytes, p: nat, n: nat)
    requires n < WORD_LIMIT && p + 4 <= |b| && b[p..p + 4] == Word32(n)
    ensures NumberAt(b, p, n)
  {
    Read32Word(n, b, p);
  }

  lemma BitsStand(b: Bytes, p: nat, x: bv32)
    requires p + 4 <= |b| && b[p..p + 4] == Bits(x)
    ensures NumberAt(b, p, x as nat)
  {
    hide Word32;
    WordStands(b, p, x as nat);
  }

  // ---- the header ---------------------------------------------------------------------------

  /** Magic, version 1, no flags, the two counts and the checksum of all that follows. */
  lemma HeaderStands(nodes: seq<FileNode>)
    requires |nodes| < WORD_LIMIT && EdgeTotal(nodes) < WORD_LIMIT
    ensures var f := Image(nodes);
            && |f| == 20 + 20 * |nodes| + 16 * EdgeTotal(nodes)
            && f[..8] == [0x47, 0x32, 0x47, 0x31, 1, 0, 0, 0]
            && NumberAt(f, 8, |nodes|) && NumberAt(f, 12, EdgeTotal(nodes))
            && NumberAt(f, 16, Crc(f[20..]).bits as nat)
  {
    hide Crc;
    hide EdgeTotal;
    hide Word32;
    hide Bits;
    hide Body;
    var f, body := Image(nodes), Body(nodes);
    SmallWords();
    var crc := Bits(Crc(body).bits);
    assert f == MAGIC + Word16(VERSION) + Word16(0) + Word32(|nodes|) + Word32(EdgeTotal(nodes)) + crc + body;
    assert f[8..12] == Word32(|nodes|) && f[12..16] == Word32(EdgeTotal(nodes)) && f[16..20] == crc;
    assert f[20..] == body;
    WordStands(f, 8, |nodes|);
    WordStands(f, 12, EdgeTotal(nodes));
    BitsStand(f, 16, Crc(body).bits);
  }

  lemma SmallWords()
    ensures Word16(1) == [1, 0] && Word16(0) == [0, 0]
  {
  }

  // ---- the records ---------------------------------------------------------------------------

  lemma {:induction false} NodeRecordStands(nodes: seq<FileNode>, i: nat)
    requires i < |nodes|
    ensures AllNodeBytes(nodes)[20 * i..20 * i + 20] == NodeBytes(nodes[i])
    decreases |nodes|
  {
    hide NodeBytes;
    if i < |nodes| - 1 {
      NodeRecordStands(nodes[..|nodes| - 1], i);
    }
  }

  lemma {:induction false} EdgeRecordStands(records: seq<EdgeRecord>, k: nat)
    requires k < |records|
    ensures AllEdgeBytes(records)[16 * k..16 * k + 16] == EdgeBytes(records[k])
    decreases |records|
  {
    hide EdgeBytes;
    if k < |records| - 1 {
      EdgeRecordStands(records[..|records| - 1], k);
    }
  }

  /** The j-th edge of node u follows those of all nodes before it. */
  lemma {:induction false} RecordOf(nodes: seq<FileNode>, u: nat, j: nat)
    requires u < |nodes| && j < |nodes[u].edges|
    ensures EdgeTotal(nodes[..u]) + j < |Records(nodes)|
    ensures Records(nodes)[EdgeTotal(nodes[..u]) + j] == EdgeRecord(u, nodes[u].edges[j])
    decreases |nodes|
  {
    var k := |nodes| - 1;
    if u < k {
      RecordOf(nodes[..k], u, j);
      assert nodes[..k][..u] == nodes[..u];
    } else {
      OutgoingAt(u, nodes[u].edges);
    }
  }

  lemma BodyStands(nodes: seq<FileNode>, p: nat, size: nat)
    requires p + size <= |Body(nodes)|
    ensures Image(nodes)[20 + p..20 + p + size] == Body(nodes)[p..p + size]
  {
    hide Crc;
    hide Body;
    hide EdgeTotal;
    hide Fixed;
    var f := Image(nodes);
    assert f[HEADER..] == Body(nodes);
    assert f[20 + p..20 + p + size] == f[HEADER..][p..p + size];
  }

  lemma ImageLength(nodes: seq<FileNode>)
    ensures |Image(nodes)| == 20 + |Body(nodes)| && |Body(nodes)| == 20 * |nodes| + 16 * EdgeTotal(nodes)
  {
    hide Crc;
  }

  lemma NodeSlice(nodes: seq<FileNode>, i: nat)
    requires i < |nodes|
    ensures |Image(nodes)| >= 20 + 20 * i + 20
    ensures Image(nodes)[20 + 20 * i..20 + 20 * i + 20] == NodeBytes(nodes[i])
  {
    hide Image;
    hide NodeBytes;
    hide EdgeTotal;
    NodeRecordStands(nodes, i);
    ImageLength(nodes);
    BodyStands(nodes, 20 * i, 20);
    assert Body(nodes)[20 * i..20 * i + 20] == AllNodeBytes(nodes)[20 * i..20 * i + 20];
  }

  lemma NodeFields(f: Bytes, p: nat, n: FileNode)
    requires p + 20 <= |f| && f[p..p + 20] == NodeBytes(n)
    ensures NumberAt(f, p, n.origin.x as nat) && NumberAt(f, p + 4, n.origin.y as nat)
    ensures NumberAt(f, p + 8, n.origin.z as nat) && NumberAt(f, p + 12, n.ty as nat)
    ensures NumberAt(f, p + 16, if n.removed then 1 else 0)
  {
    hide Bits;
    hide Word32;
    hide NumberAt;
    Fields(f, p, 20, Bits(n.origin.x), Bits(n.origin.y), Bits(n.origin.z), Bits(n.ty),
        Word32(if n.removed then 1 else 0));
    BitsStand(f, p, n.origin.x);
    BitsStand(f, p + 4, n.origin.y);
    BitsStand(f, p + 8, n.origin.z);
    BitsStand(f, p + 12, n.ty);
    WordStands(f, p + 16, if n.removed then 1 else 0);
  }

  /** Origin, type and removed mark of the i-th node. */
  lemma NodeStands(nodes: seq<FileNode>, i: nat)
    requires i < |nodes|
    ensures var f, p, n := Image(nodes), 20 + 20 * i, nodes[i];
            && NumberAt(f, p, n.origin.x as nat) && NumberAt(f, p + 4, n.origin.y as nat)
            && NumberAt(f, p + 8, n.origin.z as nat) && NumberAt(f, p + 12, n.ty as nat)
            && NumberAt(f, p + 16, if n.removed then 1 else 0)
  {
    hide Image;
    hide NodeBytes;
    hide NumberAt;
    NodeSlice(nodes, i);
    NodeFields(Image(nodes), 20 + 20 * i, nodes[i]);
  }

  /** Where the record of the j-th edge of node u starts: after all nodes, and the edges of the nodes before u. */
  function EdgePlace(nodes: seq<FileNode>, u: nat, j: nat): nat
    requires u < |nodes|
  {
    20 + 20 * |nodes| + 16 * (EdgeTotal(nodes[..u]) + j)
  }

  lemma EdgeSlice(nodes: seq<FileNode>, u: nat, j: nat)
    requires u < |nodes| && j < |nodes[u].edges|
    ensures var p := EdgePlace(nodes, u, j);
            |Image(nodes)| >= p + 16 && Image(nodes)[p..p + 16] == EdgeBytes(EdgeRecord(u, nodes[u].edges[j]))
  {
    hide Image;
    hide EdgeBytes;
    hide EdgeTotal;
    hide Records;
    var k := EdgeTotal(nodes[..u]) + j;
    var q := 20 * |nodes| + 16 * k;
    RecordOf(nodes, u, j);
    EdgeRecordStands(Records(nodes), k);
    ImageLength(nodes);
    BodyStands(nodes, q, 16);
    assert Body(nodes)[q..q + 16] == AllEdgeBytes(Records(nodes))[16 * k..16 * k + 16];
  }

  /** Ends, type and cost of the j-th edge of node u. */
  lemma EdgeStands(nodes: seq<FileNode>, u: nat, j: nat)
    requires TargetsInRange(nodes) && |nodes| < WORD_LIMIT && u < |nodes| && j < |nodes[u].edges|
    ensures var f, p, e := Image(nodes), EdgePlace(nodes, u, j), nodes[u].edges[j];
            && NumberAt(f, p, u) && NumberAt(f, p + 4, e.to) && NumberAt(f, p + 8, e.ty as nat)
            && NumberAt(f, p + 12, e.cost as nat)
  {
    hide Image;
    hide Bits;
    hide Word32;
    hide NumberAt;
    hide EdgePlace;
    EdgeSlice(nodes, u, j);
    var f, p, e := Image(nodes), EdgePlace(nodes, u, j), nodes[u].edges[j];
    assert EdgeBytes(EdgeRecord(u, e)) == Word32(u) + Word32(e.to) + Bits(e.ty) + Bits(e.cost) + [];
    Fields(f, p, 16, Word32(u), Word32(e.to), Bits(e.ty), Bits(e.cost), []);
    WordStands(f, p, u);
    WordStands(f, p + 4, e.to);
    BitsStand(f, p + 8, e.ty);
    BitsStand(f, p + 12, e.cost);
  }
}
