/**
 * Building the layer records in their own allocations: createInputLayer and
 * createLayer, and the byte copy both of them and initNetwork rely on.
 */
module Construction {
  import opened Layout
  import opened Images

  /** memcpy(dst + dstAt, src, len): the two allocations are distinct. */
  method Memcpy(dst: array<Cell>, dstAt: nat, src: array<Cell>, len: nat)
    requires dst != src && dstAt + len <= dst.Length && len <= src.Length
    modifies dst
    ensures dst[..] == Splice(old(dst[..]), dstAt, src[..len])
    ensures len == src.Length ==> dst[..] == Splice(old(dst[..]), dstAt, src[..])
  {
    var k := 0;
    while k < len
      invariant 0 <= k <= len
      invariant forall x :: 0 <= x < dst.Length ==>
        dst[x] == if dstAt <= x < dstAt + k then src[x - dstAt] else old(dst[x])
    {
      dst[dstAt + k] := src[k];
      k := k + 1;
    }
    assert dst[..] == Splice(old(dst[..]), dstAt, src[..len]);
    assert len == src.Length ==> src[..len] == src[..];
  }

  /** `s` with the bytes from `at` on replaced by `t`. */
  function Splice(s: seq<Cell>, at: nat, t: seq<Cell>): (r: seq<Cell>)
    requires at + |t| <= |s|
    ensures |r| == |s|
  {
    s[..at] + t + s[at + |t|..]
  }

  /** malloc(size): a fresh allocation of `size` bytes that nothing has written yet. */
  method Malloc(size: nat) returns (a: array<Cell>)
    ensures fresh(a) && a[..] == Blank(size)
  {
    a := new Cell[size](_ => Unset);
    forall k | 0 <= k < size
      ensures a[k] == Blank(size)[k]
    {
      BlankAt(size, k);
    }
  }

  /** `k` node slots of `wcount` weights that nothing has written. */
  function Unwritten(k: nat, wcount: nat): seq<Cell>
  {
    if k == 0 then [] else Blank(NodeSize(wcount)) + Unwritten(k - 1, wcount)
  }

  lemma {:induction false} UnwrittenIsBlank(k: nat, wcount: nat)
    ensures 0 <= k * NodeSize(wcount)
    ensures Unwritten(k, wcount) == Blank(k * NodeSize(wcount))
  {
    MulMono(0, k, NodeSize(wcount));
    if k > 0 {
      UnwrittenIsBlank(k - 1, wcount);
      BlankSplit(NodeSize(wcount), (k - 1) * NodeSize(wcount));
    }
  }

  /**
   * The bytes of a fresh layer allocation of `ncount` nodes once its ncount
   * and its first `j` nodes are written: the nodes not yet copied are unset.
   */
  function Partial(ncount: nat, wcount: nat, j: nat): seq<Cell>
    requires j <= ncount
  {
    LayerHead(ncount) + Nodes(j, wcount) + Unwritten(ncount - j, wcount)
  }

  /** Writing ncount into a fresh layer allocation gives the layer with no node copied. */
  lemma PartialStart(ncount: nat, wcount: nat)
    ensures 0 <= LayerSize(ncount, wcount)
    ensures Blank(LayerSize(ncount, wcount))[0 := Count(ncount)] == Partial(ncount, wcount, 0)
  {
    UnwrittenIsBlank(ncount, wcount);
    BlankSplit(LAYER_HEADER_SIZE, ncount * NodeSize(wcount));
    assert Blank(LAYER_HEADER_SIZE)[0 := Count(ncount)] == LayerHead(ncount);
  }

  /** While nodes are copied the allocation keeps its size and its ncount. */
  lemma PartialHead(ncount: nat, wcount: nat, j: nat)
    requires j <= ncount
    ensures |Partial(ncount, wcount, j)| == LayerSize(ncount, wcount)
    ensures Partial(ncount, wcount, j)[0] == Count(ncount)
  {
    NodesLength(j, wcount);
    UnwrittenIsBlank(ncount - j, wcount);
    assert j * NodeSize(wcount) + (ncount - j) * NodeSize(wcount) == ncount * NodeSize(wcount);
  }

  /** Replacing the middle part of a concatenation by bytes of the same length. */
  lemma SpliceMiddle(x: seq<Cell>, y: seq<Cell>, z: seq<Cell>, t: seq<Cell>)
    requires |y| == |t|
    ensures Splice(x + y + z, |x|, t) == x + t + z
  {
    var s := x + y + z;
    assert s[..|x|] == x;
    assert s[|x| + |t|..] == z;
  }

  /**
   * Node `j` goes `j * NodeSize(wcount)` bytes past the layer header, inside
   * the allocation, and copying the zeroed node there writes node `j`.
   */
  lemma PartialStep(ncount: nat, wcount: nat, j: nat)
    requires j < ncount
    ensures 0 <= NodeAddr(0, NodeSize(wcount), j) == LAYER_HEADER_SIZE + j * NodeSize(wcount)
    ensures |Partial(ncount, wcount, j)| == LayerSize(ncount, wcount)
    ensures NodeAddr(0, NodeSize(wcount), j) + NodeSize(wcount) <= LayerSize(ncount, wcount)
    ensures Splice(Partial(ncount, wcount, j), NodeAddr(0, NodeSize(wcount), j), NodeImage(wcount))
            == Partial(ncount, wcount, j + 1)
  {
    PartialHead(ncount, wcount, j);
    NodesLength(j, wcount);
    NodeInLayer(0, ncount, wcount, j);
    var front := LayerHead(ncount) + Nodes(j, wcount);
    var rest := Unwritten(ncount - j - 1, wcount);
    assert Unwritten(ncount - j, wcount) == Blank(NodeSize(wcount)) + rest;
    ConcatAssoc(front, Blank(NodeSize(wcount)), rest);
    SpliceMiddle(front, Blank(NodeSize(wcount)), rest, NodeImage(wcount));
    ConcatAssoc(LayerHead(ncount), Nodes(j, wcount), NodeImage(wcount));
  }

  /** Once all `ncount` nodes are copied the allocation holds the layer image. */
  lemma PartialEnd(ncount: nat, wcount: nat)
    ensures Partial(ncount, wcount, ncount) == LayerImage(ncount, wcount)
  {
    assert Blank(0) == [];
  }

  /** malloc of a layer record of `ncount` nodes followed by the write of its ncount. */
  method AllocLayer(ncount: nat, wcount: nat, size: nat) returns (l: array<Cell>)
    requires size == LayerSize(ncount, wcount)
    ensures fresh(l) && l[..] == Partial(ncount, wcount, 0)
  {
    PartialStart(ncount, wcount);
    l := Malloc(size);
    l[0] := Count(ncount);
  }

  /** The template node of createLayer: zero bias, zero output, `wcount` zero weights. */
  method ZeroedNode(wcount: nat) returns (dn: array<Cell>)
    ensures fresh(dn) && dn.Length == NodeSize(wcount) && dn[..] == NodeImage(wcount)
  {
    dn := Malloc(NODE_HEADER_SIZE + wcount * DOUBLE_SIZE);
    TemplateStart(wcount);
    dn[0] := NodeHead(0.0, 0.0, wcount);
    var i := 0;
    while i < wcount
      invariant 0 <= i <= wcount && dn[..] == Template(wcount, i)
      modifies dn
    {
      TemplateStep(wcount, i);
      dn[WeightAddr(0, i)] := Weight(0.0);
      i := i + 1;
    }
    TemplateDone(wcount);
  }

  /** A layer allocation holding the fresh layer image is a well-formed layer of zeroed nodes. */
  lemma FreshLayer(mem: seq<Cell>, ncount: nat, wcount: nat)
    requires mem == LayerImage(ncount, wcount)
    ensures |mem| == LayerSize(ncount, wcount) && ZeroedLayer(mem, 0, ncount, wcount)
  {
    LayerImageSize(ncount, wcount);
    assert mem[0..|mem|] == mem;
    LayerImageAt(mem, 0, ncount, wcount);
  }

  /**
   * createInputLayer: a layer of `inpCount` nodes with zero bias, zero
   * output and no weights, copied `sizeof(Node)` bytes at a time from one
   * zeroed node value `iln` through a cursor that advances by a node size.
   */
  method CreateInputLayer(inpCount: nat) returns (il: array<Cell>)
    ensures fresh(il)
    ensures il[..] == LayerImage(inpCount, 0)
  {
    var inpNodeSize := NODE_HEADER_SIZE;
    var inpLayerSize := LAYER_HEADER_SIZE + inpCount * inpNodeSize;
    assert inpNodeSize == NodeSize(0);
    il := AllocLayer(inpCount, 0, inpLayerSize);
    var iln := ZeroedNode(0);
    var sbptr := LAYER_HEADER_SIZE;
    var i := 0;
    PartialHead(inpCount, 0, 0);
    while i < il[0].ncount
      invariant i <= inpCount && il[..] == Partial(inpCount, 0, i) && il[0] == Count(inpCount)
      invariant sbptr == NodeAddr(0, inpNodeSize, i)
      invariant iln[..] == NodeImage(0)
      modifies il
    {
      PartialStep(inpCount, 0, i);
      Memcpy(il, sbptr, iln, inpNodeSize);
      NodeAddrStep(0, inpNodeSize, i);
      sbptr := sbptr + inpNodeSize;
      i := i + 1;
      PartialHead(inpCount, 0, i);
    }
    PartialEnd(inpCount, 0);
  }

  /**
   * createLayer: a layer of `nodeCount` nodes, each a copy of one template
   * node with zero bias, zero output and `weightCount` zero weights, node
   * `j` copied to `j * nodeSize` bytes past the layer header.
   */
  method CreateLayer(nodeCount: nat, weightCount: nat) returns (l: array<Cell>)
    ensures fresh(l)
    ensures l[..] == LayerImage(nodeCount, weightCount)
  {
    var nodeSize := NODE_HEADER_SIZE + weightCount * DOUBLE_SIZE;
    assert nodeSize == NodeSize(weightCount);
    l := AllocLayer(nodeCount, weightCount, LAYER_HEADER_SIZE + nodeCount * nodeSize);
    var dn := ZeroedNode(weightCount);
    var sbptr := LAYER_HEADER_SIZE;
    var j := 0;
    while j < nodeCount
      invariant j <= nodeCount && l[..] == Partial(nodeCount, weightCount, j)
      invariant dn[..] == NodeImage(weightCount)
      modifies l
    {
      PartialStep(nodeCount, weightCount, j);
      var at := sbptr + j * nodeSize;
      assert at == NodeAddr(0, NodeSize(weightCount), j);
      Memcpy(l, at, dn, nodeSize);
      j := j + 1;
    }
    PartialEnd(nodeCount, weightCount);
  }
}
