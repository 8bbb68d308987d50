/**
 * Size arithmetic, memory cells and address computation for a feed-forward
 * network packed into one allocation: a header, then the input, hidden and
 * output layer records, each an `ncount` followed by back-to-back node
 * records (bias, output, wcount, then `wcount` doubles).
 *
 * Offsets are byte offsets. The struct sizes of the C records are symbolic
 * positive constants; only `sizeof(double)` is fixed.
 */
module Layout {

  type Pos = n: int | n > 0 witness 1

  /** sizeof(Node): bias, output and wcount, before the trailing weights. */
  const NODE_HEADER_SIZE: Pos
  /** sizeof(Layer): ncount, before the trailing nodes. */
  const LAYER_HEADER_SIZE: Pos
  /** sizeof(Network): the six sizes, two activation types and the learning rate. */
  const NETWORK_HEADER_SIZE: Pos
  /** sizeof(double). */
  const DOUBLE_SIZE: int := 8

  /**
   * One byte of the allocation. A field is represented at its first byte;
   * every other byte of a record is `Unset` unless something was written there.
   * Freshly allocated memory is `Unset` as well.
   */
  datatype Cell =
    | Unset
    | Count(ncount: int)
    | NodeHead(bias: real, output: real, wcount: int)
    | Weight(value: real)

  /** The byte size of a node record holding `wcount` weights. */
  function NodeSize(wcount: int): int
  {
    NODE_HEADER_SIZE + wcount * DOUBLE_SIZE
  }

  /** The byte size of a layer record holding `ncount` nodes of `wcount` weights each. */
  function LayerSize(ncount: int, wcount: int): int
  {
    LAYER_HEADER_SIZE + ncount * NodeSize(wcount)
  }

  /** The offset of node `j` of the layer at `layerAt`, nodes being `stride` bytes apart. */
  function NodeAddr(layerAt: int, stride: int, j: int): int
  {
    layerAt + LAYER_HEADER_SIZE + j * stride
  }

  /** The offset of weight `i` of the node at `nodeAt`. */
  function WeightAddr(nodeAt: int, i: int): int
  {
    nodeAt + NODE_HEADER_SIZE + i * DOUBLE_SIZE
  }

  predicate InRegion(k: int, start: int, size: int)
  {
    start <= k < start + size
  }

  /** The six size fields of the network header. */
  datatype Sizes = Sizes(
    inpNodeSize: int, inpLayerSize: int,
    hidNodeSize: int, hidLayerSize: int,
    outNodeSize: int, outLayerSize: int)

  /**
   * The sizes createNetwork computes: input nodes carry no weights, hidden
   * nodes one weight per input node, output nodes one per hidden node. They
   * are the sizes of non-empty layers of those counts and fan-ins.
   */
  function ComputeSizes(inpCount: nat, hidCount: nat, outCount: nat): (r: Sizes)
    ensures r.inpNodeSize == NodeSize(0) && r.inpLayerSize == LayerSize(inpCount, 0)
    ensures r.hidNodeSize == NodeSize(inpCount) && r.hidLayerSize == LayerSize(hidCount, inpCount)
    ensures r.outNodeSize == NodeSize(hidCount) && r.outLayerSize == LayerSize(outCount, hidCount)
    ensures 0 < r.inpLayerSize && 0 < r.hidLayerSize && 0 < r.outLayerSize
  {
    var inpNodeSize := NODE_HEADER_SIZE;
    var inpLayerSize := LAYER_HEADER_SIZE + inpCount * inpNodeSize;
    var hidWeightsCount := inpCount;
    var hidNodeSize := NODE_HEADER_SIZE + hidWeightsCount * DOUBLE_SIZE;
    var hidLayerSize := LAYER_HEADER_SIZE + hidCount * hidNodeSize;
    var outWeightsCount := hidCount;
    var outNodeSize := NODE_HEADER_SIZE + outWeightsCount * DOUBLE_SIZE;
    var outLayerSize := LAYER_HEADER_SIZE + outCount * outNodeSize;
    Sizes(inpNodeSize, inpLayerSize, hidNodeSize, hidLayerSize, outNodeSize, outLayerSize)
  }

  /** The byte size of the whole allocation: header plus the three layers. */
  function AllocationSize(s: Sizes): int
  {
    NETWORK_HEADER_SIZE + s.inpLayerSize + s.hidLayerSize + s.outLayerSize
  }

  lemma MulMono(a: int, b: int, c: int)
    requires a <= b && 0 <= c
    ensures a * c <= b * c
  {
  }

  /** Advancing a node cursor by one stride reaches the next node. */
  lemma NodeAddrStep(layerAt: int, stride: int, j: int)
    ensures NodeAddr(layerAt, stride, j + 1) == NodeAddr(layerAt, stride, j) + stride
  {
  }

  /**
   * The three layer regions placed back to back after the header are
   * pairwise disjoint and cover exactly the bytes of the allocation that
   * follow the header.
   */
  lemma LayerRegionsTile(inpCount: nat, hidCount: nat, outCount: nat)
    ensures var s := ComputeSizes(inpCount, hidCount, outCount);
      && (forall k ::
            InRegion(k, 0, AllocationSize(s) - NETWORK_HEADER_SIZE) <==>
              || InRegion(k, 0, s.inpLayerSize)
              || InRegion(k, s.inpLayerSize, s.hidLayerSize)
              || InRegion(k, s.inpLayerSize + s.hidLayerSize, s.outLayerSize))
      && (forall k :: !(InRegion(k, 0, s.inpLayerSize) && InRegion(k, s.inpLayerSize, s.hidLayerSize)))
      && (forall k :: !(InRegion(k, 0, s.inpLayerSize) && InRegion(k, s.inpLayerSize + s.hidLayerSize, s.outLayerSize)))
      && (forall k :: !(InRegion(k, s.inpLayerSize, s.hidLayerSize) && InRegion(k, s.inpLayerSize + s.hidLayerSize, s.outLayerSize)))
  {
    var s := ComputeSizes(inpCount, hidCount, outCount);
    assert 0 < s.inpLayerSize && 0 < s.hidLayerSize && 0 < s.outLayerSize;
  }

  /** Node `j` of a layer lies wholly inside the layer's node area. */
  lemma NodeInLayer(layerAt: int, ncount: nat, wcount: nat, j: int)
    requires 0 <= j < ncount
    ensures layerAt + LAYER_HEADER_SIZE <= NodeAddr(layerAt, NodeSize(wcount), j)
    ensures NodeAddr(layerAt, NodeSize(wcount), j) + NodeSize(wcount) <= layerAt + LayerSize(ncount, wcount)
  {
    MulMono(0, j, NodeSize(wcount));
    MulMono(j + 1, ncount, NodeSize(wcount));
  }

  /** Every byte of an earlier node lies before the start of a later node. */
  lemma NodeBefore(layerAt: int, wcount: nat, j1: int, j2: int, q: int)
    requires 0 <= j1 < j2 && 0 <= q < NodeSize(wcount)
    ensures NodeAddr(layerAt, NodeSize(wcount), j1) + q < NodeAddr(layerAt, NodeSize(wcount), j2)
  {
    MulMono(j1 + 1, j2, NodeSize(wcount));
  }

  /** A node record at `at`: its header, holding `wcount`, and `wcount` weight slots, all in `mem`. */
  ghost predicate NodeWellFormed(mem: seq<Cell>, at: int, wcount: nat)
  {
    && 0 <= at && at + NodeSize(wcount) <= |mem|
    && mem[at].NodeHead? && mem[at].wcount == wcount
    && forall i :: 0 <= i < wcount ==> mem[WeightAddr(at, i)].Weight?
  }

  /** A layer record at `at`: `ncount` and then `ncount` nodes of `wcount` weights each. */
  ghost predicate LayerWellFormed(mem: seq<Cell>, at: int, ncount: nat, wcount: nat)
  {
    && 0 <= at && at + LayerSize(ncount, wcount) <= |mem|
    && mem[at] == Count(ncount)
    && forall j :: 0 <= j < ncount ==> NodeWellFormed(mem, NodeAddr(at, NodeSize(wcount), j), wcount)
  }

  /**
   * `b` may replace `a` when only a node's bias or a weight's value changes:
   * the kind of every byte, each node's output and wcount, and each ncount stay.
   */
  predicate SameShape(a: Cell, b: Cell)
  {
    match a
    case NodeHead(_, output, wcount) => b.NodeHead? && b.output == output && b.wcount == wcount
    case Weight(_) => b.Weight?
    case _ => b == a
  }

  /** A layer stays well formed when only biases and weight values change. */
  lemma SameShapeKeepsLayer(m1: seq<Cell>, m2: seq<Cell>, at: int, ncount: nat, wcount: nat)
    requires |m1| == |m2| && forall k :: 0 <= k < |m1| ==> SameShape(m1[k], m2[k])
    requires LayerWellFormed(m1, at, ncount, wcount)
    ensures LayerWellFormed(m2, at, ncount, wcount)
  {
    assert SameShape(m1[at], m2[at]);
    forall j | 0 <= j < ncount
      ensures NodeWellFormed(m2, NodeAddr(at, NodeSize(wcount), j), wcount)
    {
      var nodeAt := NodeAddr(at, NodeSize(wcount), j);
      assert NodeWellFormed(m1, nodeAt, wcount);
      assert SameShape(m1[nodeAt], m2[nodeAt]);
      forall i | 0 <= i < wcount ensures m2[WeightAddr(nodeAt, i)].Weight? {
        assert SameShape(m1[WeightAddr(nodeAt, i)], m2[WeightAddr(nodeAt, i)]);
      }
    }
  }

  /**
   * getNode: the address of node `nodeId` of the layer at `layerAt`, taking
   * the stride from the wcount of node 0 and checking no bound.
   */
  function GetNode(mem: seq<Cell>, layerAt: int, nodeId: int): (r: int)
    requires 0 <= layerAt && layerAt + LAYER_HEADER_SIZE < |mem|
    requires mem[layerAt + LAYER_HEADER_SIZE].NodeHead?
    ensures nodeId == 0 ==> r == layerAt + LAYER_HEADER_SIZE
    ensures 0 <= nodeId && 0 <= mem[layerAt + LAYER_HEADER_SIZE].wcount ==> layerAt + LAYER_HEADER_SIZE <= r
  {
    var nodeSize := NODE_HEADER_SIZE + mem[layerAt + LAYER_HEADER_SIZE].wcount * DOUBLE_SIZE;
    layerAt + LAYER_HEADER_SIZE + nodeId * nodeSize
  }

  /**
   * In a well-formed layer, getNode finds node `j` where the layer's nodes
   * were written, the node lies wholly inside the layer and holds a node
   * record of the layer's fan-in.
   */
  lemma GetNodeInLayer(mem: seq<Cell>, layerAt: int, ncount: nat, wcount: nat, j: int)
    requires LayerWellFormed(mem, layerAt, ncount, wcount) && 0 <= j < ncount
    ensures 0 <= layerAt && layerAt + LAYER_HEADER_SIZE < |mem| && mem[layerAt + LAYER_HEADER_SIZE].NodeHead?
    ensures GetNode(mem, layerAt, j) == NodeAddr(layerAt, NodeSize(wcount), j)
    ensures layerAt + LAYER_HEADER_SIZE <= GetNode(mem, layerAt, j)
    ensures GetNode(mem, layerAt, j) + NodeSize(wcount) <= layerAt + LayerSize(ncount, wcount)
    ensures NodeWellFormed(mem, GetNode(mem, layerAt, j), wcount)
  {
    assert NodeWellFormed(mem, NodeAddr(layerAt, NodeSize(wcount), 0), wcount);
    NodeInLayer(layerAt, ncount, wcount, j);
  }

  /**
   * getNode does not check its index: asked for node `ncount` it returns the
   * first byte after the layer, which is where the next layer starts.
   */
  lemma GetNodePastEnd(mem: seq<Cell>, layerAt: int, ncount: nat, wcount: nat)
    requires LayerWellFormed(mem, layerAt, ncount, wcount) && 0 < ncount
    ensures 0 <= layerAt && layerAt + LAYER_HEADER_SIZE < |mem| && mem[layerAt + LAYER_HEADER_SIZE].NodeHead?
    ensures GetNode(mem, layerAt, ncount) == layerAt + LayerSize(ncount, wcount)
  {
    assert NodeWellFormed(mem, NodeAddr(layerAt, NodeSize(wcount), 0), wcount);
  }
}
