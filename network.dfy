/**
 * The network record: a header of six sizes, two activation types and a
 * learning rate, followed by the three layer records in one allocation;
 * getLayer, initNetwork, initWeights and createNetwork.
 *
 * `rand() / (double)RAND_MAX` is an oracle: the value of the `k`-th call is
 * `rand(k)`, so a run is fixed by the oracle and the number of calls made
 * before it.
 */
module NeuralNet {
  import opened Layout
  import opened Images
  import opened Construction

  datatype LayerType = Input | Hidden | Output

  datatype ActFctType = Sigmoid | Tanh | Relu

  /** The value of each call of `rand() / (double)RAND_MAX`, by call number. */
  type Oracle = int -> real

  /** `rand()` lies in `[0, RAND_MAX]`, so every draw lies in `[0, 1]`. */
  ghost predicate UnitOracle(rand: Oracle)
  {
    forall k :: 0.0 <= rand(k) <= 1.0
  }

  /** The number of the call that draws weight `i` (or, for `i == wcount`, the bias) of node `o`. */
  function DrawIndex(wcount: int, o: int, i: int): int
  {
    o * (wcount + 1) + i
  }

  /** Weight `i` is `0.7` times its draw, negated when `i` is odd. */
  function WeightValue(i: int, d: real): (r: real)
    ensures r == 0.7 * d || r == -(0.7 * d)
    ensures 0.0 <= d ==> if i % 2 == 0 then 0.0 <= r else r <= 0.0
  {
    if i % 2 == 1 then -(0.7 * d) else 0.7 * d
  }

  /** The bias of node `o` is its draw, negated when `o` is odd. */
  function BiasValue(o: int, d: real): (r: real)
    ensures r == d || r == -d
    ensures 0.0 <= d ==> if o % 2 == 0 then 0.0 <= r else r <= 0.0
  {
    if o % 2 == 1 then -d else d
  }

  /** The node count of each layer. */
  function CountOf(ltype: LayerType, inpCount: nat, hidCount: nat, outCount: nat): nat
  {
    match ltype
    case Input => inpCount
    case Hidden => hidCount
    case Output => outCount
  }

  /** The number of weights of each node of each layer. */
  function FanIn(ltype: LayerType, inpCount: nat, hidCount: nat): nat
  {
    match ltype
    case Input => 0
    case Hidden => inpCount
    case Output => hidCount
  }

  /** The three layer images back to back, as initNetwork lays them out. */
  function NetworkImage(inpCount: nat, hidCount: nat, outCount: nat): seq<Cell>
  {
    LayerImage(inpCount, 0) + LayerImage(hidCount, inpCount) + LayerImage(outCount, hidCount)
  }

  /** Node `o`, at `nodeAt`, holds the draws numbered from `base` on: its weights, then its bias. */
  ghost predicate NodeInitialized(mem: seq<Cell>, nodeAt: int, wcount: nat, o: int, rand: Oracle, base: int)
  {
    && 0 <= nodeAt && nodeAt + NodeSize(wcount) <= |mem|
    && mem[nodeAt].NodeHead? && mem[nodeAt].bias == BiasValue(o, rand(base + wcount))
    && forall i :: 0 <= i < wcount ==> mem[WeightAddr(nodeAt, i)] == Weight(WeightValue(i, rand(base + i)))
  }

  /** The first `upto` nodes of the layer at `layerAt` hold the draws numbered from `cursor` on. */
  ghost predicate InitializedUpTo(mem: seq<Cell>, layerAt: int, wcount: nat, rand: Oracle, cursor: int, upto: int)
  {
    forall o :: 0 <= o < upto ==>
      NodeInitialized(mem, NodeAddr(layerAt, NodeSize(wcount), o), wcount, o, rand, cursor + DrawIndex(wcount, o, 0))
  }

  /** Even-position values are non-negative, odd-position ones non-positive, and none exceeds its scale. */
  ghost predicate NodeSigned(mem: seq<Cell>, nodeAt: int, wcount: nat, o: int)
  {
    && 0 <= nodeAt && nodeAt + NodeSize(wcount) <= |mem| && mem[nodeAt].NodeHead?
    && (if o % 2 == 0 then 0.0 <= mem[nodeAt].bias <= 1.0 else -1.0 <= mem[nodeAt].bias <= 0.0)
    && forall i :: 0 <= i < wcount ==>
         var c := mem[WeightAddr(nodeAt, i)];
         c.Weight? && (if i % 2 == 0 then 0.0 <= c.value <= 0.7 else -0.7 <= c.value <= 0.0)
  }

  /** Each of the three layer regions of the sizes computed for the counts holds a well-formed layer. */
  ghost predicate LaidOut(mem: seq<Cell>, inpCount: nat, hidCount: nat, outCount: nat)
  {
    var s := ComputeSizes(inpCount, hidCount, outCount);
    && |mem| == AllocationSize(s) - NETWORK_HEADER_SIZE
    && LayerWellFormed(mem, 0, inpCount, 0)
    && LayerWellFormed(mem, s.inpLayerSize, hidCount, inpCount)
    && LayerWellFormed(mem, s.inpLayerSize + s.hidLayerSize, outCount, hidCount)
  }

  /** Byte by byte, `m2` differs from `m1` at most in biases and weight values. */
  ghost predicate AllSameShape(m1: seq<Cell>, m2: seq<Cell>)
  {
    |m1| == |m2| && forall k :: 0 <= k < |m1| ==> SameShape(m1[k], m2[k])
  }

  /** The node header at `nodeAt` holds a zero output and `wcount`. */
  ghost predicate OutputZero(mem: seq<Cell>, nodeAt: int, wcount: nat)
  {
    0 <= nodeAt < |mem| && mem[nodeAt].NodeHead? && mem[nodeAt].output == 0.0 && mem[nodeAt].wcount == wcount
  }

  /** `m2` has the bytes of `m1` everywhere outside the region of `size` bytes from `start`. */
  ghost predicate KeptOutside(m1: seq<Cell>, m2: seq<Cell>, start: int, size: int)
  {
    |m1| == |m2| && forall k :: 0 <= k < |m1| && !InRegion(k, start, size) ==> m2[k] == m1[k]
  }

  /** `m1` and `m2` have the same bytes in the region of `size` bytes from `start`. */
  ghost predicate AgreeOn(m1: seq<Cell>, m2: seq<Cell>, start: int, size: int)
  {
    |m1| == |m2| && forall k :: 0 <= k < |m1| && InRegion(k, start, size) ==> m1[k] == m2[k]
  }

  /** Every weight and the bias of every node of a layer get a call of their own. */
  lemma DrawsDistinct(wcount: nat, o1: nat, i1: nat, o2: nat, i2: nat)
    requires i1 <= wcount && i2 <= wcount && (o1 != o2 || i1 != i2)
    ensures DrawIndex(wcount, o1, i1) != DrawIndex(wcount, o2, i2)
  {
    if o1 < o2 {
      MulMono(o1 + 1, o2, wcount + 1);
    } else if o2 < o1 {
      MulMono(o2 + 1, o1, wcount + 1);
    }
  }

  /** The calls a layer of `ncount` nodes makes are the `ncount * (wcount + 1)` from its cursor on. */
  lemma DrawsInRange(ncount: nat, wcount: nat, o: nat, i: nat)
    requires o < ncount && i <= wcount
    ensures 0 <= DrawIndex(wcount, o, i) < ncount * (wcount + 1)
    ensures DrawIndex(wcount, ncount, 0) == ncount * (wcount + 1)
  {
    MulMono(0, o, wcount + 1);
    MulMono(o + 1, ncount, wcount + 1);
  }

  lemma DrawIndexStep(wcount: int, o: int)
    ensures DrawIndex(wcount, o + 1, 0) == DrawIndex(wcount, o, 0) + wcount + 1
  {
  }

  /** Draws from `[0, 1]` give weights and biases of the sign their position calls for. */
  lemma InitializedSigns(mem: seq<Cell>, layerAt: int, ncount: nat, wcount: nat, rand: Oracle, cursor: int)
    requires UnitOracle(rand) && InitializedUpTo(mem, layerAt, wcount, rand, cursor, ncount)
    ensures forall o :: 0 <= o < ncount ==> NodeSigned(mem, NodeAddr(layerAt, NodeSize(wcount), o), wcount, o)
  {
    forall o | 0 <= o < ncount
      ensures NodeSigned(mem, NodeAddr(layerAt, NodeSize(wcount), o), wcount, o)
    {
      var nodeAt := NodeAddr(layerAt, NodeSize(wcount), o);
      var base := cursor + DrawIndex(wcount, o, 0);
      assert NodeInitialized(mem, nodeAt, wcount, o, rand, base);
      assert 0.0 <= rand(base + wcount) <= 1.0;
      forall i | 0 <= i < wcount
        ensures mem[WeightAddr(nodeAt, i)].Weight?
        ensures var v := mem[WeightAddr(nodeAt, i)].value;
          if i % 2 == 0 then 0.0 <= v <= 0.7 else -0.7 <= v <= 0.0
      {
        assert 0.0 <= rand(base + i) <= 1.0;
      }
    }
  }

  /** A node whose bytes are kept keeps its values. */
  lemma NodeInitializedFrame(m1: seq<Cell>, m2: seq<Cell>, nodeAt: int, wcount: nat, o: int, rand: Oracle, base: int)
    requires NodeInitialized(m1, nodeAt, wcount, o, rand, base)
    requires AgreeOn(m1, m2, nodeAt, NodeSize(wcount))
    ensures NodeInitialized(m2, nodeAt, wcount, o, rand, base)
  {
    assert m1[nodeAt] == m2[nodeAt];
    forall i | 0 <= i < wcount
      ensures m2[WeightAddr(nodeAt, i)] == Weight(WeightValue(i, rand(base + i)))
    {
      assert m1[WeightAddr(nodeAt, i)] == m2[WeightAddr(nodeAt, i)];
    }
  }

  /** A layer whose bytes are kept keeps its values. */
  lemma InitializedFrame(m1: seq<Cell>, m2: seq<Cell>, layerAt: int, ncount: nat, wcount: nat, rand: Oracle, cursor: int)
    requires InitializedUpTo(m1, layerAt, wcount, rand, cursor, ncount)
    requires AgreeOn(m1, m2, layerAt, LayerSize(ncount, wcount))
    ensures InitializedUpTo(m2, layerAt, wcount, rand, cursor, ncount)
  {
    forall o | 0 <= o < ncount
      ensures NodeInitialized(m2, NodeAddr(layerAt, NodeSize(wcount), o), wcount, o, rand, cursor + DrawIndex(wcount, o, 0))
    {
      NodeInLayer(layerAt, ncount, wcount, o);
      NodeInitializedFrame(m1, m2, NodeAddr(layerAt, NodeSize(wcount), o), wcount, o, rand, cursor + DrawIndex(wcount, o, 0));
    }
  }

  /**
   * Initializing node `o` in place, without touching the bytes outside it,
   * keeps the nodes before it initialized.
   */
  lemma InitializedStep(m1: seq<Cell>, m2: seq<Cell>, layerAt: int, wcount: nat, rand: Oracle, cursor: int, o: nat)
    requires InitializedUpTo(m1, layerAt, wcount, rand, cursor, o)
    requires KeptOutside(m1, m2, NodeAddr(layerAt, NodeSize(wcount), o), NodeSize(wcount))
    requires NodeInitialized(m2, NodeAddr(layerAt, NodeSize(wcount), o), wcount, o, rand, cursor + DrawIndex(wcount, o, 0))
    ensures InitializedUpTo(m2, layerAt, wcount, rand, cursor, o + 1)
  {
    forall p | 0 <= p < o
      ensures NodeInitialized(m2, NodeAddr(layerAt, NodeSize(wcount), p), wcount, p, rand, cursor + DrawIndex(wcount, p, 0))
    {
      var nodeAt := NodeAddr(layerAt, NodeSize(wcount), p);
      forall k | 0 <= k < |m1| && InRegion(k, nodeAt, NodeSize(wcount))
        ensures m1[k] == m2[k]
      {
        NodeBefore(layerAt, wcount, p, o, k - nodeAt);
      }
      NodeInitializedFrame(m1, m2, nodeAt, wcount, p, rand, cursor + DrawIndex(wcount, p, 0));
    }
  }

  /** A node stays well formed when only biases and weight values change. */
  lemma SameShapeKeepsNode(m1: seq<Cell>, m2: seq<Cell>, at: int, wcount: nat)
    requires AllSameShape(m1, m2)
    requires NodeWellFormed(m1, at, wcount)
    ensures NodeWellFormed(m2, at, wcount)
  {
    assert SameShape(m1[at], m2[at]);
    forall i | 0 <= i < wcount ensures m2[WeightAddr(at, i)].Weight? {
      assert SameShape(m1[WeightAddr(at, i)], m2[WeightAddr(at, i)]);
    }
  }

  lemma SameShapeTrans(a: Cell, b: Cell, c: Cell)
    requires SameShape(a, b) && SameShape(b, c)
    ensures SameShape(a, c)
  {
  }

  lemma AllSameShapeTrans(m0: seq<Cell>, m1: seq<Cell>, m2: seq<Cell>)
    requires AllSameShape(m0, m1) && AllSameShape(m1, m2)
    ensures AllSameShape(m0, m2)
  {
    forall k | 0 <= k < |m0|
      ensures SameShape(m0[k], m2[k])
    {
      SameShapeTrans(m0[k], m1[k], m2[k]);
    }
  }

  /** The three layers stay well formed when only biases and weight values change. */
  lemma SameShapeKeepsLaidOut(m1: seq<Cell>, m2: seq<Cell>, inpCount: nat, hidCount: nat, outCount: nat)
    requires AllSameShape(m1, m2) && LaidOut(m1, inpCount, hidCount, outCount)
    ensures LaidOut(m2, inpCount, hidCount, outCount)
  {
    var s := ComputeSizes(inpCount, hidCount, outCount);
    SameShapeKeepsLayer(m1, m2, 0, inpCount, 0);
    SameShapeKeepsLayer(m1, m2, s.inpLayerSize, hidCount, inpCount);
    SameShapeKeepsLayer(m1, m2, s.inpLayerSize + s.hidLayerSize, outCount, hidCount);
  }

  /** A change confined to a node is confined to the layer around it. */
  lemma KeptOutsideWiden(m0: seq<Cell>, m1: seq<Cell>, m2: seq<Cell>, start: int, size: int, inner: int, innerSize: int)
    requires KeptOutside(m0, m1, start, size) && KeptOutside(m1, m2, inner, innerSize)
    requires start <= inner && inner + innerSize <= start + size
    ensures KeptOutside(m0, m2, start, size)
  {
  }

  /** A change confined to one region leaves a region disjoint from it as it was. */
  lemma KeptOutsideAgrees(m1: seq<Cell>, m2: seq<Cell>, start: int, size: int, other: int, otherSize: int)
    requires KeptOutside(m1, m2, start, size)
    requires other + otherSize <= start || start + size <= other
    ensures AgreeOn(m1, m2, other, otherSize)
  {
  }

  /**
   * The image initNetwork writes holds, at the start of each layer region,
   * a well-formed layer of zeroed nodes of that layer's count and fan-in.
   */
  lemma NetworkImageLayers(inpCount: nat, hidCount: nat, outCount: nat)
    ensures var s := ComputeSizes(inpCount, hidCount, outCount);
      var mem := NetworkImage(inpCount, hidCount, outCount);
      && |mem| == AllocationSize(s) - NETWORK_HEADER_SIZE
      && ZeroedLayer(mem, 0, inpCount, 0)
      && ZeroedLayer(mem, s.inpLayerSize, hidCount, inpCount)
      && ZeroedLayer(mem, s.inpLayerSize + s.hidLayerSize, outCount, hidCount)
  {
    var s := ComputeSizes(inpCount, hidCount, outCount);
    var mem := NetworkImage(inpCount, hidCount, outCount);
    LayerRegionsTile(inpCount, hidCount, outCount);
    LayerImageSize(inpCount, 0);
    LayerImageSize(hidCount, inpCount);
    LayerImageSize(outCount, hidCount);
    var a := s.inpLayerSize;
    var b := s.inpLayerSize + s.hidLayerSize;
    assert mem[0..a] == LayerImage(inpCount, 0);
    assert mem[a..b] == LayerImage(hidCount, inpCount);
    assert mem[b..b + s.outLayerSize] == LayerImage(outCount, hidCount);
    LayerImageAt(mem, 0, inpCount, 0);
    LayerImageAt(mem, a, hidCount, inpCount);
    LayerImageAt(mem, b, outCount, hidCount);
  }

  /** Three copies back to back over a buffer of their total length leave exactly the three. */
  lemma CopiedBackToBack(m: seq<Cell>, a: seq<Cell>, b: seq<Cell>, c: seq<Cell>)
    requires |m| == |a| + |b| + |c|
    ensures |Splice(m, 0, a)| == |m|
    ensures |Splice(Splice(m, 0, a), |a|, b)| == |m|
    ensures Splice(Splice(Splice(m, 0, a), |a|, b), |a| + |b|, c) == a + b + c
  {
    var m1 := Splice(m, 0, a);
    assert m1 == a + m[|a|..];
    var m2 := Splice(m1, |a|, b);
    assert m2 == a + b + m[|a| + |b|..];
    assert Splice(m2, |a| + |b|, c) == a + b + c;
  }

  /** The header and the `layers` flexible member of one network allocation. */
  class Network {
    var inpNodeSize: int
    var inpLayerSize: int
    var hidNodeSize: int
    var hidLayerSize: int
    var outNodeSize: int
    var outLayerSize: int
    var hidLayerActType: ActFctType
    var outLayerActType: ActFctType
    var learningRate: real
    /** The bytes that follow the header; offsets below are from its start. */
    const layers: array<Cell>

    /**
     * The first half of createNetwork: compute the sizes, allocate the header
     * and the three layers in one block, and fill the header with the sizes,
     * SIGMOID for both activations and a learning rate of 0.1.
     */
    constructor Create(inpCount: nat, hidCount: nat, outCount: nat)
      ensures Header() == ComputeSizes(inpCount, hidCount, outCount)
      ensures fresh(layers) && layers[..] == Blank(AllocationSize(Header()) - NETWORK_HEADER_SIZE)
      ensures hidLayerActType == Sigmoid && outLayerActType == Sigmoid && learningRate == 0.1
    {
      var s := ComputeSizes(inpCount, hidCount, outCount);
      var block := Malloc(s.inpLayerSize + s.hidLayerSize + s.outLayerSize);
      layers := block;
      inpNodeSize := s.inpNodeSize;
      inpLayerSize := s.inpLayerSize;
      hidNodeSize := s.hidNodeSize;
      hidLayerSize := s.hidLayerSize;
      outNodeSize := s.outNodeSize;
      outLayerSize := s.outLayerSize;
      hidLayerActType := Sigmoid;
      outLayerActType := Sigmoid;
      learningRate := 0.1;
    }

    /** The six size fields. */
    function Header(): Sizes
      reads this
    {
      Sizes(inpNodeSize, inpLayerSize, hidNodeSize, hidLayerSize, outNodeSize, outLayerSize)
    }

    /**
     * The header holds the sizes createNetwork computes for the given counts,
     * and each layer region holds a well-formed layer of its count and fan-in.
     */
    ghost predicate Shaped(inpCount: nat, hidCount: nat, outCount: nat)
      reads this, layers
    {
      Header() == ComputeSizes(inpCount, hidCount, outCount) && LaidOut(layers[..], inpCount, hidCount, outCount)
    }

    /** The stored size of the layer record of the given type. */
    function StoredLayerSize(ltype: LayerType): int
      reads this
    {
      match ltype
      case Input => inpLayerSize
      case Hidden => hidLayerSize
      case Output => outLayerSize
    }

    /**
     * getLayer: the offset of a layer record, from the stored layer sizes;
     * OUTPUT is the default case. When the stored sizes are non-negative, the
     * region of the requested layer's stored size at that offset lies inside
     * the layers area, and each of its bytes belongs to the requested layer's
     * region and to neither of the other two.
     */
    function GetLayer(ltype: LayerType): (r: int)
      reads this
      ensures 0 <= inpLayerSize && 0 <= hidLayerSize && 0 <= outLayerSize ==>
        0 <= r && r + StoredLayerSize(ltype) <= inpLayerSize + hidLayerSize + outLayerSize
      ensures 0 <= inpLayerSize && 0 <= hidLayerSize && 0 <= outLayerSize ==>
        forall k :: InRegion(k, r, StoredLayerSize(ltype)) ==>
        && (InRegion(k, 0, inpLayerSize) <==> ltype == Input)
        && (InRegion(k, inpLayerSize, hidLayerSize) <==> ltype == Hidden)
        && (InRegion(k, inpLayerSize + hidLayerSize, outLayerSize) <==> ltype == Output)
    {
      match ltype
      case Input => 0
      case Hidden => inpLayerSize
      case _ => inpLayerSize + hidLayerSize
    }

    /**
     * getLayer finds each layer where initNetwork copied it: the input layer
     * first, then the hidden layer, then the output layer, each region
     * exactly the size of its layer.
     */
    lemma GetLayerPlacement(inpCount: nat, hidCount: nat, outCount: nat)
      requires Header() == ComputeSizes(inpCount, hidCount, outCount)
      ensures GetLayer(Input) == 0
      ensures GetLayer(Hidden) == GetLayer(Input) + LayerSize(inpCount, 0) == |LayerImage(inpCount, 0)|
      ensures GetLayer(Output) == GetLayer(Hidden) + LayerSize(hidCount, inpCount)
      ensures GetLayer(Output) + LayerSize(outCount, hidCount) == AllocationSize(Header()) - NETWORK_HEADER_SIZE
    {
      LayerRegionsTile(inpCount, hidCount, outCount);
      LayerImageSize(inpCount, 0);
    }

    /** In a shaped network the layer getLayer finds is well formed with its count and fan-in. */
    lemma ShapedLayer(ltype: LayerType, inpCount: nat, hidCount: nat, outCount: nat)
      requires Shaped(inpCount, hidCount, outCount)
      ensures LayerWellFormed(layers[..], GetLayer(ltype), CountOf(ltype, inpCount, hidCount, outCount), FanIn(ltype, inpCount, hidCount))
    {
    }

    /**
     * initWeights walks the layer with the stored node size of its layer
     * type, which is the stride getNode derives from node 0's wcount: the
     * two find every node at the same offset.
     */
    lemma InitWeightsStride(ltype: LayerType, inpCount: nat, hidCount: nat, outCount: nat, o: int)
      requires Shaped(inpCount, hidCount, outCount) && ltype != Input
      requires 0 <= o < CountOf(ltype, inpCount, hidCount, outCount)
      ensures var stride := if ltype == Hidden then hidNodeSize else outNodeSize;
        && stride == NodeSize(FanIn(ltype, inpCount, hidCount))
        && 0 <= GetLayer(ltype) && GetLayer(ltype) + LAYER_HEADER_SIZE < layers.Length
        && layers[GetLayer(ltype) + LAYER_HEADER_SIZE].NodeHead?
        && GetNode(layers[..], GetLayer(ltype), o) == NodeAddr(GetLayer(ltype), stride, o)
    {
      LayerRegionsTile(inpCount, hidCount, outCount);
      ShapedLayer(ltype, inpCount, hidCount, outCount);
      GetNodeInLayer(layers[..], GetLayer(ltype), CountOf(ltype, inpCount, hidCount, outCount), FanIn(ltype, inpCount, hidCount), o);
    }

    /**
     * initNetwork: build each layer in an allocation of its own and copy it
     * to its place, the cursor advancing by the stored layer sizes.
     */
    method InitNetwork(inpCount: nat, hidCount: nat, outCount: nat)
      requires Header() == ComputeSizes(inpCount, hidCount, outCount)
      requires layers.Length == AllocationSize(Header()) - NETWORK_HEADER_SIZE
      modifies layers
      ensures layers[..] == NetworkImage(inpCount, hidCount, outCount)
    {
      LayerImageSize(inpCount, 0);
      LayerImageSize(hidCount, inpCount);
      LayerImageSize(outCount, hidCount);
      ghost var m0 := layers[..];

      var il := CreateInputLayer(inpCount);
      Memcpy(layers, 0, il, inpLayerSize);
      ghost var m1 := layers[..];

      var sbptr := inpLayerSize;
      var hl := CreateLayer(hidCount, inpCount);
      Memcpy(layers, sbptr, hl, hidLayerSize);
      ghost var m2 := layers[..];

      sbptr := sbptr + hidLayerSize;
      var ol := CreateLayer(outCount, hidCount);
      Memcpy(layers, sbptr, ol, outLayerSize);
      CopiedBackToBack(m0, LayerImage(inpCount, 0), LayerImage(hidCount, inpCount), LayerImage(outCount, hidCount));
    }

    /**
     * The body of initWeights' outer loop for node `o` at `nodeAt`: each
     * weight gets `0.7` times a draw, negated at odd positions, then the
     * bias gets a draw, negated at odd nodes. `base` is the number of draws
     * made before; the result is the number made after.
     */
    method InitNode(nodeAt: int, o: int, rand: Oracle, base: int, ghost wcount: nat) returns (next: int)
      requires NodeWellFormed(layers[..], nodeAt, wcount)
      modifies layers
      ensures next == base + wcount + 1
      ensures NodeInitialized(layers[..], nodeAt, wcount, o, rand, base)
      ensures AllSameShape(old(layers[..]), layers[..])
      ensures KeptOutside(old(layers[..]), layers[..], nodeAt, NodeSize(wcount))
    {
      var i := 0;
      next := base;
      while i < layers[nodeAt].wcount
        invariant 0 <= i <= wcount && next == base + i
        invariant layers[nodeAt] == old(layers[nodeAt])
        invariant forall j :: 0 <= j < i ==> layers[WeightAddr(nodeAt, j)] == Weight(WeightValue(j, rand(base + j)))
        invariant forall k :: 0 <= k < layers.Length ==> SameShape(old(layers[k]), layers[k])
        invariant forall k :: 0 <= k < layers.Length && !InRegion(k, nodeAt, NodeSize(wcount)) ==> layers[k] == old(layers[k])
      {
        var at := WeightAddr(nodeAt, i);
        layers[at] := Weight(0.7 * rand(next));
        if i % 2 == 1 {
          layers[at] := Weight(-layers[at].value);
        }
        next := next + 1;
        i := i + 1;
      }
      layers[nodeAt] := layers[nodeAt].(bias := rand(next));
      if o % 2 == 1 {
        layers[nodeAt] := layers[nodeAt].(bias := -layers[nodeAt].bias);
      }
      next := next + 1;
    }

    /**
     * The outer loop of initWeights over the layer at `layerAt`: walk its
     * nodes with `nodeSize` as stride and give each node its weights and
     * bias from the draws numbered from `cursor` on. Only biases and weight
     * values change, and only inside that layer.
     */
    method InitLayer(layerAt: int, nodeSize: int, rand: Oracle, cursor: int, ghost ncount: nat, ghost wcount: nat)
      returns (next: int)
      requires LayerWellFormed(layers[..], layerAt, ncount, wcount) && nodeSize == NodeSize(wcount)
      modifies layers
      ensures next == cursor + DrawIndex(wcount, ncount, 0)
      ensures InitializedUpTo(layers[..], layerAt, wcount, rand, cursor, ncount)
      ensures AllSameShape(old(layers[..]), layers[..])
      ensures KeptOutside(old(layers[..]), layers[..], layerAt, LayerSize(ncount, wcount))
    {
      ghost var m0 := layers[..];
      var sbptr := layerAt + LAYER_HEADER_SIZE;
      next := cursor;
      var o := 0;
      while o < layers[layerAt].ncount
        invariant 0 <= o <= ncount
        invariant sbptr == NodeAddr(layerAt, nodeSize, o) && next == cursor + DrawIndex(wcount, o, 0)
        invariant layers[layerAt] == Count(ncount)
        invariant InitializedUpTo(layers[..], layerAt, wcount, rand, cursor, o)
        invariant AllSameShape(m0, layers[..])
        invariant KeptOutside(m0, layers[..], layerAt, LayerSize(ncount, wcount))
      {
        NodeInLayer(layerAt, ncount, wcount, o);
        SameShapeKeepsNode(m0, layers[..], sbptr, wcount);
        ghost var before := layers[..];
        next := InitNode(sbptr, o, rand, next, wcount);
        InitializedStep(before, layers[..], layerAt, wcount, rand, cursor, o);
        AllSameShapeTrans(m0, before, layers[..]);
        KeptOutsideWiden(m0, before, layers[..], layerAt, LayerSize(ncount, wcount), sbptr, nodeSize);
        assert layers[layerAt] == before[layerAt];
        NodeAddrStep(layerAt, nodeSize, o);
        DrawIndexStep(wcount, o);
        sbptr := sbptr + nodeSize;
        o := o + 1;
      }
    }

    /**
     * initWeights for the hidden or the output layer: the stride is the
     * stored node size of that layer type, the layer the one getLayer finds.
     */
    method InitWeights(ltype: LayerType, rand: Oracle, cursor: int, ghost inpCount: nat, ghost hidCount: nat, ghost outCount: nat)
      returns (next: int)
      requires ltype != Input && Shaped(inpCount, hidCount, outCount)
      modifies layers
      ensures Shaped(inpCount, hidCount, outCount)
      ensures next == cursor + CountOf(ltype, inpCount, hidCount, outCount) * (FanIn(ltype, inpCount, hidCount) + 1)
      ensures InitializedUpTo(layers[..], GetLayer(ltype), FanIn(ltype, inpCount, hidCount), rand, cursor,
                              CountOf(ltype, inpCount, hidCount, outCount))
      ensures AllSameShape(old(layers[..]), layers[..])
      ensures KeptOutside(old(layers[..]), layers[..], GetLayer(ltype),
                          LayerSize(CountOf(ltype, inpCount, hidCount, outCount), FanIn(ltype, inpCount, hidCount)))
    {
      ghost var n := CountOf(ltype, inpCount, hidCount, outCount);
      ghost var w := FanIn(ltype, inpCount, hidCount);
      ghost var m0 := layers[..];
      ShapedLayer(ltype, inpCount, hidCount, outCount);

      var nodeSize := 0;
      if ltype == Hidden {
        nodeSize := hidNodeSize;
      } else {
        nodeSize := outNodeSize;
      }
      next := InitLayer(GetLayer(ltype), nodeSize, rand, cursor, n, w);
      DrawsInRange(n + 1, w, n, 0);
      SameShapeKeepsLaidOut(m0, layers[..], inpCount, hidCount, outCount);
    }
  }

  /**
   * createNetwork: allocate and fill the header, lay out the zeroed layers,
   * then draw the hidden layer's weights and biases before the output
   * layer's.
   */
  method CreateNetwork(inpCount: nat, hidCount: nat, outCount: nat, rand: Oracle) returns (nn: Network)
    ensures fresh(nn) && fresh(nn.layers)
    ensures nn.Header() == ComputeSizes(inpCount, hidCount, outCount)
    ensures nn.hidLayerActType == Sigmoid && nn.outLayerActType == Sigmoid && nn.learningRate == 0.1
    ensures nn.Shaped(inpCount, hidCount, outCount)
    ensures ZeroedLayer(nn.layers[..], nn.GetLayer(Input), inpCount, 0)
    ensures InitializedUpTo(nn.layers[..], nn.GetLayer(Hidden), inpCount, rand, 0, hidCount)
    ensures InitializedUpTo(nn.layers[..], nn.GetLayer(Output), hidCount, rand, hidCount * (inpCount + 1), outCount)
    ensures AllSameShape(NetworkImage(inpCount, hidCount, outCount), nn.layers[..])
  {
    nn := new Network.Create(inpCount, hidCount, outCount);
    nn.InitNetwork(inpCount, hidCount, outCount);
    NetworkImageShaped(inpCount, hidCount, outCount);
    ghost var m0 := nn.layers[..];

    var drawn := nn.InitWeights(Hidden, rand, 0, inpCount, hidCount, outCount);
    assert drawn == hidCount * (inpCount + 1);
    ghost var m1 := nn.layers[..];
    var _ := nn.InitWeights(Output, rand, drawn, inpCount, hidCount, outCount);
    AllSameShapeTrans(m0, m1, nn.layers[..]);
    LayersAfterInit(m0, m1, nn.layers[..], inpCount, hidCount, outCount, rand, nn.GetLayer(Hidden), nn.GetLayer(Output));
  }

  /**
   * After only biases and weight values changed, every node of a layer that
   * was written zeroed still has the zero output and the wcount the
   * construction wrote. With NetworkImageLayers this covers the three
   * layers of a network built by createNetwork.
   */
  lemma OutputsStayZero(image: seq<Cell>, mem: seq<Cell>, layerAt: int, ncount: nat, wcount: nat)
    requires ZeroedLayer(image, layerAt, ncount, wcount) && AllSameShape(image, mem)
    ensures forall j :: 0 <= j < ncount ==> OutputZero(mem, NodeAddr(layerAt, NodeSize(wcount), j), wcount)
  {
    forall j | 0 <= j < ncount
      ensures OutputZero(mem, NodeAddr(layerAt, NodeSize(wcount), j), wcount)
    {
      var at := NodeAddr(layerAt, NodeSize(wcount), j);
      assert NodeWellFormed(image, at, wcount);
      assert SameShape(image[at], mem[at]);
    }
  }

  /** The image initNetwork writes is laid out for the counts, with its input layer zeroed. */
  lemma NetworkImageShaped(inpCount: nat, hidCount: nat, outCount: nat)
    ensures LaidOut(NetworkImage(inpCount, hidCount, outCount), inpCount, hidCount, outCount)
    ensures ZeroedLayer(NetworkImage(inpCount, hidCount, outCount), 0, inpCount, 0)
  {
    NetworkImageLayers(inpCount, hidCount, outCount);
  }

  /**
   * Initializing the hidden layer and then the output layer in place leaves
   * the input layer zeroed and the hidden layer's draws as they were.
   */
  lemma LayersAfterInit(m0: seq<Cell>, m1: seq<Cell>, m2: seq<Cell>, inpCount: nat, hidCount: nat, outCount: nat,
                        rand: Oracle, hidAt: int, outAt: int)
    requires var s := ComputeSizes(inpCount, hidCount, outCount);
      hidAt == s.inpLayerSize && outAt == s.inpLayerSize + s.hidLayerSize
    requires ZeroedLayer(m0, 0, inpCount, 0)
    requires KeptOutside(m0, m1, hidAt, LayerSize(hidCount, inpCount))
    requires InitializedUpTo(m1, hidAt, inpCount, rand, 0, hidCount)
    requires KeptOutside(m1, m2, outAt, LayerSize(outCount, hidCount))
    ensures ZeroedLayer(m2, 0, inpCount, 0)
    ensures InitializedUpTo(m2, hidAt, inpCount, rand, 0, hidCount)
  {
    KeptOutsideAgrees(m1, m2, outAt, LayerSize(outCount, hidCount), hidAt, LayerSize(hidCount, inpCount));
    InitializedFrame(m1, m2, hidAt, hidCount, inpCount, rand, 0);
    KeptOutsideAgrees(m0, m1, hidAt, LayerSize(hidCount, inpCount), 0, LayerSize(inpCount, 0));
    KeptOutsideAgrees(m1, m2, outAt, LayerSize(outCount, hidCount), 0, LayerSize(inpCount, 0));
    ZeroedFrame(m0, m1, 0, inpCount, 0);
    ZeroedFrame(m1, m2, 0, inpCount, 0);
  }

  /** A zeroed layer whose bytes are kept stays zeroed. */
  lemma ZeroedFrame(m1: seq<Cell>, m2: seq<Cell>, layerAt: int, ncount: nat, wcount: nat)
    requires ZeroedLayer(m1, layerAt, ncount, wcount)
    requires AgreeOn(m1, m2, layerAt, LayerSize(ncount, wcount))
    ensures ZeroedLayer(m2, layerAt, ncount, wcount)
  {
    assert m1[layerAt] == m2[layerAt];
    forall j | 0 <= j < ncount
      ensures NodeWellFormed(m2, NodeAddr(layerAt, NodeSize(wcount), j), wcount)
      ensures m2[NodeAddr(layerAt, NodeSize(wcount), j)] == NodeHead(0.0, 0.0, wcount)
      ensures forall i :: 0 <= i < wcount ==> m2[WeightAddr(NodeAddr(layerAt, NodeSize(wcount), j), i)] == Weight(0.0)
    {
      var nodeAt := NodeAddr(layerAt, NodeSize(wcount), j);
      NodeInLayer(layerAt, ncount, wcount, j);
      assert NodeWellFormed(m1, nodeAt, wcount);
      assert m1[nodeAt] == m2[nodeAt];
      forall i | 0 <= i < wcount
        ensures m2[WeightAddr(nodeAt, i)] == Weight(0.0)
      {
        assert m1[WeightAddr(nodeAt, i)] == m2[WeightAddr(nodeAt, i)];
      }
    }
  }
}
