/**
 * The byte images that the construction code writes: a zeroed node record,
 * a run of them, and a whole freshly created layer record.
 */
module Images {
  import opened Layout

  /** `len` bytes that nothing has written. */
  function Blank(len: nat): (r: seq<Cell>)
    ensures |r| == len
  {
    if len == 0 then [] else [Unset] + Blank(len - 1)
  }

  /** The header of a node record: zero bias and zero output, then `wcount`. */
  function NodeHeader(wcount: nat): (r: seq<Cell>)
    ensures |r| == NODE_HEADER_SIZE
  {
    [NodeHead(0.0, 0.0, wcount)] + Blank(NODE_HEADER_SIZE - 1)
  }

  /** One weight slot holding zero. */
  function ZeroSlot(): (r: seq<Cell>)
    ensures |r| == DOUBLE_SIZE
  {
    [Weight(0.0)] + Blank(DOUBLE_SIZE - 1)
  }

  /** `count` zero weights back to back. */
  function ZeroWeights(count: nat): (r: seq<Cell>)
    ensures |r| == count * DOUBLE_SIZE
  {
    if count == 0 then [] else ZeroWeights(count - 1) + ZeroSlot()
  }

  /** A node record of `wcount` weights with its header set and its first `zeroed` weights zero. */
  function Template(wcount: nat, zeroed: nat): (r: seq<Cell>)
    requires zeroed <= wcount
    ensures |r| == NodeSize(wcount)
  {
    NodeHeader(wcount) + ZeroWeights(zeroed) + Blank((wcount - zeroed) * DOUBLE_SIZE)
  }

  /** A node record with zero bias, zero output and `wcount` zero weights. */
  function NodeImage(wcount: nat): (r: seq<Cell>)
    ensures |r| == NodeSize(wcount)
  {
    NodeHeader(wcount) + ZeroWeights(wcount)
  }

  /** `ncount` zeroed node records back to back. */
  function Nodes(ncount: nat, wcount: nat): seq<Cell>
  {
    if ncount == 0 then [] else Nodes(ncount - 1, wcount) + NodeImage(wcount)
  }

  /** The layer header: `ncount`, then the rest of the header unwritten. */
  function LayerHead(ncount: int): seq<Cell>
  {
    [Count(ncount)] + Blank(LAYER_HEADER_SIZE - 1)
  }

  /** The bytes of a layer of `ncount` zeroed nodes with `wcount` weights each. */
  function LayerImage(ncount: nat, wcount: nat): seq<Cell>
  {
    LayerHead(ncount) + Nodes(ncount, wcount)
  }

  /** Bias, output and every weight of every node of the layer at `at` are zero. */
  ghost predicate ZeroedLayer(mem: seq<Cell>, at: int, ncount: nat, wcount: nat)
  {
    && LayerWellFormed(mem, at, ncount, wcount)
    && (forall j :: 0 <= j < ncount ==>
          mem[NodeAddr(at, NodeSize(wcount), j)] == NodeHead(0.0, 0.0, wcount))
    && (forall j, i :: 0 <= j < ncount && 0 <= i < wcount ==>
          mem[WeightAddr(NodeAddr(at, NodeSize(wcount), j), i)] == Weight(0.0))
  }

  lemma ConcatAssoc(a: seq<Cell>, b: seq<Cell>, c: seq<Cell>)
    ensures a + (b + c) == a + b + c
  {
  }

  /** Writing the first byte of the middle part of a concatenation writes the middle part. */
  lemma UpdateInMiddle(x: seq<Cell>, y: seq<Cell>, z: seq<Cell>, c: Cell)
    requires |y| > 0
    ensures (x + y + z)[|x| := c] == x + y[0 := c] + z
  {
  }

  /** Every byte of a blank run is unset. */
  lemma {:induction false} BlankAt(len: nat, k: int)
    requires 0 <= k < len
    ensures Blank(len)[k] == Unset
  {
    if k > 0 {
      BlankAt(len - 1, k - 1);
    }
  }

  /** A blank run splits into two blank runs. */
  lemma {:induction false} BlankSplit(a: nat, b: nat)
    ensures Blank(a + b) == Blank(a) + Blank(b)
  {
    if a > 0 {
      BlankSplit(a - 1, b);
      assert Blank(a + b) == [Unset] + (Blank(a - 1) + Blank(b));
    }
  }

  /** Weight `i` of a run of `count` zero weights is zero. */
  lemma {:induction false} ZeroWeightsAt(count: nat, i: int)
    requires 0 <= i < count
    ensures ZeroWeights(count)[i * DOUBLE_SIZE] == Weight(0.0)
  {
    if i < count - 1 {
      ZeroWeightsAt(count - 1, i);
    }
  }

  /** The template with every weight zeroed is the zeroed node. */
  lemma TemplateDone(wcount: nat)
    ensures Template(wcount, wcount) == NodeImage(wcount)
  {
    assert Blank(0) == [];
  }

  /** A fresh node allocation whose header was just written is the template with no weight zeroed. */
  lemma TemplateStart(wcount: nat)
    ensures Blank(NodeSize(wcount))[0 := NodeHead(0.0, 0.0, wcount)] == Template(wcount, 0)
  {
    BlankSplit(NODE_HEADER_SIZE, wcount * DOUBLE_SIZE);
    assert Blank(NODE_HEADER_SIZE)[0 := NodeHead(0.0, 0.0, wcount)] == NodeHeader(wcount);
  }

  /** Zeroing weight slot `i` of the template turns slot `i` and nothing else into a zero weight. */
  lemma TemplateStep(wcount: nat, i: nat)
    requires i < wcount
    ensures 0 <= WeightAddr(0, i) < NodeSize(wcount)
    ensures Template(wcount, i)[WeightAddr(0, i) := Weight(0.0)] == Template(wcount, i + 1)
  {
    var rest := (wcount - i - 1) * DOUBLE_SIZE;
    var front := NodeHeader(wcount) + ZeroWeights(i);
    assert |front| == WeightAddr(0, i);
    assert Template(wcount, i) == front + Blank(DOUBLE_SIZE) + Blank(rest) by {
      BlankSplit(DOUBLE_SIZE, rest);
      ConcatAssoc(front, Blank(DOUBLE_SIZE), Blank(rest));
    }
    assert Template(wcount, i + 1) == front + ZeroSlot() + Blank(rest) by {
      ConcatAssoc(NodeHeader(wcount), ZeroWeights(i), ZeroSlot());
    }
    assert (front + Blank(DOUBLE_SIZE) + Blank(rest))[|front| := Weight(0.0)] == front + ZeroSlot() + Blank(rest) by {
      UpdateInMiddle(front, Blank(DOUBLE_SIZE), Blank(rest), Weight(0.0));
      assert Blank(DOUBLE_SIZE)[0 := Weight(0.0)] == ZeroSlot();
    }
  }

  /** The zeroed node holds its header at byte 0 and zero in every weight slot. */
  lemma NodeImageFields(wcount: nat)
    ensures |NodeImage(wcount)| == NodeSize(wcount)
    ensures NodeImage(wcount)[0] == NodeHead(0.0, 0.0, wcount)
    ensures forall i :: 0 <= i < wcount ==> NodeImage(wcount)[WeightAddr(0, i)] == Weight(0.0)
  {
    forall i | 0 <= i < wcount
      ensures NodeImage(wcount)[WeightAddr(0, i)] == Weight(0.0)
    {
      ZeroWeightsAt(wcount, i);
    }
  }

  lemma {:induction false} NodesLength(ncount: nat, wcount: nat)
    ensures |Nodes(ncount, wcount)| == ncount * NodeSize(wcount)
  {
    if ncount > 0 {
      NodesLength(ncount - 1, wcount);
    }
  }

  /** Byte `q` of node `j` of a run of zeroed nodes is byte `q` of the zeroed node. */
  lemma {:induction false} NodesAt(ncount: nat, wcount: nat, j: int, q: int)
    requires 0 <= j < ncount && 0 <= q < NodeSize(wcount)
    ensures j * NodeSize(wcount) + q < |Nodes(ncount, wcount)|
    ensures Nodes(ncount, wcount)[j * NodeSize(wcount) + q] == NodeImage(wcount)[q]
  {
    NodesLength(ncount - 1, wcount);
    if j < ncount - 1 {
      MulMono(j + 1, ncount - 1, NodeSize(wcount));
      NodesAt(ncount - 1, wcount, j, q);
    }
  }

  lemma LayerImageSize(ncount: nat, wcount: nat)
    ensures |LayerImage(ncount, wcount)| == LayerSize(ncount, wcount)
  {
    NodesLength(ncount, wcount);
  }

  /**
   * Wherever the image of a fresh layer is copied, a well-formed layer of
   * `ncount` zeroed nodes of `wcount` weights sits there.
   */
  lemma LayerImageAt(mem: seq<Cell>, at: int, ncount: nat, wcount: nat)
    requires 0 <= at && at + LayerSize(ncount, wcount) <= |mem|
    requires mem[at..at + LayerSize(ncount, wcount)] == LayerImage(ncount, wcount)
    ensures ZeroedLayer(mem, at, ncount, wcount)
  {
    var image := LayerImage(ncount, wcount);
    var ns := NodeSize(wcount);
    LayerImageSize(ncount, wcount);
    NodeImageFields(wcount);
    assert mem[at] == image[0];
    forall j | 0 <= j < ncount
      ensures NodeWellFormed(mem, NodeAddr(at, ns, j), wcount)
      ensures mem[NodeAddr(at, ns, j)] == NodeHead(0.0, 0.0, wcount)
      ensures forall i :: 0 <= i < wcount ==> mem[WeightAddr(NodeAddr(at, ns, j), i)] == Weight(0.0)
    {
      var nodeAt := NodeAddr(at, ns, j);
      NodeInLayer(at, ncount, wcount, j);
      NodesAt(ncount, wcount, j, 0);
      assert mem[nodeAt] == image[LAYER_HEADER_SIZE + j * ns];
      forall i | 0 <= i < wcount
        ensures mem[WeightAddr(nodeAt, i)] == Weight(0.0)
      {
        NodesAt(ncount, wcount, j, WeightAddr(0, i));
        assert mem[WeightAddr(nodeAt, i)] == image[LAYER_HEADER_SIZE + j * ns + WeightAddr(0, i)];
      }
    }
  }
}
