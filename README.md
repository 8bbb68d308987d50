# Neural network layout model

This project models the network construction and addressing code of `func/neural_net.h`. The code packs one fixed-topology feed-forward network into a single `malloc` block:

- A header comes first. It holds six sizes, two activation types and a learning rate.
- Three layer records follow it: input, hidden and output.
- Each layer record is an `ncount` followed by `ncount` node records placed back to back.
- Each node record holds `bias`, `output` and `wcount`, then `wcount` doubles.

Modules:

- `Layout` (`layout.dfy`) covers sizes, offsets and memory cells.
  - Memory is a sequence of `Cell`s with one cell per byte. A field sits at its first byte.
  - `sizeof(Node)`, `sizeof(Layer)` and `sizeof(Network)` are symbolic positive constants. `sizeof(double)` is 8.
  - It holds getNode and the well-formedness predicates for nodes and layers.
- `Images` (`images.dfy`) holds the byte images that construction writes: a zeroed node, runs of zeroed nodes and a fresh layer.
- `Construction` (`construction.dfy`) holds `malloc`, `memcpy`, `createInputLayer` and `createLayer`. They are methods over `array<Cell>`, proved against the images.
- `NeuralNet` (`network.dfy`) holds the `Network` class: header fields plus the `layers` buffer after the header.
  - Methods: getLayer, initNetwork, initWeights (split into its per-node body `InitNode` and its outer loop `InitLayer`) and createNetwork.
  - Lemmas: placement, frame and sign properties.

`rand() / (double)RAND_MAX` is an oracle `rand: int -> real`, indexed by call number.

- Weight `i` of node `o` in a layer initialised from draw number `cursor` uses draw `cursor + o*(wcount+1) + i`.
- The node's bias uses draw `cursor + o*(wcount+1) + wcount`.
- The draws lie in `[0, 1]`. `rand()` may return `RAND_MAX`, so the interval is closed.

## Model

| member | source | states |
|---|---|---|
| Layout.ComputeSizes | func/neural_net.h:177-186 | The six sizes createNetwork computes are the node and layer sizes for fan-ins 0, inpCount and hidCount. Every layer size is positive. |
| Layout.LayerRegionsTile | func/neural_net.h:176-188 | The input, hidden and output regions sit back to back after the header. They are pairwise disjoint, and their union is exactly the allocated bytes after the header. |
| Layout.NodeInLayer | func/neural_net.h:78-82 | Node `j < ncount`, at stride `NodeSize(wcount)`, lies wholly between the end of the layer header and the end of the layer. |
| Layout.NodeBefore | func/neural_net.h:80-82 | Every byte of an earlier node comes before the first byte of a later node, so the copies never overlap. |
| Layout.SameShapeKeepsLayer | func/neural_net.h:159-173 | A layer stays well formed when only bias and weight values change: `ncount`, every `wcount` and every record kind stay. |
| Layout.GetNode | func/neural_net.h:136-144 | getNode: node 0 sits right after the layer header, and no node with a non-negative index comes before it when node 0's `wcount` is non-negative. The stride is taken from node 0's `wcount`, and no bound is checked. |
| Layout.GetNodeInLayer | func/neural_net.h:136-144 | In a well-formed layer, getNode(j) for `0 <= j < ncount` is the offset at which node j was written, with the stride taken from node 0's `wcount`. That node lies inside the layer and is a well-formed node of the layer's fan-in. |
| Layout.GetNodePastEnd | func/neural_net.h:136-144 | getNode checks no bound: getNode(ncount) is the first byte after the layer. |
| Images.TemplateStart | func/neural_net.h:69-72 | Writing the header into a fresh node allocation gives the template with no weight zeroed. |
| Images.TemplateStep | func/neural_net.h:74-76 | Zeroing weight `i` turns exactly slot `i` into a zero weight, and the slot lies inside the node. |
| Images.TemplateDone | func/neural_net.h:74-76 | Once every weight is zeroed, the template is the zeroed node. |
| Images.NodeImageFields | func/neural_net.h:69-76 | The zeroed node has the node size, holds `NodeHead(0, 0, wcount)` at byte 0 and holds zero in every weight slot. |
| Images.NodesAt | func/neural_net.h:80-82 | Byte `q` of node `j` in a run of copies is byte `q` of the copied node. |
| Images.LayerImageSize | func/neural_net.h:64-66 | A fresh layer image is exactly `sizeof(Layer) + ncount*nodeSize` bytes, the size createLayer allocates. |
| Images.LayerImageAt | func/neural_net.h:91-108 | Wherever a layer image is copied, that spot holds a well-formed layer whose nodes all have zero bias, zero output, `wcount` and zero weights. |
| Construction.Memcpy | func/neural_net.h:81 | memcpy into a distinct allocation replaces exactly `len` bytes at the destination offset by the source's first `len` bytes. Every other byte is kept. |
| Construction.Malloc | func/neural_net.h:66 | A fresh allocation of the requested size with no byte written. |
| Construction.AllocLayer | func/neural_net.h:66-67 | A fresh layer allocation with `ncount` written and no node written yet. |
| Construction.ZeroedNode | func/neural_net.h:69-76 | The template node has the node size, zero bias, zero output, `wcount == weightCount` and all weights zero. The loop is proved against the template images. |
| Construction.PartialStart | func/neural_net.h:66-67 | A fresh layer with `ncount` written is the partial layer with no node copied. |
| Construction.PartialStep | func/neural_net.h:80-82 | Copying the zeroed node to `sizeof(Layer) + j*nodeSize` extends the run of copied nodes from j to j+1 and leaves the rest unwritten. The destination lies inside the allocation. |
| Construction.PartialEnd | func/neural_net.h:80-86 | After `ncount` copies the allocation is the full layer image. |
| Construction.FreshLayer | func/neural_net.h:64-87 | A layer allocation holding the fresh image has the allocated size and is a well-formed layer of zeroed nodes. |
| Construction.CreateInputLayer | func/neural_net.h:36-61 | createInputLayer returns a fresh layer of `inpCount` nodes with zero bias, zero output and `wcount` 0, copied at stride `sizeof(Node)`. |
| Construction.CreateLayer | func/neural_net.h:64-87 | createLayer returns a fresh layer of `nodeCount` copies of the zeroed node of `weightCount` weights, node j at `j*nodeSize`. The last node ends at the allocated size. |
| NeuralNet.DrawsDistinct | func/neural_net.h:159-170 | Within a layer, every weight and every bias of every node gets a call of rand() of its own. |
| NeuralNet.DrawsInRange | func/neural_net.h:159-170 | The calls for a layer of `ncount` nodes are exactly the `ncount*(wcount+1)` that follow its cursor. |
| NeuralNet.WeightValue | func/neural_net.h:164-165 | A weight is `0.7` times its draw up to sign. For a non-negative draw it is non-negative at even positions and non-positive at odd ones. |
| NeuralNet.BiasValue | func/neural_net.h:169-170 | A bias is its draw up to sign. For a non-negative draw it is non-negative at even nodes and non-positive at odd ones. |
| NeuralNet.InitializedSigns | func/neural_net.h:163-170 | With draws in [0,1], weight i of every node lies in [0,0.7] when i is even and in [-0.7,0] when i is odd. The bias of node o lies in [0,1] when o is even and in [-1,0] when o is odd. |
| NeuralNet.NodeInitializedFrame | func/neural_net.h:161-170 | An initialized node whose bytes are kept stays initialized. |
| NeuralNet.InitializedFrame | func/neural_net.h:202-203 | An initialized layer whose bytes are kept stays initialized. This is how the hidden layer's values survive initWeights(OUTPUT). |
| NeuralNet.InitializedStep | func/neural_net.h:159-173 | Initializing node o in place, with nothing outside it touched, keeps nodes 0..o-1 initialized. |
| NeuralNet.SameShapeKeepsNode | func/neural_net.h:161-170 | A node stays well formed when only bias and weight values change. |
| NeuralNet.AllSameShapeTrans | func/neural_net.h:159-173 | Two rounds of bias and weight updates are again such an update. |
| NeuralNet.SameShapeKeepsLaidOut | func/neural_net.h:149-175 | All three layers stay well formed at their offsets when only bias and weight values change. |
| NeuralNet.KeptOutsideAgrees | func/neural_net.h:202-203 | A change confined to one layer region keeps every byte of a disjoint region. |
| NeuralNet.NetworkImageLayers | func/neural_net.h:91-111 | The three images placed back to back fill the area after the header. At offsets 0, inpLayerSize and inpLayerSize+hidLayerSize they hold well-formed zeroed layers of counts inp, hid and out, with fan-ins 0, inp and hid. |
| NeuralNet.NetworkImageShaped | func/neural_net.h:91-111 | The image initNetwork writes is laid out for the counts, and its input layer is zeroed. |
| NeuralNet.CopiedBackToBack | func/neural_net.h:93-108 | Three copies, each starting where the previous ended, over a buffer of their total length leave exactly the three images in order. |
| NeuralNet.LayersAfterInit | func/neural_net.h:200-203 | After initWeights(HIDDEN) and then initWeights(OUTPUT), the input layer is still zeroed and the hidden layer still holds its draws. |
| NeuralNet.OutputsStayZero | func/neural_net.h:69-72 | If a layer was written zeroed and afterwards only biases and weight values changed, every node still has `output == 0` and its original `wcount`. |
| NeuralNet.ZeroedFrame | func/neural_net.h:200-203 | A zeroed layer whose bytes are kept stays zeroed. |
| NeuralNet.Network.Create | func/neural_net.h:177-198 | Allocation and header: the stored sizes equal the computed ones, the layers area is `inpLayerSize + hidLayerSize + outLayerSize` unwritten bytes, both activations are SIGMOID and the learning rate is 0.1. |
| NeuralNet.Network.GetLayer | func/neural_net.h:113-134 | When the stored layer sizes are non-negative, the region of the requested layer's stored size that starts at getLayer's offset lies inside the layers area. Each of its bytes lies in that layer's region and in neither of the other two regions. |
| NeuralNet.Network.GetLayerPlacement | func/neural_net.h:113-134 | getLayer returns 0 for INPUT, inpLayerSize for HIDDEN and inpLayerSize+hidLayerSize otherwise. These are exactly where initNetwork puts the three layers, and the output layer ends at the end of the allocation. |
| NeuralNet.Network.ShapedLayer | func/neural_net.h:113-134 | In a laid-out network, the layer getLayer finds is well formed with its own count and fan-in. |
| NeuralNet.Network.InitWeightsStride | func/neural_net.h:151-159 | initWeights' stride (hidNodeSize for HIDDEN, outNodeSize otherwise) equals the stride getNode derives from node 0's `wcount`, so initWeights visits node o at getNode(l, o). |
| NeuralNet.Network.InitNetwork | func/neural_net.h:91-111 | After initNetwork, the layers area is the input, hidden and output layer images back to back, copied with a cursor that advances by the stored layer sizes. |
| NeuralNet.Network.InitNode | func/neural_net.h:161-170 | Weight i becomes 0.7 times draw `base+i`, negated when i is odd. The bias becomes draw `base+wcount`, negated when o is odd. Only bytes inside the node change, only as bias or weight values, and `wcount+1` draws are used. |
| NeuralNet.Network.InitLayer | func/neural_net.h:157-173 | Every node o of the layer is initialized from draw `cursor + o*(wcount+1)` at stride nodeSize. Only bias and weight values change, only inside the layer, and `ncount*(wcount+1)` draws are used. |
| NeuralNet.Network.InitWeights | func/neural_net.h:149-175 | For HIDDEN or OUTPUT, every node of the layer getLayer finds is initialized from the oracle. The network stays laid out and nothing outside that layer changes. |
| NeuralNet.CreateNetwork | func/neural_net.h:176-206 | The result has the computed header, SIGMOID twice and learning rate 0.1, and is laid out. Its input layer is zeroed. The hidden layer holds draws 0 .. hid*(inp+1)-1. The output layer holds the draws that follow. The result differs from the zeroed image initNetwork writes only in bias and weight values, so every `ncount`, `wcount` and `output` (0) is as created. |

## Left out

- `malloc` returning NULL is not modelled; every allocation succeeds. `free` is not modelled either, because a freed block is never read again.
- `int` overflow of the size products and offsets is not modelled. Sizes and offsets are unbounded integers.
- Struct padding and byte-level field layout are not modelled. Each field is one cell at the first byte of its record, and the record sizes are symbolic constants. A copy moves cells, not raw bytes.
- Floating point is not modelled. Weights, biases and draws are reals, and `0.7*d` is exact.
- `rand()` internals are replaced by an oracle indexed by call number.
- The `learningRate` and activation fields are modelled only as the values createNetwork stores. No code reads them.
- `func/gui.h` (the GTK drawing canvas) is not part of this model.
- Construction.CreateInputLayer: the stack-allocated `iln` node becomes a fresh zeroed node array of `sizeof(Node)` bytes. Its unset padding bytes are copied like any others.
- Layout.GetNode: it requires node 0 to hold a node header, because the code reads `nodes[0].wcount`. For an empty layer the code reads whatever follows the layer header, and the model does not say what.
- NeuralNet.Network.InitWeights: called only for HIDDEN and OUTPUT. With INPUT the code would take `outNodeSize` as the stride over input nodes. createNetwork never does that, so it is excluded by a precondition.
- NeuralNet.Network.GetLayer: the default branch also catches enum values outside INPUT, HIDDEN and OUTPUT. The model's enum has only the three values, so OUTPUT stands for the default branch.
- Where the code and its documented behaviour differ, the model follows the code:
  - getNode checks no bounds;
  - draws may equal 1, because `rand()` may return `RAND_MAX`.
