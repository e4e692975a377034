# Huffman tree: heap, build loop and decoder

This project models the `HuffmanTree` class of `huffman/code/huffman.cpp` and
proves properties of that model in Dafny.

- **Min-heap.** An array-backed binary min-heap of nodes is keyed on
  frequency. Its operations are `bubble_up`, `bubble_down`, `heap_insert`
  and `pop`.
- **Building the tree.** `insert_freq` pushes leaves onto the heap.
  `build_tree` then pops two nodes at a time and pushes the node that joins
  them, until at most one node is left. That node becomes the root.
- **Decoding.** `decode` walks the built tree bit by bit. `decode_helper`
  turns a string of `'0'`/`'1'` characters into those bits first.

## Layout

- `nodes.dfy` (module `Nodes`): the node value and what a collection of
  nodes holds.
  - `Bag` is the multiset of leaves under a collection and `Total` is the sum
    of its nodes' frequencies.
  - `WellFormed` is what the build loop guarantees of every node it makes.
  - Lemmas show that one merge round keeps both `Bag` and `Total`.
- `heap_order.dfy` (module `HeapOrder`): the heap order, with parent
  `(i-1)/2` and children `2i+1` and `2i+2`.
  - `HeapAbove` and `HeapBelow` are the orders that hold while a node moves
    up or down.
  - The one-step lemmas are what the swap loops rely on.
- `codes.dfy` (module `Codes`): the decode walk `Walk` and the result of
  decoding `DecodeTree`.
  - The tree's own codes are `Code` and `Encode`, with `Follow` for paths.
  - The round trip between encoding and decoding is proved here.
  - So is the as-written walk that uses the `'\0'` sentinel (see Findings).
- `huffman_tree.dfy` (module `Huffman`): the class `HuffmanTree`.
  - Its fields are `heap` (a `seq<Node>` that the methods reassign in place)
    and `root`.
  - It has two ghost fields: `Inserted` (the leaves inserted so far) and
    `Built`.
  - Its invariant is `Valid()`.

### Differences from the source

- **Nodes.** Nodes are immutable values. In the source, a node's children
  are set once, right after it is created, and never change. A node also
  carries an explicit leaf/internal tag instead of the sentinel character.
- **Decoding with no tree.** `decode` dereferences the root's child before
  it checks anything. On a null root, or on a root that is a single leaf,
  that is undefined behaviour in the source. The model returns the errors
  `EmptyTree` and `SingleLeafTree` instead. With no bits at all nothing is
  dereferenced, so the model returns an empty output whatever the root is.
- **Output.** Instead of printing decoded symbols to standard output, the
  model returns them as a sequence.

## Model

| member | source | states |
|---|---|---|
| Huffman.HuffmanTree.constructor | huffman/code/huffman.cpp:97 | a new tree has no root and an empty heap, and satisfies the invariant |
| Huffman.HuffmanTree.BubbleUp | huffman/code/huffman.cpp:27-42 | starting from a heap whose only fault is between `index` and its parent, swapping upwards leaves a valid min-heap with the same nodes |
| Huffman.HuffmanTree.BubbleDown | huffman/code/huffman.cpp:44-72 | starting from a heap whose only fault is between `index` and its children, swapping with the lighter child leaves a valid min-heap with the same nodes |
| Huffman.HuffmanTree.HeapInsert | huffman/code/huffman.cpp:74-78 | the heap stays a min-heap, grows by exactly one, and its multiset gains exactly the node |
| Huffman.HuffmanTree.Pop | huffman/code/huffman.cpp:80-93 | an empty heap gives None and is unchanged. Otherwise it returns the old slot 0, a node no heavier than any node in the heap; the heap shrinks by one, loses exactly that node, and is a min-heap again |
| HeapOrder.RootIsMin | huffman/code/huffman.cpp:80-93 | slot 0 of a min-heap is no heavier than any other slot |
| HeapOrder.PopsInOrder | huffman/code/huffman.cpp:44-93 | after a pop, the next node popped (the new slot 0) is no lighter than the first |
| HeapOrder.TwoLightest | huffman/code/huffman.cpp:132-133 | two pops in a row remove two nodes in non-decreasing order of frequency, and together they are exactly what was removed |
| HeapOrder.UpStep | huffman/code/huffman.cpp:28-36 | one upward swap moves the only fault of the heap to the parent's slot |
| HeapOrder.UpDone | huffman/code/huffman.cpp:28-41 | the upward loop stops with a valid heap, at slot 0 or below a parent that is no heavier |
| HeapOrder.DownStep | huffman/code/huffman.cpp:47-65 | one swap with the lightest, strictly lighter child moves the only fault to that child's slot |
| HeapOrder.DownDone | huffman/code/huffman.cpp:60-70 | the downward loop stops with a valid heap once no child is strictly lighter |
| HeapOrder.PushAbove | huffman/code/huffman.cpp:76-77 | a node appended to a heap is the only possible fault, and it is between the last slot and its parent |
| HeapOrder.LastToRoot | huffman/code/huffman.cpp:85-87 | moving the last node to slot 0 and dropping the last slot removes exactly the old slot 0 and leaves a fault only below slot 0 |
| Huffman.HuffmanTree.InsertFreq | huffman/code/huffman.cpp:100-104 | inserting a leaf before the build keeps the invariant, appends the leaf to the inserted leaves, and adds it to the heap's multiset |
| Huffman.InsertHolds | huffman/code/huffman.cpp:100-104 | pushing a leaf keeps the heap holding exactly the inserted leaves and their total frequency |
| Huffman.HuffmanTree.MergeLightest | huffman/code/huffman.cpp:131-139 | one round removes the lightest node and then the lightest of the rest, and pushes an internal node. That node's left child is the first node popped, its right child the second, and its frequency their sum. The heap shrinks by exactly one and still holds the inserted leaves and their total |
| Huffman.MergeHolds | huffman/code/huffman.cpp:130-140 | one round keeps the heap ordered and well formed, and keeps its leaves and total frequency. The two popped nodes came from the heap, and the pushed node replaces exactly them |
| Nodes.MergeKeeps | huffman/code/huffman.cpp:132-139 | replacing two nodes with the node that joins them keeps the collection's leaves and total frequency, and keeps every node well formed |
| Nodes.BagTotalPerm | huffman/code/huffman.cpp:25 | a collection's leaves and total frequency do not depend on the order its nodes are kept in |
| Nodes.Pushed | huffman/code/huffman.cpp:76 | pushing a node adds exactly its leaves and its frequency |
| Nodes.WellFormedFreq | huffman/code/huffman.cpp:135-137 | in a well-formed tree, every node's frequency is the sum of the frequencies of the leaves beneath it |
| Huffman.HuffmanTree.BuildTree | huffman/code/huffman.cpp:129-146 | keeps the invariant and ends with at most one node in the heap. With nothing inserted the heap is empty and the root unset. Otherwise the root is the one node left in `heap[0]`: a well-formed tree whose leaves are exactly the inserted leaves and whose frequency is their total. A single inserted leaf is the root itself, and a second call changes nothing |
| Huffman.Finished | huffman/code/huffman.cpp:142-145 | once at most one node is left, the heap is empty exactly when nothing was inserted; otherwise its node is a well-formed tree over exactly the inserted leaves, weighing their total |
| Nodes.SoleNode | huffman/code/huffman.cpp:142-145 | a well-formed node that holds exactly the leaves of the inserted collection has their total frequency, and a single inserted leaf is that node |
| Codes.Walk | huffman/code/huffman.cpp:150-167 | the decode walk (1 goes right, 0 goes left, a leaf emits its symbol and returns to the root) emits at most one symbol per bit |
| Huffman.HuffmanTree.Decode | huffman/code/huffman.cpp:149-170 | the loop with its `current` cursor returns exactly what the walk over the bits decodes. A missing root or a leaf root is an error unless there are no bits |
| Huffman.HuffmanTree.DecodeHelper | huffman/code/huffman.cpp:172-183 | a bit string decodes as the bits where `'1'` is true and any other character false |
| Codes.CodeLeadsToLeaf | huffman/code/huffman.cpp:153-165 | a symbol has a code in the tree exactly when it is on a leaf, and following its code ends at a leaf holding it |
| Codes.EncodeDefined | huffman/code/huffman.cpp:153-165 | a message can be encoded exactly when every symbol in it is on a leaf |
| Codes.WalkCode | huffman/code/huffman.cpp:153-166 | reading a symbol's code emits that symbol and puts the walk back at the root |
| Codes.WalkEncode | huffman/code/huffman.cpp:150-167 | decoding an encoded message followed by further bits gives the message, then whatever those bits decode to |
| Codes.UnfinishedPathSilent | huffman/code/huffman.cpp:151-167 | trailing bits that stop on an internal node emit nothing |
| Codes.DecodeRoundTrip | huffman/code/huffman.cpp:149-167 | for a tree whose root is internal, a message whose symbols are all on leaves can be encoded; its encoding, followed by any unfinished path, decodes to exactly that message |
| Codes.PrefixFree | huffman/code/huffman.cpp:153-166 | once a path reaches a leaf, no longer path can be followed, so no leaf's code is a prefix of another code |
| Codes.WalkAsWrittenAgrees | huffman/code/huffman.cpp:8-16 | when no leaf holds `'\0'`, the walk that uses the sentinel character agrees with the tagged walk |
| Codes.NulLeafLost | huffman/code/huffman.cpp:162 | a leaf holding `'\0'` has a one-bit code, but the sentinel walk decodes that bit to nothing and faults on the next bit |

## Left out

- `main`, `get_args` and `print_heap`: these are the command loop on
  standard input, tokenising and console output. They are not part of this
  model.
- Printing: `decode` writes each symbol and a final newline to standard
  output. The model returns the decoded symbols instead, without the
  newline.
- `decode_helper` on an empty string returns before `decode` is called, so
  not even the newline is printed. The model returns an empty result, as it
  does for an empty bit sequence.
- `decode` takes a raw `bool*` and a size. The model takes the bits as a
  sequence, which is always as long as it says.
- Memory management: `new`, `delete[]`, the missing destructor and the
  leaked nodes are not modelled. Nodes are values, and the pointer identity
  of the root in `heap[0]` is modelled as equality of values.
- Huffman.HuffmanTree.InsertFreq: it requires that the tree is not yet
  built. The source's comment at line 99 forbids calling `insert_freq` after
  `build_tree`, and the source does not define what happens then.
- Tie-break: the model does not say which node is chosen among nodes of
  equal frequency. The model runs the source's own comparisons, but its
  contracts promise only a node of least frequency.
- Huffman.HuffmanTree.BuildTree: frequencies are unbounded integers. The
  sum `left->freq + right->freq` is a 32-bit `int` in the source and could
  overflow for large inputs. The model does not capture that overflow.
- Optimality: the source makes no promise that the codes it builds are
  optimal, so no such claim is modelled.

## Findings

| source | as written | input that shows it | evidently intended | confidence | as-written member | corrected member |
|---|---|---|---|---|---|---|
| huffman/code/huffman.cpp:8-16, 162 | a node counts as internal when its character is `'\0'`, so a leaf for the symbol `'\0'` is taken for an internal node | insert `'\0'` with frequency 0 and `'a'` with frequency 1, build, then decode the bit `0`: nothing is emitted; decoding `0 0` steps out of that leaf into a null child | every inserted symbol decodes back from its own code | low, because the comment at line 8 states the sentinel on purpose; not executed | Codes.WalkAsWritten, Codes.NulLeafLost | Codes.Walk, Codes.DecodeRoundTrip |
