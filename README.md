# Huffman prefix-code engine in Dafny

This project models the Huffman engine of `src/main.rs`:

- **Frequency table.** A text becomes a table from each character to its number of appearances.
- **Forest of leaves.** The table becomes a forest with one leaf per character.
- **Compressor.** The forest is merged into one binary tree by repeatedly joining the two nodes of lowest value.
- **Code extraction.** The code table is read off the tree with a worklist: child 0 adds a `1` bit and child 1 adds a `0` bit.
- **Messages.** Messages are encoded by concatenating codes. They are decoded by collecting bits until they form a code.
- **`HuffmanTree`.** This type bundles a table with the text it came from, or with nothing when it is a decoder over a given table.

The modules are:

- `WeightSums` (`sums.dfy`): sums of map values.
- `HuffmanNode` (`node.dfy`): the `Node` datatype and its constructors.
- `FrequencyCounter` (`frequency.dfy`).
- `TreeCompressor` (`compressor.dfy`).
- `CodeExtractor` (`codes.dfy`).
- `Coding` (`coding.dfy`): encoding and decoding.
- `HuffmanEngine` (`engine.dfy`): the `HuffmanTree` class and the example of `main`.

The functions that compute values are modelled as follows:

- Loops become methods with loop invariants. What a method computes is stated in its `ensures`, in one of three ways:
  - directly, as with the counts of `InputToDictionary` (by `multiset`) and the leaves of `CharDictionaryToNodeDictionary`;
  - by a predicate, as with `ListsLowestNodes` for `GetMinimumValue`, `ValidForest` and `GreedyMerges` for `HuffmanCompress`, and `Reverts` for `RevertHuffmanCode`;
  - by a function that defines the result, as with `Codes` for `IterateTree`, `Encode` for `HuffmanEncode` and `Greedy` for `HuffmanDecode`.
- A `HashMap` becomes a Dafny `map`.
- The map's iteration order is modelled by choosing an arbitrary remaining key with `:|`. So every proved property holds whatever order the program visits keys in.
- Panics become preconditions. These are:
  - an empty forest;
  - a parent built from a number of children other than two;
  - a character without a code;
  - `get_original_text` on a decoder.
- `i32` overflow is also excluded by preconditions. A build with overflow checks panics on it, and a release build wraps around.

The main results are:

- `HuffmanTree.New` produces a table with a code for exactly the characters of the text. Its codes are prefix-free and distinct.
- That table is read off a tree built by greedy merges: each merge joins a tree of least value and a tree of least value among the rest (`GreedyMerges`).
- The codes are non-empty when the text has at least two distinct characters.
- When the text has only one distinct character, that character gets the empty code. For such a text the round trip fails: `Coding.SingleCodeLosesMessage`.
- For a prefix-free, injective table with non-empty codes, decoding an encoding gives the message back (`Coding.DecodeEncode`).
- Trailing bits that only start a code are dropped (`Coding.TrailingBitsDropped`).
- On the fixed table of `main`, `"Hello world!"` encodes to `0010111010110000001011000001010011110`, and those bits decode back to `"Hello world!"`.

## Model

| member | source | states |
|---|---|---|
| HuffmanNode.NewLeaf | src/main.rs:239-246 | the result is a leaf holding the character and its count; a single leaf is well formed with one character |
| HuffmanNode.NewParent | src/main.rs:252-263 | exactly two children are demanded (the panic otherwise); the parent keeps child 0 and child 1 in order; its leaves are the union of theirs; it is well formed iff its value is the sum of the children's values and both children are well formed |
| HuffmanNode.GetValue | src/main.rs:266-268 | for a well-formed node the value is the total count of the leaves below it |
| HuffmanNode.LeafWeightOfWellFormed | src/main.rs:230-233 | a node whose internal values are sums of their children's values carries the total weight of its leaves |
| FrequencyCounter.InputToDictionary | src/main.rs:133-146 | the table has a key exactly for each character of the input; each value is the character's number of appearances (at least 1); the values add up to the input's length |
| FrequencyCounter.CountsSnoc | src/main.rs:136-143 | one more character adds one to its count (or inserts 1) and changes no other count |
| FrequencyCounter.CountsStep | src/main.rs:136-143 | counting the next character gives the counts of the longer prefix and a total one larger; when the whole text has no count past `i32::MAX`, the `+= 1` cannot overflow |
| HuffmanEngine.CountsBounded | src/main.rs:133-146 | a text of at most `i32::MAX` characters has no count past `i32::MAX`, so the counter cannot overflow |
| TreeCompressor.CharDictionaryToNodeDictionary | src/main.rs:149-160 | every node of the result is the leaf of a character of the table, stored with its count; every character of the table has its leaf; the total weight is unchanged |
| TreeCompressor.LeafForestIsValid | src/main.rs:149-160 | a forest of one leaf per character with non-negative counts satisfies the compressor's invariant: well-formed trees, values stored beside their nodes, no character in two trees |
| TreeCompressor.LeafForestLeaves | src/main.rs:152-157 | the leaves of a forest of single leaves are exactly its nodes |
| TreeCompressor.GetMinimumValue | src/main.rs:168-190 | the result lists distinct nodes in increasing order of value; it contains every node whose value is at most a listed value; it stops at the first value held by two or more nodes, and otherwise lists the whole forest; the first node is a minimum of the forest; with two or more nodes, the second is a minimum of the rest |
| TreeCompressor.ScanStep | src/main.rs:172-180 | one node seen by the scan keeps its invariant: a smaller value restarts the list with that node, an equal value appends it, a larger one changes nothing |
| TreeCompressor.LowestIsMinimum | src/main.rs:182-189 | the first listed node holds the smallest value of the forest, and the second the smallest value of the rest |
| TreeCompressor.AllMinimumHolders | src/main.rs:169-180 | when the scan finds zero or at least two holders of the minimum, those holders alone are the result |
| TreeCompressor.AppendUniqueMinimum | src/main.rs:182-187 | the single holder of the minimum, placed before the result for the rest of the forest, gives the result for the whole forest |
| TreeCompressor.HuffmanCompress | src/main.rs:193-221 | for a non-empty valid forest with total weight at most `i32::MAX`, the root is well formed with distinct leaves; its value is the forest's total weight; its leaves are the leaves of all the forest's trees; the forest turns into that single root by a run of merges, each taking a minimum and then a minimum of the rest; no sum overflows |
| TreeCompressor.GreedyMergesSnoc | src/main.rs:197-215 | one more merge of a minimum and a next minimum extends the run of merges the loop has made |
| TreeCompressor.Merged | src/main.rs:205-208 | the merged node has the first minimum as child 0 and the second as child 1; its value is the sum of theirs; its leaves and characters are the union of theirs |
| TreeCompressor.MergeStep | src/main.rs:199-215 | one merge of two distinct trees keeps the forest invariant, the total weight and the set of leaves, and leaves one tree fewer |
| TreeCompressor.MergedIsNew | src/main.rs:211-215 | the new parent is not one of the remaining trees, so the forest shrinks by exactly one |
| TreeCompressor.SingletonForest | src/main.rs:218-220 | the single tree left holds the whole weight and all the leaves, and the forest is that tree stored with its value |
| CodeExtractor.AddBit0 | src/main.rs:103-105 | the path grows by one bit, a `0`, and keeps the old path as a proper prefix |
| CodeExtractor.AddBit1 | src/main.rs:110-112 | the path grows by one bit, a `1`, and keeps the old path as a proper prefix |
| CodeExtractor.Codes | src/main.rs:72-98 | the table read off a tree has a key exactly for each leaf character; every code extends the path the tree was reached by; below an internal node every code is strictly longer than that path |
| CodeExtractor.CodesAreBits | src/main.rs:103-112 | every code consists only of `0` and `1` |
| CodeExtractor.CodeIsPath | src/main.rs:90-92 | following a character's code from the root ('1' to child 0, '0' to child 1) reaches that character's leaf |
| CodeExtractor.CodesPrefixFree | src/main.rs:72-98 | for a tree with distinct leaf characters, no code is a proper prefix of another and no two characters share a code |
| CodeExtractor.CodesNonEmpty | src/main.rs:76-92 | a tree with an internal root gives every character a non-empty code; a lone leaf gets the empty code |
| CodeExtractor.IterateTree | src/main.rs:72-98 | the worklist loop ends and returns exactly the code table of the tree |
| CodeExtractor.ExtractLeaf | src/main.rs:82-88 | recording a leaf's path and removing the leaf keeps the loop invariant and shrinks the work left |
| CodeExtractor.ExtractSplit | src/main.rs:90-94 | replacing an internal node by its children, with the paths extended by `1` and `0`, keeps the loop invariant and shrinks the work left |
| CodeExtractor.ExtractDone | src/main.rs:78-97 | once the worklist is empty, the recorded codes are the whole table |
| Coding.EncodeAppend | src/main.rs:58-67 | encoding a concatenation of messages is the concatenation of their encodings |
| Coding.HuffmanEncode | src/main.rs:58-67 | the result is the codes of the message's characters appended in order; every character must have a code (the panic otherwise) |
| Coding.RevertHuffmanCode | src/main.rs:45-53 | the reversed table has a key exactly for each code, and maps each code to a character that has that code |
| Coding.RevertsUnique | src/main.rs:45-53 | for a table without shared codes the reversal does not depend on the order of insertion |
| Coding.Invert | src/main.rs:45-53 | a table without shared codes has a reversal |
| Coding.Greedy | src/main.rs:30-37 | the decoder only outputs characters that some code maps to |
| Coding.GreedyStep | src/main.rs:31-36 | one bit either completes a code, whose character is output and the collected bits reset, or is added to the collected bits |
| Coding.HuffmanDecode | src/main.rs:26-40 | the result is the greedy decoding of the bits with a reversal of the table; it is the decoding with the unique reversal when codes are distinct; every output character has a code |
| Coding.GreedyResumes | src/main.rs:31-36 | part-way through a code, the decoder emits the rest of the message and then decodes what follows from scratch |
| Coding.GreedyEmits | src/main.rs:33-35 | the bit that completes a character's code outputs that very character |
| Coding.GreedyContinues | src/main.rs:31-37 | starting afresh on the encoding of a message followed by more bits, the decoder outputs the message and then decodes the rest afresh |
| Coding.GreedyCompletes | src/main.rs:33-35 | the last bit of a code outputs its character and resets the collected bits |
| Coding.DecodeEncodeAppend | src/main.rs:26-40 | decoding an encoded message followed by more bits gives the message followed by the decoding of those bits |
| Coding.DecodeEncode | src/main.rs:26-67 | with prefix-free, distinct and non-empty codes, decoding the encoding of a message gives the message back |
| Coding.GreedyDropsPartial | src/main.rs:31-39 | bits that never complete a code produce no output |
| Coding.TrailingBitsDropped | src/main.rs:31-39 | trailing bits that are a proper prefix of a code decode to nothing and leave the decoded message unchanged |
| Coding.SingleCodeLosesMessage | src/main.rs:82-88 | for the table of a one-character text, which has the empty code, every message encodes to no bits and decodes to nothing |
| HuffmanEngine.LeavesOfTextTree | src/main.rs:282-284 | the compressed tree of a text has one leaf per character of the text, carrying its count, and its leaf characters are exactly the text's |
| HuffmanEngine.TableOfTextTree | src/main.rs:284-285 | the table read off that tree has a code for exactly the text's characters; its codes are prefix-free and distinct; they are non-empty for two or more distinct characters and empty for a single one |
| HuffmanEngine.HuffmanTree.New | src/main.rs:281-291 | for a non-empty text (an empty one panics), the tree keeps the text; the table has codes for exactly the text's characters, prefix-free and distinct; they are non-empty when the text has two or more distinct characters and empty otherwise; the table is read off a full tree whose leaves carry the text's counts, built from the text's leaves by merges that each take a minimum and then a minimum of the rest |
| HuffmanEngine.CompressedFromText | src/main.rs:282-284 | the forest that `new` builds from the counts is the text's own leaf forest, so a run of greedy merges from it is one from the text's leaves |
| HuffmanEngine.HuffmanTree.NewDecoder | src/main.rs:294-299 | the decoder has the given table and no original text |
| HuffmanEngine.HuffmanTree.GetCodeTable | src/main.rs:302-304 | the table is returned unchanged |
| HuffmanEngine.HuffmanTree.GetOriginalText | src/main.rs:309-316 | the original text is returned; a decoder has none (the panic) |
| HuffmanEngine.HuffmanTree.Encode | src/main.rs:319-321 | the message is encoded with the table |
| HuffmanEngine.HuffmanTree.Decode | src/main.rs:324-326 | the bits are decoded greedily with some reversal of the table, even when codes are shared; with distinct codes the reversal is unique; with prefix-free, distinct, non-empty codes this recovers any message whose encoding they are; every output character has a code |
| HuffmanEngine.ExampleTableIsPrefixCode | src/main.rs:4-14 | the fixed table of `main` is the code table of a tree with distinct leaves, so its codes are prefix-free, distinct and non-empty |
| HuffmanEngine.ExampleEncoding | src/main.rs:18-19 | under the fixed table, "Hello world!" encodes to the 37 bits that `main` decodes |
| HuffmanEngine.HelloWorld | src/main.rs:3-23 | `main` produces `0010111010110000001011000001010011110` as the compressed text and "Hello world!" as the uncompressed one |

## Left out

- Printing in `main` is not modelled. `HelloWorld` returns the two strings instead.
- The `Debug`, `Hash` and `Clone` derivations are not modelled. A Dafny datatype has value equality, which stands in for the derived `Eq`/`Hash`, and cloning is the identity on values.
- The iteration order of `HashMap` is not modelled. Keys are chosen arbitrarily with `:|`. So which of several equal-valued nodes `get_minimum_value` lists first, and hence the exact shape of the tree and its codes, is left open. Every proved property holds for every order.
- Huffman optimality (minimal weighted code length) is not stated or proved. Only the properties of the merge loop and of the codes are.
- `i32` arithmetic is modelled by preconditions that rule out overflow, not by wrap-around:
  - `HuffmanTree.New` requires at most `i32::MAX` characters.
  - `InputToDictionary` requires that no character appears more than `i32::MAX` times.
  - `HuffmanCompress` requires a valid forest with non-negative values and a total of at most `i32::MAX`.
  - `GetMinimumValue` requires values of at most `i32::MAX`, the value its scan starts from.
- HuffmanCompress: a forest with non-negative values and no character in two trees is required (`ValidForest`). Every forest built from a text satisfies this, but the function itself accepts any map.
- IterateTree: requires a tree with distinct leaf characters, which every compressed tree has. On a tree that repeats a character, the program's result depends on the map's order.
- Coding.Encode: its own contract only states that the empty message encodes to nothing. What encoding means is stated by `EncodeAppend`, `HuffmanEncode` and `DecodeEncode`.
- The round trip for a text with a single distinct character is not claimed. The program gives that character the empty code, so encoding loses the message, as `SingleCodeLosesMessage` states.
