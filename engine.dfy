/** The public façade (`HuffmanTree`): a code table built from a text or given
    directly, with encoding and decoding through it. */
module HuffmanEngine {
  import opened WeightSums
  import opened HuffmanNode
  import opened FrequencyCounter
  import opened TreeCompressor
  import opened CodeExtractor
  import Coding

  /** `root` is a full tree over the counts of `text`: its leaves are
      exactly the characters of `text`, each with its number of
      appearances, and its weight is the length of `text`. Which merges
      built it is recorded by `MergedGreedily`. */
  ghost predicate TreeOf(root: Node, text: string)
  {
    && WellFormed(root) && DistinctLeaves(root)
    && root.value == |text|
    && (forall l :: l in Leaves(root) ==> l.Leaf? && l.ch in text && l.value == multiset(text)[l.ch])
    && (forall c :: c in text ==> Leaf(c, multiset(text)[c]) in Leaves(root))
  }

  /** The forest `new` starts from: one leaf per character of `text`,
      stored with its number of appearances. */
  ghost function TextForest(text: string): (f: map<Node, int>)
    ensures forall n :: n in f <==> n.Leaf? && n.ch in text && n.value == multiset(text)[n.ch]
    ensures forall n :: n in f ==> f[n] == n.value
  {
    map n | n in (set c | c in text :: Leaf(c, multiset(text)[c])) :: n.value
  }

  /** `root` is what the compressor can build from the leaves of `text`:
      each merge takes a tree of least value and then one of least value
      among the rest. */
  ghost predicate MergedGreedily(root: Node, text: string)
  {
    exists steps :: GreedyMerges(TextForest(text), steps, map[root := root.value])
  }

  class HuffmanTree {
    /** The text the table was built from, absent for a decoder. */
    const originalText: Option<string>
    /** The code table used for encoding and decoding. */
    const codeTable: map<char, string>

    /** `HuffmanTree::new`: count the characters of the text, make a leaf per
        character, merge them into one tree and read the codes off it. An
        empty text makes the program panic (the forest has no node to
        return), as does a text longer than `i32::MAX` (the counts and
        sums overflow). */
    constructor New(originalText: string)
      requires 0 < |originalText| <= I32Max
      ensures this.originalText == Some(originalText)
      ensures forall c :: c in codeTable <==> c in originalText
      ensures PrefixFree(codeTable) && Injective(codeTable)
      ensures |codeTable| >= 2 ==> NonEmptyCodes(codeTable)
      ensures |codeTable| == 1 ==> forall c :: c in codeTable ==> codeTable[c] == []
      ensures exists root :: TreeOf(root, originalText) && MergedGreedily(root, originalText) && codeTable == Codes(root, [])
    {
      CountsBounded(originalText);
      var originalTextDictionary := InputToDictionary(originalText);
      var nodesDictionary := CharDictionaryToNodeDictionary(originalTextDictionary);
      LeafForestIsValid(originalTextDictionary, nodesDictionary);
      assert Leaf(originalText[0], originalTextDictionary[originalText[0]]) in nodesDictionary;
      LeafForestLeaves(nodesDictionary);
      var rootNode := HuffmanCompress(nodesDictionary);
      CompressedFromText(originalText, originalTextDictionary, nodesDictionary, rootNode);
      LeavesOfTextTree(originalText, originalTextDictionary, nodesDictionary, rootNode);
      var huffmanCode := IterateTree(rootNode);
      TableOfTextTree(originalText, rootNode, huffmanCode);
      this.originalText := Some(originalText);
      this.codeTable := huffmanCode;
    }

    /** `HuffmanTree::new_decoder`: a decoder over a given table, without a
        text. */
    constructor NewDecoder(codeTable: map<char, string>)
      ensures this.originalText == None && this.codeTable == codeTable
    {
      this.originalText := None;
      this.codeTable := codeTable;
    }

    /** `get_code_table`: a copy of the table. */
    method GetCodeTable() returns (table: map<char, string>)
      ensures table == codeTable
    {
      table := codeTable;
    }

    /** `get_original_text`: the text the table was built from; the program
        panics for a decoder, which has none. */
    method GetOriginalText() returns (text: string)
      requires originalText.Some?
      ensures Some(text) == originalText
    {
      text := originalText.value;
    }

    /** `HuffmanTree::encode`: the message encoded with the table. */
    method Encode(message: string) returns (encoded: string)
      requires Coding.Encodable(codeTable, message)
      ensures encoded == Coding.Encode(codeTable, message)
    {
      encoded := Coding.HuffmanEncode(codeTable, message);
    }

    /** `HuffmanTree::decode`: the bits decoded greedily with a reversal of
        the table (any one, when codes are shared); for a table with
        prefix-free, distinct, non-empty codes this undoes `Encode`. */
    method Decode(codedMessage: string) returns (decoded: string)
      ensures exists rev :: Coding.Reverts(codeTable, rev) && decoded == Coding.Greedy(rev, [], codedMessage)
      ensures Injective(codeTable) ==> decoded == Coding.Decode(codeTable, codedMessage)
      ensures PrefixFree(codeTable) && Injective(codeTable) && NonEmptyCodes(codeTable) ==>
        forall m :: Coding.Encodable(codeTable, m) && codedMessage == Coding.Encode(codeTable, m) ==> decoded == m
      ensures forall i :: 0 <= i < |decoded| ==> decoded[i] in codeTable
    {
      decoded := Coding.HuffmanDecode(codeTable, codedMessage);
      if PrefixFree(codeTable) && Injective(codeTable) && NonEmptyCodes(codeTable) {
        forall m | Coding.Encodable(codeTable, m) && codedMessage == Coding.Encode(codeTable, m) ensures decoded == m {
          Coding.DecodeEncode(codeTable, m);
        }
      }
    }
  }

  /** A text no longer than `i32::MAX` has no count past `i32::MAX`. */
  lemma CountsBounded(text: string)
    requires |text| <= I32Max
    ensures forall c :: multiset(text)[c] <= I32Max
  {
    forall c ensures multiset(text)[c] <= I32Max {
      assert multiset(text)[c] <= |multiset(text)|;
    }
  }

  /** The forest made from a text's counts is the text's leaf forest. */
  lemma TextForestOf(text: string, dict: map<char, int>, nodes: map<Node, int>)
    requires forall c :: c in dict <==> c in text
    requires forall c :: c in dict ==> dict[c] == multiset(text)[c]
    requires forall n :: n in nodes ==> n.Leaf? && n.ch in dict && n.value == dict[n.ch]
    requires forall c :: c in dict ==> Leaf(c, dict[c]) in nodes
    requires forall n :: n in nodes ==> nodes[n] == n.value
    ensures nodes == TextForest(text)
  {
    var f := TextForest(text);
    forall n | n in f ensures n in nodes {
      assert Leaf(n.ch, dict[n.ch]) in nodes;
    }
    assert nodes.Keys == f.Keys;
  }

  /** A tree the compressor builds from the forest of a text's counts is
      built greedily from the text's leaves. */
  lemma CompressedFromText(text: string, dict: map<char, int>, nodes: map<Node, int>, root: Node)
    requires forall c :: c in dict <==> c in text
    requires forall c :: c in dict ==> dict[c] == multiset(text)[c]
    requires forall n :: n in nodes ==> n.Leaf? && n.ch in dict && n.value == dict[n.ch]
    requires forall c :: c in dict ==> Leaf(c, dict[c]) in nodes
    requires forall n :: n in nodes ==> nodes[n] == n.value
    requires exists steps :: GreedyMerges(nodes, steps, map[root := root.value])
    ensures MergedGreedily(root, text)
  {
    TextForestOf(text, dict, nodes);
  }

  /** A tree whose leaves are those made from a text's counts has exactly
      the text's characters, each with its number of appearances. */
  lemma LeavesOfTextTree(text: string, dict: map<char, int>, nodes: map<Node, int>, root: Node)
    requires forall c :: c in dict <==> c in text
    requires forall c :: c in dict ==> dict[c] == multiset(text)[c] >= 1
    requires forall n :: n in nodes ==> n.Leaf? && n.ch in dict && n.value == dict[n.ch]
    requires forall c :: c in dict ==> Leaf(c, dict[c]) in nodes
    requires Leaves(root) == nodes.Keys
    requires WellFormed(root) && DistinctLeaves(root) && root.value == |text|
    ensures TreeOf(root, text)
    ensures forall c :: c in LeafChars(root) <==> c in text
  {
    LeafCharsOfLeaves(root);
    forall c | c in text ensures Leaf(c, multiset(text)[c]) in Leaves(root) && c in LeafChars(root) {
      assert Leaf(c, dict[c]) in nodes;
    }
    forall c | c in LeafChars(root) ensures c in text {
      var l :| l in Leaves(root) && l.ch == c;
    }
  }

  /** The code table read off a full tree over a text's counts has a code for
      exactly the text's characters; the codes are prefix-free and
      distinct, non-empty when the text has two or more distinct
      characters, and empty for its one character otherwise. */
  lemma TableOfTextTree(text: string, root: Node, table: map<char, string>)
    requires TreeOf(root, text)
    requires forall c :: c in LeafChars(root) <==> c in text
    requires table == Codes(root, [])
    ensures forall c :: c in table <==> c in text
    ensures PrefixFree(table) && Injective(table)
    ensures |table| >= 2 ==> NonEmptyCodes(table)
    ensures |table| == 1 ==> forall c :: c in table ==> table[c] == []
  {
    CodesPrefixFree(root, []);
    CodesNonEmpty(root);
    if root.Leaf? {
      assert table.Keys == {root.ch};
    }
  }

  /** The code table of the program's example. */
  function ExampleTable(): (t: map<char, string>)
  {
    map['o' := "100", 'l' := "01", 'e' := "111", ' ' := "0000", '!' := "110",
        'w' := "101", 'd' := "0011", 'H' := "0010", 'r' := "0001"]
  }

  /** The example of `main`: a decoder over the fixed table encodes
      "Hello world!" to 37 bits and decodes those bits back. */
  method HelloWorld() returns (encodedMessage: string, decodedMessage: string)
    ensures encodedMessage == "0010111010110000001011000001010011110"
    ensures decodedMessage == "Hello world!"
  {
    var huffmanTree := new HuffmanTree.NewDecoder(ExampleTable());
    ExampleTableIsPrefixCode();
    var message := "Hello world!";
    ExampleEncoding();
    encodedMessage := huffmanTree.Encode(message);
    decodedMessage := huffmanTree.Decode("0010111010110000001011000001010011110");
  }

  /** The example message encodes to the bits the program decodes. */
  lemma ExampleEncoding()
    ensures Coding.Encodable(ExampleTable(), "Hello world!")
    ensures Coding.Encode(ExampleTable(), "Hello world!") == "0010111010110000001011000001010011110"
  {
    ExampleEncodingHello();
    ExampleEncodingWorld();
    ExampleHalves();
    ExampleJoin("Hello ", "world!", "Hello world!", "001011101011000000", "1011000001010011110", "0010111010110000001011000001010011110");
  }

  /** The two halves of the example message and of its encoding. */
  lemma ExampleHalves()
    ensures "Hello " + "world!" == "Hello world!"
    ensures "001011101011000000" + "1011000001010011110" == "0010111010110000001011000001010011110"
  {
  }

  lemma ExampleEncodingHello()
    ensures Coding.Encodable(ExampleTable(), "Hello ")
    ensures Coding.Encode(ExampleTable(), "Hello ") == "001011101011000000"
  {
    ExampleEncodingHel();
    ExampleEncodingLo();
    ExampleJoin("Hel", "lo ", "Hello ", "001011101", "011000000", "001011101011000000");
  }

  lemma ExampleEncodingWorld()
    ensures Coding.Encodable(ExampleTable(), "world!")
    ensures Coding.Encode(ExampleTable(), "world!") == "1011000001010011110"
  {
    ExampleEncodingWor();
    ExampleEncodingLd();
    ExampleJoin("wor", "ld!", "world!", "1011000001", "010011110", "1011000001010011110");
  }

  lemma ExampleEncodingHel()
    ensures Coding.Encodable(ExampleTable(), "Hel")
    ensures Coding.Encode(ExampleTable(), "Hel") == "001011101"
  {
    ExampleStep('l', "", "01", "", "01");
    ExampleStep('e', "l", "111", "01", "11101");
    ExampleStep('H', "el", "0010", "11101", "001011101");
  }

  lemma ExampleEncodingLo()
    ensures Coding.Encodable(ExampleTable(), "lo ")
    ensures Coding.Encode(ExampleTable(), "lo ") == "011000000"
  {
    ExampleStep(' ', "", "0000", "", "0000");
    ExampleStep('o', " ", "100", "0000", "1000000");
    ExampleStep('l', "o ", "01", "1000000", "011000000");
  }

  lemma ExampleEncodingWor()
    ensures Coding.Encodable(ExampleTable(), "wor")
    ensures Coding.Encode(ExampleTable(), "wor") == "1011000001"
  {
    ExampleStep('r', "", "0001", "", "0001");
    ExampleStep('o', "r", "100", "0001", "1000001");
    ExampleStep('w', "or", "101", "1000001", "1011000001");
  }

  lemma ExampleEncodingLd()
    ensures Coding.Encodable(ExampleTable(), "ld!")
    ensures Coding.Encode(ExampleTable(), "ld!") == "010011110"
  {
    ExampleStep('!', "", "110", "", "110");
    ExampleStep('d', "!", "0011", "110", "0011110");
    ExampleStep('l', "d!", "01", "0011110", "010011110");
  }

  /** Two encoded pieces of the example message put together. */
  lemma ExampleJoin(a: string, b: string, ab: string, bitsA: string, bitsB: string, bitsAB: string)
    requires Coding.Encodable(ExampleTable(), a) && Coding.Encode(ExampleTable(), a) == bitsA
    requires Coding.Encodable(ExampleTable(), b) && Coding.Encode(ExampleTable(), b) == bitsB
    requires a + b == ab && bitsA + bitsB == bitsAB
    ensures Coding.Encodable(ExampleTable(), ab) && Coding.Encode(ExampleTable(), ab) == bitsAB
  {
    Coding.EncodeAppend(ExampleTable(), a, b);
  }

  /** One character of the example message put in front of an encoded rest. */
  lemma ExampleStep(c: char, rest: string, code: string, restBits: string, bits: string)
    requires c in ExampleTable() && ExampleTable()[c] == code
    requires Coding.Encodable(ExampleTable(), rest) && Coding.Encode(ExampleTable(), rest) == restBits
    requires code + restBits == bits
    ensures Coding.Encodable(ExampleTable(), [c] + rest)
    ensures Coding.Encode(ExampleTable(), [c] + rest) == bits
  {
    assert ([c] + rest)[1..] == rest;
  }

  /** A tree whose code table is the example table. */
  function ExampleTree(): (root: Node)
  {
    Internal(12,
      Internal(5,
        Internal(2, Leaf('e', 1), Leaf('!', 1)),
        Internal(3, Leaf('w', 1), Leaf('o', 2))),
      Internal(7,
        Leaf('l', 3),
        Internal(4,
          Internal(2, Leaf('d', 1), Leaf('H', 1)),
          Internal(2, Leaf('r', 1), Leaf(' ', 1)))))
  }

  /** The example table is read off a tree with distinct leaves, so its
      codes are prefix-free, distinct and non-empty. */
  lemma ExampleTableIsPrefixCode()
    ensures ExampleTable() == Codes(ExampleTree(), [])
    ensures PrefixFree(ExampleTable()) && Injective(ExampleTable()) && NonEmptyCodes(ExampleTable())
  {
    assert DistinctLeaves(ExampleTree());
    ExampleCodes();
    CodesPrefixFree(ExampleTree(), []);
    CodesNonEmpty(ExampleTree());
  }

  lemma ExampleCodes()
    ensures Codes(ExampleTree(), []) == ExampleTable()
  {
    var table := Codes(ExampleTree(), "");
    var high := map['e' := "111", '!' := "110", 'w' := "101", 'o' := "100"];
    var low := map['l' := "01"] + map['d' := "0011", 'H' := "0010", 'r' := "0001", ' ' := "0000"];
    ExampleHighCodes();
    ExampleLowCodes();
    assert AddBit1("") == "1" && AddBit0("") == "0";
    assert table == high + low;
    ExampleTableSplits();
  }

  lemma ExampleTableSplits()
    ensures ExampleTable() ==
      map['e' := "111", '!' := "110", 'w' := "101", 'o' := "100"] +
      (map['l' := "01"] + map['d' := "0011", 'H' := "0010", 'r' := "0001", ' ' := "0000"])
  {
    var table :=
      map['e' := "111", '!' := "110", 'w' := "101", 'o' := "100"] +
      (map['l' := "01"] + map['d' := "0011", 'H' := "0010", 'r' := "0001", ' ' := "0000"]);
    assert table.Keys == ExampleTable().Keys;
    forall c | c in table ensures table[c] == ExampleTable()[c] {
      assert c in {'o', 'l', 'e', ' ', '!', 'w', 'd', 'H', 'r'};
    }
  }

  lemma ExampleHighCodes()
    ensures Codes(ExampleTree().c0, "1") == map['e' := "111", '!' := "110", 'w' := "101", 'o' := "100"]
  {
    var high := ExampleTree().c0;
    assert AddBit1("1") == "11" && AddBit0("1") == "10";
    assert AddBit1("11") == "111" && AddBit0("11") == "110";
    assert AddBit1("10") == "101" && AddBit0("10") == "100";
    assert Codes(high.c0, "11") == map['e' := "111", '!' := "110"];
    assert Codes(high.c1, "10") == map['w' := "101", 'o' := "100"];
  }

  lemma ExampleLowCodes()
    ensures Codes(ExampleTree().c1, "0") == map['l' := "01"] + map['d' := "0011", 'H' := "0010", 'r' := "0001", ' ' := "0000"]
  {
    assert AddBit1("0") == "01" && AddBit0("0") == "00";
    ExampleLowestCodes();
  }

  lemma ExampleLowestCodes()
    ensures Codes(ExampleTree().c1.c1, "00") == map['d' := "0011", 'H' := "0010", 'r' := "0001", ' ' := "0000"]
  {
    var lowest := ExampleTree().c1.c1;
    assert AddBit1("00") == "001" && AddBit0("00") == "000";
    assert AddBit1("001") == "0011" && AddBit0("001") == "0010";
    assert AddBit1("000") == "0001" && AddBit0("000") == "0000";
    assert Codes(lowest.c0, "001") == map['d' := "0011", 'H' := "0010"];
    assert Codes(lowest.c1, "000") == map['r' := "0001", ' ' := "0000"];
  }
}
