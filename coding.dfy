/** Encoding a message with a code table and decoding a bit string with it
    (`huffman_encode`, `revert_huffman_code`, `huffman_decode`). */
module Coding {
  import opened CodeExtractor

  /** Every character of `m` has a code in `t`. */
  ghost predicate Encodable(t: map<char, string>, m: string)
  {
    forall c :: c in m ==> c in t
  }

  /** The concatenation of the codes of the characters of `m`, in order. */
  function Encode(t: map<char, string>, m: string): (r: string)
    requires Encodable(t, m)
    ensures m == [] ==> r == []
  {
    if m == [] then [] else t[m[0]] + Encode(t, m[1..])
  }

  /** Encoding distributes over concatenation of messages. */
  lemma {:induction false} EncodeAppend(t: map<char, string>, a: string, b: string)
    requires Encodable(t, a) && Encodable(t, b)
    ensures Encodable(t, a + b)
    ensures Encode(t, a + b) == Encode(t, a) + Encode(t, b)
    decreases |a|
  {
    if a == [] {
      assert a + b == b;
    } else {
      assert (a + b)[1..] == a[1..] + b;
      EncodeAppend(t, a[1..], b);
    }
  }

  /** `huffman_encode`: the codes of the message's characters appended one
      after the other; a character without a code makes the program panic. */
  method HuffmanEncode(huffmanCode: map<char, string>, messageToEncode: string) returns (encodedMessage: string)
    requires Encodable(huffmanCode, messageToEncode)
    ensures encodedMessage == Encode(huffmanCode, messageToEncode)
  {
    encodedMessage := [];
    for i := 0 to |messageToEncode|
      invariant encodedMessage == Encode(huffmanCode, messageToEncode[..i])
    {
      var c := messageToEncode[i];
      var bits := huffmanCode[c];
      assert messageToEncode[..i + 1] == messageToEncode[..i] + [c];
      EncodeAppend(huffmanCode, messageToEncode[..i], [c]);
      encodedMessage := encodedMessage + bits;
    }
    assert messageToEncode[..|messageToEncode|] == messageToEncode;
  }

  /** `rev` maps each code of `t` to a character that has that code. */
  ghost predicate Reverts(t: map<char, string>, rev: map<string, char>)
  {
    && rev.Keys == t.Values
    && forall s :: s in rev ==> rev[s] in t && t[rev[s]] == s
  }

  /** `revert_huffman_code`: every (character, code) entry is inserted the
      other way round; when two characters share a code, whichever comes
      later in the map's order wins. */
  method RevertHuffmanCode(huffmanCode: map<char, string>) returns (reverted: map<string, char>)
    ensures Reverts(huffmanCode, reverted)
  {
    reverted := map[];
    var unseen := huffmanCode.Keys;
    while unseen != {}
      invariant unseen <= huffmanCode.Keys
      invariant forall c :: c in huffmanCode && c !in unseen ==> huffmanCode[c] in reverted
      invariant forall s :: s in reverted ==>
        reverted[s] in huffmanCode && reverted[s] !in unseen && huffmanCode[reverted[s]] == s
      decreases |unseen|
    {
      var key :| key in unseen;
      var value := huffmanCode[key];
      reverted := reverted[value := key];
      unseen := unseen - {key};
    }
    assert reverted.Keys == huffmanCode.Values by {
      forall s | s in huffmanCode.Values ensures s in reverted {
        var c :| c in huffmanCode && huffmanCode[c] == s;
      }
    }
  }

  /** For a table without shared codes there is exactly one reversal. */
  lemma RevertsUnique(t: map<char, string>, r1: map<string, char>, r2: map<string, char>)
    requires Injective(t)
    requires Reverts(t, r1) && Reverts(t, r2)
    ensures r1 == r2
  {
    forall s | s in r1 ensures r1[s] == r2[s] {
      assert s in r2;
    }
  }

  /** The reversal of a table without shared codes. */
  ghost function Invert(t: map<char, string>): (rev: map<string, char>)
    requires Injective(t)
    ensures Reverts(t, rev)
  {
    map s | s in t.Values :: var c :| c in t && t[c] == s; c
  }

  /** The decoder of `huffman_decode`: bits are collected into `bits` one at
      a time and, as soon as the collected bits are a code, its character is
      output and the collection restarts. */
  function Greedy(rev: map<string, char>, bits: string, input: string): (r: string)
    ensures forall i :: 0 <= i < |r| ==> r[i] in rev.Values
    decreases |input|
  {
    if input == [] then []
    else
      var collected := bits + [input[0]];
      if collected in rev then [rev[collected]] + Greedy(rev, [], input[1..])
      else Greedy(rev, collected, input[1..])
  }

  /** The text that a table without shared codes decodes `input` to. */
  ghost function Decode(t: map<char, string>, input: string): (decoded: string)
    requires Injective(t)
  {
    Greedy(Invert(t), [], input)
  }

  /** `huffman_decode`: the table is reversed, then the bits are fed to the
      decoder one at a time; bits left over at the end that do not complete
      a code produce nothing. */
  method HuffmanDecode(huffmanCode: map<char, string>, messageToDecode: string) returns (decodedMessage: string)
    ensures exists rev :: Reverts(huffmanCode, rev) && decodedMessage == Greedy(rev, [], messageToDecode)
    ensures Injective(huffmanCode) ==> decodedMessage == Decode(huffmanCode, messageToDecode)
    ensures forall i :: 0 <= i < |decodedMessage| ==> decodedMessage[i] in huffmanCode
  {
    var reverted := RevertHuffmanCode(huffmanCode);
    decodedMessage := [];
    var bits: string := [];
    for i := 0 to |messageToDecode|
      invariant decodedMessage + Greedy(reverted, bits, messageToDecode[i..]) == Greedy(reverted, [], messageToDecode)
    {
      var bit := messageToDecode[i];
      assert messageToDecode[i..][1..] == messageToDecode[i + 1..];
      bits := bits + [bit];
      if bits in reverted {
        decodedMessage := decodedMessage + [reverted[bits]];
        bits := [];
      }
    }
    assert messageToDecode[|messageToDecode|..] == [];
    if Injective(huffmanCode) {
      RevertsUnique(huffmanCode, reverted, Invert(huffmanCode));
    }
    assert decodedMessage == Greedy(reverted, [], messageToDecode);
    forall i | 0 <= i < |decodedMessage| ensures decodedMessage[i] in huffmanCode {
      assert decodedMessage[i] in reverted.Values;
      var s :| s in reverted && reverted[s] == decodedMessage[i];
    }
  }

  /** A proper prefix of a code of a prefix-free table is no code. */
  lemma ProperPrefixIsNoCode(t: map<char, string>, rev: map<string, char>, s: string, c: char)
    requires Reverts(t, rev) && PrefixFree(t)
    requires c in t && s < t[c]
    ensures s !in rev
  {
  }

  /** One bit fed to the decoder: it completes a code and outputs its
      character, or it is collected. */
  lemma GreedyStep(rev: map<string, char>, bits: string, b: char, rest: string)
    ensures Greedy(rev, bits, [b] + rest) ==
      if bits + [b] in rev then [rev[bits + [b]]] + Greedy(rev, [], rest)
      else Greedy(rev, bits + [b], rest)
  {
    assert ([b] + rest)[0] == b && ([b] + rest)[1..] == rest;
  }

  /** The reversal of a table without shared codes maps each code back to
      its character. */
  lemma RevertsCode(t: map<char, string>, rev: map<string, char>, c: char)
    requires Reverts(t, rev) && Injective(t) && c in t
    ensures t[c] in rev && rev[t[c]] == c
  {
    assert t[c] in t.Values;
  }

  /** The decoder, starting afresh on the encoding of `m` followed by
      `tail`, outputs `m` and then decodes `tail` afresh. */
  lemma {:induction false} GreedyContinues(t: map<char, string>, rev: map<string, char>, m: string, tail: string)
    requires Reverts(t, rev) && PrefixFree(t) && Injective(t) && NonEmptyCodes(t)
    requires Encodable(t, m)
    ensures Greedy(rev, [], Encode(t, m) + tail) == m + Greedy(rev, [], tail)
    decreases |m|, 2, 0
  {
    if m == [] {
      assert Encode(t, m) + tail == tail;
    } else {
      assert Encode(t, m) + tail == t[m[0]] + Encode(t, m[1..]) + tail;
      GreedyResumes(t, rev, m, [], t[m[0]], tail);
    }
  }

  /** The decoder part-way through the code of `m[0]` (with `pending` of its
      bits still to come) finishes `m`, then decodes `tail` afresh. */
  lemma {:induction false} GreedyResumes(t: map<char, string>, rev: map<string, char>,
                                         m: string, bits: string, pending: string, tail: string)
    requires Reverts(t, rev) && PrefixFree(t) && Injective(t) && NonEmptyCodes(t)
    requires Encodable(t, m) && m != []
    requires bits + pending == t[m[0]] && pending != []
    ensures Greedy(rev, bits, pending + Encode(t, m[1..]) + tail) == m + Greedy(rev, [], tail)
    decreases |m|, 1, |pending|
  {
    if |pending| == 1 {
      GreedyCompletes(t, rev, m, bits, pending, tail);
    } else {
      var b, later := pending[0], pending[1..];
      var collected := bits + [b];
      assert collected + later == t[m[0]];
      ProperPrefixIsNoCode(t, rev, collected, m[0]);
      assert pending + Encode(t, m[1..]) + tail == [b] + (later + Encode(t, m[1..]) + tail);
      GreedyStep(rev, bits, b, later + Encode(t, m[1..]) + tail);
      GreedyResumes(t, rev, m, collected, later, tail);
    }
  }

  /** The last bit of the code of `m[0]` outputs `m[0]`; the decoder then
      starts the code of the next character afresh. */
  lemma {:induction false} GreedyCompletes(t: map<char, string>, rev: map<string, char>,
                                           m: string, bits: string, pending: string, tail: string)
    requires Reverts(t, rev) && PrefixFree(t) && Injective(t) && NonEmptyCodes(t)
    requires Encodable(t, m) && m != []
    requires bits + pending == t[m[0]] && |pending| == 1
    ensures Greedy(rev, bits, pending + Encode(t, m[1..]) + tail) == m + Greedy(rev, [], tail)
    decreases |m|, 0, 0
  {
    var rest, b := m[1..], pending[0];
    var after := Encode(t, rest) + tail;
    assert pending == [b];
    assert pending + Encode(t, rest) + tail == [b] + after;
    GreedyEmits(t, rev, m[0], bits, b, after);
    EncodableTail(t, m);
    GreedyContinues(t, rev, rest, tail);
    assert [m[0]] + (rest + Greedy(rev, [], tail)) == m + Greedy(rev, [], tail) by {
      assert [m[0]] + rest == m;
    }
  }

  /** The bit that completes the code of `c` outputs `c`. */
  lemma GreedyEmits(t: map<char, string>, rev: map<string, char>, c: char, bits: string, b: char, after: string)
    requires Reverts(t, rev) && Injective(t) && c in t
    requires bits + [b] == t[c]
    ensures Greedy(rev, bits, [b] + after) == [c] + Greedy(rev, [], after)
  {
    RevertsCode(t, rev, c);
    GreedyStep(rev, bits, b, after);
  }

  /** The rest of an encodable message is encodable. */
  lemma EncodableTail(t: map<char, string>, m: string)
    requires Encodable(t, m) && m != []
    ensures Encodable(t, m[1..])
  {
    forall c | c in m[1..] ensures c in t {
      assert c in m;
    }
  }

  /** Decoding the encoding of `m` followed by `tail` gives `m` followed by
      the decoding of `tail`. */
  lemma DecodeEncodeAppend(t: map<char, string>, m: string, tail: string)
    requires PrefixFree(t) && Injective(t) && NonEmptyCodes(t)
    requires Encodable(t, m)
    ensures Decode(t, Encode(t, m) + tail) == m + Decode(t, tail)
  {
    GreedyContinues(t, Invert(t), m, tail);
  }


  /** Round trip: with prefix-free, distinct, non-empty codes, decoding an
      encoded message gives the message back. */
  lemma DecodeEncode(t: map<char, string>, m: string)
    requires PrefixFree(t) && Injective(t) && NonEmptyCodes(t)
    requires Encodable(t, m)
    ensures Decode(t, Encode(t, m)) == m
  {
    DecodeEncodeAppend(t, m, []);
    assert Encode(t, m) + [] == Encode(t, m);
  }

  /** Bits that only start a code are dropped: collected bits that stay a
      proper prefix of some code never match one. */
  lemma {:induction false} GreedyDropsPartial(t: map<char, string>, rev: map<string, char>,
                                              bits: string, input: string, c: char)
    requires Reverts(t, rev) && PrefixFree(t) && Injective(t)
    requires c in t && bits + input < t[c]
    ensures Greedy(rev, bits, input) == []
    decreases |input|
  {
    if input != [] {
      var collected := bits + [input[0]];
      assert collected + input[1..] == bits + input;
      ProperPrefixIsNoCode(t, rev, collected, c);
      GreedyDropsPartial(t, rev, collected, input[1..], c);
    }
  }

  /** Trailing bits that are a proper prefix of a code decode to nothing, so
      an encoded message followed by them still decodes to the message. */
  lemma TrailingBitsDropped(t: map<char, string>, m: string, tail: string, c: char)
    requires PrefixFree(t) && Injective(t) && NonEmptyCodes(t)
    requires Encodable(t, m) && c in t && tail < t[c]
    ensures Decode(t, tail) == []
    ensures Decode(t, Encode(t, m) + tail) == m
  {
    assert [] + tail == tail;
    GreedyDropsPartial(t, Invert(t), [], tail, c);
    DecodeEncodeAppend(t, m, tail);
  }

  /** A table whose one character has the empty code (what a text of a single
      distinct character produces) encodes every message to no bits, so the
      message cannot be decoded back. */
  lemma {:induction false} SingleCodeLosesMessage(c: char, m: string)
    requires forall i :: 0 <= i < |m| ==> m[i] == c
    ensures Encodable(map[c := []], m)
    ensures Encode(map[c := []], m) == []
    ensures Decode(map[c := []], Encode(map[c := []], m)) == []
    decreases |m|
  {
    if m != [] {
      SingleCodeLosesMessage(c, m[1..]);
    }
  }
}
