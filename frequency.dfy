/** The frequency counter: text to a table from character to number of
    appearances (`input_to_dictionary`). */
module FrequencyCounter {
  import opened WeightSums
  import opened HuffmanNode

  /** How often each character of `s` appears in it. */
  ghost function Counts(s: string): (counts: map<char, int>)
  {
    map c | c in multiset(s) :: multiset(s)[c]
  }

  /** Appending a character adds one to its count and changes no other. */
  lemma CountsSnoc(s: string, c: char)
    ensures Counts(s + [c]) == Counts(s)[c := if c in Counts(s) then Counts(s)[c] + 1 else 1]
  {
    var ms := multiset(s + [c]);
    assert ms == multiset(s) + multiset{c};
    var lhs, rhs := Counts(s + [c]), Counts(s)[c := if c in Counts(s) then Counts(s)[c] + 1 else 1];
    assert lhs.Keys == rhs.Keys;
    forall d | d in lhs ensures lhs[d] == rhs[d] {
    }
  }

  /** Counting the character at `i`: its count goes up by one, or it is
      inserted with count 1, and the total grows by one. The new count
      stays within `i32` when the whole text's counts do. */
  lemma CountsStep(input: string, i: int, counts: map<char, int>)
    requires 0 <= i < |input|
    requires forall c :: multiset(input)[c] <= I32Max
    requires counts == Counts(input[..i]) && MapSum(counts) == i
    ensures var c := input[i];
      var next := if c in counts then counts[c := counts[c] + 1] else counts[c := 1];
      && next == Counts(input[..i + 1])
      && MapSum(next) == i + 1
      && (c in counts ==> counts[c] + 1 <= I32Max)
  {
    var c := input[i];
    assert input[..i + 1] == input[..i] + [c];
    CountsSnoc(input[..i], c);
    CountBeforeLess(input, i);
    if c in counts {
      MapSumUpdate(counts, c, counts[c] + 1);
    } else {
      MapSumUpdate(counts, c, 1);
    }
  }

  /** A count taken part-way through `input` stays below the character's
      count in the whole of `input`. */
  lemma CountBeforeLess(input: string, i: int)
    requires 0 <= i < |input|
    ensures var c, counts := input[i], Counts(input[..i]);
      c in counts ==> counts[c] + 1 <= multiset(input)[c]
  {
    var c := input[i];
    assert input == input[..i] + [c] + input[i + 1..];
    assert multiset(input) == multiset(input[..i]) + multiset{c} + multiset(input[i + 1..]);
  }

  /** The counts of a text have a key for each of its characters, each
      with a positive value. */
  lemma CountsOfText(s: string)
    ensures forall c :: c in Counts(s) <==> c in s
    ensures forall c :: c in Counts(s) ==> Counts(s)[c] == multiset(s)[c] >= 1
  {
    forall c ensures c in Counts(s) <==> c in s {
      assert c in s <==> c in multiset(s);
    }
  }

  /** `input_to_dictionary`: one pass over the characters, adding 1 to the
      count of a known character and inserting 1 for a new one. A count past
      `i32::MAX` would overflow in the program, hence the bound. */
  method InputToDictionary(input: string) returns (dictionary: map<char, int>)
    requires forall c :: multiset(input)[c] <= I32Max
    ensures forall c :: c in dictionary <==> c in input
    ensures forall c :: c in dictionary ==> dictionary[c] == multiset(input)[c] >= 1
    ensures MapSum(dictionary) == |input|
  {
    dictionary := map[];
    for i := 0 to |input|
      invariant dictionary == Counts(input[..i])
      invariant MapSum(dictionary) == i
    {
      var c := input[i];
      CountsStep(input, i, dictionary);
      if c in dictionary {
        assert dictionary[c] + 1 <= I32Max;
        dictionary := dictionary[c := dictionary[c] + 1];
      } else {
        dictionary := dictionary[c := 1];
      }
    }
    assert input[..|input|] == input;
    CountsOfText(input);
  }
}
