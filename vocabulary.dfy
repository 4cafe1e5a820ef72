/**
 * A category's vocabulary as loaded at startup (app.py:24-30): the
 * character-to-index table, the index-to-character table and the width of
 * the input window its model expects.
 */
module Vocabulary {
  import opened Results

  datatype Vocab = Vocab(charToIndex: map<char, int>, indexToChar: map<int, string>, maxLength: nat)

  /** `index_to_char.get(k, '')`: the text stored for `k`, or "" when there is none. */
  function Lookup(v: Vocab, k: int): (ch: string)
    ensures ch == "" <==> k !in v.indexToChar || v.indexToChar[k] == ""
    ensures ch != "" ==> ch == v.indexToChar[k]
  {
    if k in v.indexToChar then v.indexToChar[k] else ""
  }

  /** Every entry of the reverse table is a single character or empty. */
  predicate SingleChars(v: Vocab)
  {
    forall k :: k in v.indexToChar ==> |v.indexToChar[k]| <= 1
  }

  /**
   * The reverse table undoes the forward one wherever it yields a character:
   * looking that character up again gives back the same index.
   */
  predicate ReverseConsistent(v: Vocab)
  {
    forall k :: k in v.indexToChar && |v.indexToChar[k]| == 1 ==>
      v.indexToChar[k][0] in v.charToIndex && v.charToIndex[v.indexToChar[k][0]] == k
  }

  /**
   * `[char_to_index[c] for c in seed]`: the indices of the seed, or the first
   * character, from the left, that the table does not know.
   */
  function Encode(charToIndex: map<char, int>, seed: string): (r: Result<seq<int>, char>)
    ensures r.Ok? <==> forall k :: 0 <= k < |seed| ==> seed[k] in charToIndex
    ensures r.Ok? ==> |r.value| == |seed| && forall k :: 0 <= k < |seed| ==> r.value[k] == charToIndex[seed[k]]
    ensures r.Err? ==> exists k :: 0 <= k < |seed| && seed[k] == r.error && seed[k] !in charToIndex &&
                                   forall j :: 0 <= j < k ==> seed[j] in charToIndex
  {
    if seed == [] then Ok([])
    else if seed[0] !in charToIndex then Err(seed[0])
    else match Encode(charToIndex, seed[1..])
      case Ok(rest) => Ok([charToIndex[seed[0]]] + rest)
      case Err(c) =>
        assert exists k :: 0 <= k < |seed| - 1 && seed[1..][k] == c && seed[1..][k] !in charToIndex &&
                           forall j :: 0 <= j < k ==> seed[1..][j] in charToIndex;
        var k :| 0 <= k < |seed| - 1 && seed[1..][k] == c && seed[1..][k] !in charToIndex &&
                 forall j :: 0 <= j < k ==> seed[1..][j] in charToIndex;
        assert seed[k + 1] == c && forall j :: 0 <= j < k + 1 ==> seed[j] in charToIndex by {
          forall j | 0 <= j < k + 1 ensures seed[j] in charToIndex {
            if j > 0 { assert seed[j] == seed[1..][j - 1]; }
          }
        }
        Err(c)
  }

  /**
   * Encoding fails exactly on the first unknown character: if position `k`
   * holds an unknown character and every earlier one is known, the error
   * names `seed[k]`.
   */
  lemma FirstUnknownReported(charToIndex: map<char, int>, seed: string, k: nat)
    requires k < |seed| && seed[k] !in charToIndex
    requires forall j :: 0 <= j < k ==> seed[j] in charToIndex
    ensures Encode(charToIndex, seed) == Err(seed[k])
  {
    var r := Encode(charToIndex, seed);
    assert r.Err?;
    var i :| 0 <= i < |seed| && seed[i] == r.error && seed[i] !in charToIndex &&
             forall j :: 0 <= j < i ==> seed[j] in charToIndex;
    assert i == k;
  }
}
