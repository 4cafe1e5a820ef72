/**
 * The fixed-width model input built at app.py:38 by
 * `pad_sequences([current_seq], maxlen=max_length, padding='pre')`, whose
 * other settings keep their defaults: pad value 0 and `truncating='pre'`.
 */
module Window {

  /** Front-pads `s` with zeros, or keeps only its last `maxLength` entries. */
  function Pad(s: seq<int>, maxLength: nat): (w: seq<int>)
    ensures |w| == maxLength
    ensures forall k :: 0 <= k < maxLength ==>
      w[k] == if k < maxLength - |s| then 0 else s[|s| - maxLength + k]
  {
    if |s| >= maxLength then s[|s| - maxLength..]
    else seq(maxLength - |s|, _ => 0) + s
  }

  /**
   * Appending one index slides a non-empty window by one position: the
   * oldest entry (padding or index) drops out and the new index comes in last.
   */
  lemma {:induction false} PadSlide(s: seq<int>, x: int, maxLength: nat)
    requires maxLength > 0
    ensures Pad(s + [x], maxLength) == Pad(s, maxLength)[1..] + [x]
  {
    var before := Pad(s, maxLength);
    var after := Pad(s + [x], maxLength);
    var slid := before[1..] + [x];
    forall k | 0 <= k < maxLength
      ensures after[k] == slid[k]
    {
      if k < maxLength - 1 {
        assert slid[k] == before[k + 1];
        if k + 1 >= maxLength - |s| {
          assert (s + [x])[|s| + 1 - maxLength + k] == s[|s| - maxLength + k + 1];
        }
      } else {
        assert (s + [x])[|s|] == x;
      }
    }
  }
}
