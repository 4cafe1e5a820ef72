/**
 * The generation engine of app.py:32-55: encode the seed, then extend it one
 * sampled character at a time until the budget is spent or the drawn index
 * has no character.
 *
 * The trained model, the temperature reweighting and the weighted random
 * draw (app.py:39-46) are one opaque step here: a `Sampler` takes the
 * iteration number and the padded window to the index drawn, or to the
 * message of the exception that step raised.
 */
module Engine {
  import opened Results
  import opened Vocabulary
  import opened Window

  /** What one model query plus sampling step yields. */
  datatype Draw = Drawn(index: int) | Fault(message: string)

  /** The model and the random draws of one request, as an oracle. */
  type Sampler = (nat, seq<int>) -> Draw

  /** The exceptions `generate_password` can raise. */
  datatype GenError = UnknownSeedChar(c: char) | ModelFault(message: string)

  /** The characters appended so far (`generated`) and their indices. */
  datatype Steps = Steps(chars: seq<string>, indices: seq<int>)

  /** How many times `for _ in range(length)` runs. */
  function Iterations(length: int): (n: nat)
    ensures n == 0 <==> length <= 0
    ensures length >= 0 ==> n == length
  {
    if length < 0 then 0 else length
  }

  /** `''.join(parts)` */
  function Join(parts: seq<string>): (r: string)
    ensures (forall k :: 0 <= k < |parts| ==> parts[k] != "") ==> |r| >= |parts|
    ensures (forall k :: 0 <= k < |parts| ==> |parts[k]| <= 1) ==> |r| <= |parts|
  {
    if parts == [] then "" else parts[0] + Join(parts[1..])
  }

  /** Joining one-character strings lays their characters side by side. */
  lemma {:induction false} JoinSingles(parts: seq<string>)
    requires forall k :: 0 <= k < |parts| ==> |parts[k]| == 1
    ensures |Join(parts)| == |parts|
    ensures forall k :: 0 <= k < |parts| ==> Join(parts)[k] == parts[k][0]
  {
    if parts != [] {
      JoinSingles(parts[1..]);
      assert Join(parts) == parts[0] + Join(parts[1..]);
      forall k | 1 <= k < |parts| ensures Join(parts)[k] == parts[k][0] {
        assert Join(parts)[k] == Join(parts[1..])[k - 1];
      }
    }
  }

  /**
   * The remaining iterations of the loop, from the state `acc` reached after
   * `|acc.indices|` of them, for the seed encoding `enc` and `n` iterations.
   * When it succeeds it only adds steps, never beyond the budget; its only
   * error is a fault of the model step. `ExtendDraws` says which steps.
   */
  function Extend(v: Vocab, sample: Sampler, enc: seq<int>, acc: Steps, n: nat): (r: Result<Steps, GenError>)
    requires |acc.chars| == |acc.indices| <= n
    ensures r.Err? ==> r.error.ModelFault?
    ensures r.Ok? ==> |acc.indices| <= |r.value.indices| <= n && |r.value.chars| == |r.value.indices|
    ensures r.Ok? ==> acc.chars <= r.value.chars && acc.indices <= r.value.indices
    decreases n - |acc.indices|
  {
    if |acc.indices| == n then Ok(acc)
    else
      match sample(|acc.indices|, Pad(enc + acc.indices, v.maxLength))
      case Fault(m) => Err(ModelFault(m))
      case Drawn(k) =>
        var ch := Lookup(v, k);
        if ch == "" then Ok(acc)
        else Extend(v, sample, enc, Steps(acc.chars + [ch], acc.indices + [k]), n)
  }

  /**
   * Steps `from` onwards of `t` are the indices the oracle drew on the padded
   * running sequence, and each of them has a character.
   */
  ghost predicate DrawnSteps(v: Vocab, sample: Sampler, enc: seq<int>, t: Steps, from: nat)
  {
    |t.chars| == |t.indices| &&
    forall k :: from <= k < |t.indices| ==>
      sample(k, Pad(enc + t.indices[..k], v.maxLength)) == Drawn(t.indices[k]) &&
      t.chars[k] == Lookup(v, t.indices[k]) && t.chars[k] != ""
  }

  /** Fewer than `n` steps means the next draw had no character. */
  ghost predicate StoppedOrDone(v: Vocab, sample: Sampler, enc: seq<int>, t: Steps, n: nat)
  {
    |t.indices| < n ==>
      var stop := sample(|t.indices|, Pad(enc + t.indices, v.maxLength));
      stop.Drawn? && Lookup(v, stop.index) == ""
  }

  /**
   * `t` is what `n` iterations of the loop produce from the seed encoding
   * `enc`, described by the draws alone: each step took the index the oracle
   * drew on the padded running sequence and that index had a character, and
   * if fewer than `n` steps were taken the next draw had none.
   */
  ghost predicate IsTrace(v: Vocab, sample: Sampler, enc: seq<int>, t: Steps, n: nat)
  {
    |t.indices| <= n && DrawnSteps(v, sample, enc, t, 0) && StoppedOrDone(v, sample, enc, t, n)
  }

  /**
   * A successful run of the remaining iterations adds exactly drawn steps
   * that have characters, and stops short only at a draw without one.
   */
  lemma {:induction false} ExtendDraws(v: Vocab, sample: Sampler, enc: seq<int>, acc: Steps, n: nat)
    requires |acc.chars| == |acc.indices| <= n
    requires Extend(v, sample, enc, acc, n).Ok?
    ensures DrawnSteps(v, sample, enc, Extend(v, sample, enc, acc, n).value, |acc.indices|)
    ensures StoppedOrDone(v, sample, enc, Extend(v, sample, enc, acc, n).value, n)
    decreases n - |acc.indices|
  {
    var i := |acc.indices|;
    if i < n {
      var d := sample(i, Pad(enc + acc.indices, v.maxLength));
      if d.Drawn? && Lookup(v, d.index) != "" {
        var next := Steps(acc.chars + [Lookup(v, d.index)], acc.indices + [d.index]);
        ExtendDraws(v, sample, enc, next, n);
        var t := Extend(v, sample, enc, next, n).value;
        assert t.indices[..i] == acc.indices;
        assert t.indices[i] == d.index && t.chars[i] == Lookup(v, d.index);
      }
    }
  }

  /** From any prefix of a trace, the remaining iterations finish that trace. */
  lemma {:induction false} ExtendFollowsTrace(v: Vocab, sample: Sampler, enc: seq<int>, acc: Steps, t: Steps, n: nat)
    requires IsTrace(v, sample, enc, t, n)
    requires |acc.chars| == |acc.indices| <= |t.indices|
    requires acc.chars <= t.chars && acc.indices <= t.indices
    ensures Extend(v, sample, enc, acc, n) == Ok(t)
    decreases n - |acc.indices|
  {
    var i := |acc.indices|;
    if i == |t.indices| {
      assert acc.chars == t.chars && acc.indices == t.indices;
    } else {
      assert t.indices[..i] == acc.indices;
      var k := t.indices[i];
      var next := Steps(acc.chars + [t.chars[i]], acc.indices + [k]);
      assert t.chars[..i + 1] == next.chars;
      assert t.indices[..i + 1] == next.indices;
      ExtendFollowsTrace(v, sample, enc, next, t, n);
    }
  }

  /** All of `generate_password` but the final join: encoding, then the loop. */
  function Run(v: Vocab, sample: Sampler, seed: string, length: int): (r: Result<Steps, GenError>)
    ensures r.Err? && r.error.UnknownSeedChar? <==> Encode(v.charToIndex, seed).Err?
    ensures r.Ok? ==> |r.value.chars| == |r.value.indices| <= Iterations(length)
  {
    match Encode(v.charToIndex, seed)
    case Err(c) => Err(UnknownSeedChar(c))
    case Ok(enc) => Extend(v, sample, enc, Steps([], []), Iterations(length))
  }

  /** What `generate_password` returns or raises. */
  function PasswordOf(v: Vocab, sample: Sampler, seed: string, length: int): (r: Result<string, GenError>)
    ensures r.Ok? <==> Run(v, sample, seed, length).Ok?
    ensures r.Err? ==> r.error == Run(v, sample, seed, length).error
    ensures r.Ok? ==> seed <= r.value
  {
    match Run(v, sample, seed, length)
    case Err(e) => Err(e)
    case Ok(s) =>
      var p := seed + Join(s.chars);
      assert p[..|seed|] == seed;
      Ok(p)
  }

  /**
   * `generate_password(model, vocab, seed, length, temperature)`, with the
   * model and the temperature inside `sample`. `windows` records every
   * window handed to the model, in order.
   */
  method GeneratePassword(v: Vocab, sample: Sampler, seed: string, length: int)
    returns (r: Result<string, GenError>, ghost windows: seq<seq<int>>)
    ensures r == PasswordOf(v, sample, seed, length)
    ensures |windows| <= Iterations(length)
    ensures forall k :: 0 <= k < |windows| ==> |windows[k]| == v.maxLength
    ensures Encode(v.charToIndex, seed).Err? ==> windows == []
  {
    windows := [];
    var encoded := Encode(v.charToIndex, seed);
    if encoded.Err? {
      return Err(UnknownSeedChar(encoded.error)), windows;
    }
    var n := Iterations(length);
    var generated: seq<string> := [];
    var currentSeq := encoded.value;
    ghost var appended: seq<int> := [];
    for i := 0 to n
      invariant |generated| == |appended| == i
      invariant currentSeq == encoded.value + appended
      invariant forall k :: 0 <= k < i ==> generated[k] == Lookup(v, appended[k]) && generated[k] != ""
      invariant |windows| == i
      invariant forall k :: 0 <= k < i ==> |windows[k]| == v.maxLength
      invariant Extend(v, sample, encoded.value, Steps([], []), n)
             == Extend(v, sample, encoded.value, Steps(generated, appended), n)
    {
      var paddedSeq := Pad(currentSeq, v.maxLength);
      windows := windows + [paddedSeq];
      var draw := sample(i, paddedSeq);
      if draw.Fault? {
        return Err(ModelFault(draw.message)), windows;
      }
      var nextIndex := draw.index;
      var nextChar := Lookup(v, nextIndex);
      if nextChar == "" {
        break;
      }
      generated := generated + [nextChar];
      currentSeq := currentSeq + [nextIndex];
      appended := appended + [nextIndex];
    }
    r := Ok(seed + Join(generated));
  }

  /**
   * The loop's outcome, when the seed encodes, is exactly the trace of the
   * oracle's draws: `Run` succeeds with `t` if and only if `t` is that trace.
   */
  lemma RunIsTrace(v: Vocab, sample: Sampler, seed: string, length: int, t: Steps)
    requires Encode(v.charToIndex, seed).Ok?
    ensures Run(v, sample, seed, length) == Ok(t) <==>
            IsTrace(v, sample, Encode(v.charToIndex, seed).value, t, Iterations(length))
  {
    var enc := Encode(v.charToIndex, seed).value;
    var n := Iterations(length);
    if IsTrace(v, sample, enc, t, n) {
      ExtendFollowsTrace(v, sample, enc, Steps([], []), t, n);
    }
    if Run(v, sample, seed, length) == Ok(t) {
      ExtendDraws(v, sample, enc, Steps([], []), n);
    }
  }

  /**
   * A budget of zero (or less) runs no iteration: a seed the vocabulary
   * knows comes back unchanged, and one it does not still fails, because
   * the seed is encoded before the loop.
   */
  lemma ZeroLengthReturnsSeed(v: Vocab, sample: Sampler, seed: string, length: int)
    requires length <= 0
    ensures (forall k :: 0 <= k < |seed| ==> seed[k] in v.charToIndex) ==> PasswordOf(v, sample, seed, length) == Ok(seed)
    ensures (exists k :: 0 <= k < |seed| && seed[k] !in v.charToIndex) ==> PasswordOf(v, sample, seed, length).Err?
  {
    assert Join([]) == "";
    assert seed + "" == seed;
  }

  /**
   * A password always starts with the seed; with single-character entries it
   * gains one character per generated step, hence at most `length` of them.
   */
  lemma PasswordBounds(v: Vocab, sample: Sampler, seed: string, length: int)
    requires PasswordOf(v, sample, seed, length).Ok?
    ensures var p := PasswordOf(v, sample, seed, length).value;
      seed <= p && |seed| <= |p| &&
      (SingleChars(v) ==> |p| == |seed| + |Run(v, sample, seed, length).value.chars| <= |seed| + Iterations(length))
  {
    var s := Run(v, sample, seed, length).value;
    RunIsTrace(v, sample, seed, length, s);
    var p := seed + Join(s.chars);
    assert p[..|seed|] == seed;
    if SingleChars(v) {
      forall k | 0 <= k < |s.chars| ensures |s.chars[k]| == 1 {
        assert s.chars[k] == Lookup(v, s.indices[k]);
      }
      JoinSingles(s.chars);
    }
  }

  /**
   * Fail fast: when some seed character is unknown, generation raises the
   * lookup error for the first one and yields no partial password (the
   * method records no model query in that case).
   */
  lemma UnknownSeedCharFailsFast(v: Vocab, sample: Sampler, seed: string, length: int, k: nat)
    requires k < |seed| && seed[k] !in v.charToIndex
    requires forall j :: 0 <= j < k ==> seed[j] in v.charToIndex
    ensures PasswordOf(v, sample, seed, length) == Err(UnknownSeedChar(seed[k]))
  {
    FirstUnknownReported(v.charToIndex, seed, k);
  }

  /**
   * The only errors are a seed character the vocabulary lacks or a fault of
   * the model step; an unknown-character error names a character of the seed.
   */
  lemma ErrorsExplained(v: Vocab, sample: Sampler, seed: string, length: int)
    requires PasswordOf(v, sample, seed, length).Err?
    ensures var e := PasswordOf(v, sample, seed, length).error;
      e.UnknownSeedChar? <==> exists k :: 0 <= k < |seed| && seed[k] !in v.charToIndex
    ensures var e := PasswordOf(v, sample, seed, length).error;
      e.UnknownSeedChar? ==> e.c in seed && e.c !in v.charToIndex
  {
  }

  /**
   * Early stop: a password shorter than the seed plus the budget was cut
   * short by a drawn index with no character, and not by an error.
   */
  lemma EarlyStop(v: Vocab, sample: Sampler, seed: string, length: int)
    requires PasswordOf(v, sample, seed, length).Ok?
    requires |PasswordOf(v, sample, seed, length).value| < |seed| + Iterations(length)
    ensures var enc := Encode(v.charToIndex, seed).value;
      var s := Run(v, sample, seed, length).value;
      var stop := sample(|s.indices|, Pad(enc + s.indices, v.maxLength));
      stop.Drawn? && Lookup(v, stop.index) == ""
  {
    var s := Run(v, sample, seed, length).value;
    RunIsTrace(v, sample, seed, length, s);
    assert forall k :: 0 <= k < |s.chars| ==> s.chars[k] != "";
  }

  /**
   * Appending characters that the reverse table gave for `indices` to an
   * encodable seed appends exactly those indices to its encoding.
   */
  lemma EncodeAppended(v: Vocab, seed: string, t: Steps)
    requires SingleChars(v) && ReverseConsistent(v)
    requires Encode(v.charToIndex, seed).Ok?
    requires |t.chars| == |t.indices|
    requires forall k :: 0 <= k < |t.chars| ==> t.chars[k] == Lookup(v, t.indices[k]) && t.chars[k] != ""
    ensures Encode(v.charToIndex, seed + Join(t.chars)) == Ok(Encode(v.charToIndex, seed).value + t.indices)
  {
    var enc := Encode(v.charToIndex, seed).value;
    forall k | 0 <= k < |t.chars| ensures |t.chars[k]| == 1 {
      assert t.chars[k] == v.indexToChar[t.indices[k]];
    }
    JoinSingles(t.chars);
    var text := seed + Join(t.chars);
    var full := enc + t.indices;
    forall k | 0 <= k < |text|
      ensures text[k] in v.charToIndex && v.charToIndex[text[k]] == full[k]
    {
      if k >= |seed| {
        var j := k - |seed|;
        assert text[k] == t.chars[j][0];
        assert t.chars[j] == v.indexToChar[t.indices[j]];
      }
    }
    assert Encode(v.charToIndex, text).value == full;
  }

  /**
   * What the running index sequence means: with a reverse-consistent
   * vocabulary of single characters, the seed encoding followed by the
   * appended indices is the encoding of the password produced.
   */
  lemma RunningSequenceIsEncoding(v: Vocab, sample: Sampler, seed: string, length: int)
    requires SingleChars(v) && ReverseConsistent(v)
    requires Run(v, sample, seed, length).Ok?
    ensures var s := Run(v, sample, seed, length).value;
      Encode(v.charToIndex, seed + Join(s.chars)) == Ok(Encode(v.charToIndex, seed).value + s.indices)
  {
    var s := Run(v, sample, seed, length).value;
    RunIsTrace(v, sample, seed, length, s);
    EncodeAppended(v, seed, s);
  }
}
