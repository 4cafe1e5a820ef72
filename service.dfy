/**
 * The `/generate-password` endpoint of app.py:57-83: validate the password
 * type, run the engine of that category, and shape the JSON reply, turning
 * any exception of the engine into an error reply.
 */
module Service {
  import opened Results
  import opened Vocabulary
  import opened Engine

  /** The four categories loaded at startup (app.py:22). */
  datatype PType = Cap | Word | Num | Special

  /** The accepted values of the `ptype` query parameter, as listed at app.py:65. */
  const VALID_TYPES: seq<string> := ["cap", "word", "num", "special"]

  const INVALID_TYPE_MESSAGE: string := "Invalid password type"

  function Name(t: PType): (r: string)
    ensures r in VALID_TYPES
  {
    match t
    case Cap => "cap"
    case Word => "word"
    case Num => "num"
    case Special => "special"
  }

  /** `ptype in ['cap', 'word', 'num', 'special']`, and which category it names. */
  function ParsePType(s: string): (r: Option<PType>)
    ensures r.Some? <==> s in VALID_TYPES
    ensures r.Some? ==> Name(r.value) == s
  {
    if s == "cap" then Some(Cap)
    else if s == "word" then Some(Word)
    else if s == "num" then Some(Num)
    else if s == "special" then Some(Special)
    else None
  }

  /** Every category's name parses back to that category. */
  lemma ParseName(t: PType)
    ensures ParsePType(Name(t)) == Some(t)
  {
  }

  /**
   * What `models[t]` and `vocabs[t]` stand for within one request: the
   * category's vocabulary and its model with this request's random draws.
   */
  datatype Artifacts = Artifacts(vocab: Vocab, sample: Sampler)

  /**
   * The JSON reply: `{password, type, seed, length}` on success (the `type`
   * key is `passwordType` here), `{error}` otherwise.
   */
  datatype Response =
    | Success(password: string, passwordType: string, seed: string, length: nat)
    | Error(error: string)

  /**
   * Python's `repr` of a one-character string, which is what `str(e)` gives
   * for the `KeyError` of an unknown seed character.
   */
  function CharRepr(c: char): (r: string)
    ensures |r| >= 3 && r[0] == r[|r| - 1] && (r[0] == '\'' || r[0] == '"')
    ensures c != '\'' && c != '\\' && c != '\n' && c != '\r' && c != '\t' ==> r[0] == '\'' && r[1..|r| - 1] == [c]
  {
    if c == '\'' then "\"'\""
    else if c == '\\' then "'\\\\'"
    else if c == '\n' then "'\\n'"
    else if c == '\r' then "'\\r'"
    else if c == '\t' then "'\\t'"
    else ['\'', c, '\'']
  }

  /** The error message identifies the unknown character: distinct characters give distinct messages. */
  lemma CharReprIdentifies(a: char, b: char)
    requires CharRepr(a) == CharRepr(b)
    ensures a == b
  {
    var r := CharRepr(a);
    if |r| == 3 {
      assert r[1] == a && r[1] == b;
    } else {
      assert a in {'\\', '\n', '\r', '\t'} && b in {'\\', '\n', '\r', '\t'};
      assert r[2] == CharRepr(a)[2] == CharRepr(b)[2];
    }
  }

  /** `str(e)` for the exceptions the engine raises. */
  function Message(e: GenError): (r: string)
    ensures e.UnknownSeedChar? ==> |r| >= 3 && r[0] == r[|r| - 1] && (r[0] == '\'' || r[0] == '"')
    ensures e.ModelFault? ==> r == e.message
  {
    match e
    case UnknownSeedChar(c) => CharRepr(c)
    case ModelFault(m) => m
  }

  /** `generate(ptype, seed, length, temperature)`; the temperature lives in each sampler. */
  function Generate(loaded: PType -> Artifacts, ptype: string, seed: string, length: int): (resp: Response)
    ensures ptype !in VALID_TYPES ==> resp == Error(INVALID_TYPE_MESSAGE)
    ensures ptype in VALID_TYPES ==>
      var a := loaded(ParsePType(ptype).value);
      var out := PasswordOf(a.vocab, a.sample, seed, length);
      (resp.Success? <==> out.Ok?) &&
      (out.Ok? ==> resp.password == out.value) &&
      (out.Err? ==> resp == Error(Message(out.error)))
    ensures resp.Success? ==>
      resp.passwordType == ptype && resp.seed == seed && resp.length == |resp.password| && seed <= resp.password
  {
    match ParsePType(ptype)
    case None => Error(INVALID_TYPE_MESSAGE)
    case Some(t) =>
      var a := loaded(t);
      match PasswordOf(a.vocab, a.sample, seed, length)
      case Err(e) => Error(Message(e))
      case Ok(password) =>
        PasswordBounds(a.vocab, a.sample, seed, length);
        Success(password, ptype, seed, |password|)
  }

  /**
   * An invalid type is answered before any engine is consulted: the reply is
   * the same whatever the loaded models and vocabularies are.
   */
  lemma InvalidTypeSkipsEngine(loaded: PType -> Artifacts, other: PType -> Artifacts, ptype: string, seed: string, length: int)
    requires ptype !in VALID_TYPES
    ensures Generate(loaded, ptype, seed, length) == Generate(other, ptype, seed, length) == Error(INVALID_TYPE_MESSAGE)
  {
  }

  /**
   * A seed character missing from the category's vocabulary is reported as
   * an error reply naming the first such character, never as a password.
   */
  lemma UnknownSeedCharReported(loaded: PType -> Artifacts, t: PType, seed: string, length: int, k: nat)
    requires k < |seed| && seed[k] !in loaded(t).vocab.charToIndex
    requires forall j :: 0 <= j < k ==> seed[j] in loaded(t).vocab.charToIndex
    ensures Generate(loaded, Name(t), seed, length) == Error(CharRepr(seed[k]))
  {
    UnknownSeedCharFailsFast(loaded(t).vocab, loaded(t).sample, seed, length, k);
  }

  /**
   * The reported length is that of the password actually produced: between
   * the seed's length and the seed's length plus the requested one.
   */
  lemma SuccessLengthBounds(loaded: PType -> Artifacts, t: PType, seed: string, length: int)
    requires Generate(loaded, Name(t), seed, length).Success?
    ensures |seed| <= Generate(loaded, Name(t), seed, length).length
    ensures SingleChars(loaded(t).vocab) ==>
      Generate(loaded, Name(t), seed, length).length <= |seed| + Iterations(length)
  {
    PasswordBounds(loaded(t).vocab, loaded(t).sample, seed, length);
  }

  /** With no iterations to run, a known seed is echoed back as the password. */
  lemma ZeroLengthEchoesSeed(loaded: PType -> Artifacts, t: PType, seed: string, length: int)
    requires length <= 0
    requires forall k :: 0 <= k < |seed| ==> seed[k] in loaded(t).vocab.charToIndex
    ensures Generate(loaded, Name(t), seed, length) == Success(seed, Name(t), seed, |seed|)
  {
    ZeroLengthReturnsSeed(loaded(t).vocab, loaded(t).sample, seed, length);
  }
}
