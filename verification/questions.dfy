/**
 * The question record the parser builds and the session updates. The source keeps the options
 * in a plain object keyed by letter; its entries are listed in the order the keys were first
 * written, so they are modelled as an association list with distinct keys.
 */
module Questions {
  import opened Wrappers

  /** One entry of `options`: the letter and its text. */
  datatype Choice = Choice(key: char, text: string)

  /** `{ question, options, correctAnswer, userAnswer }`; `null` is `None`. */
  datatype Question = Question(
    question: string,
    options: seq<Choice>,
    correctAnswer: Option<char>,
    userAnswer: Option<char>)

  /** The record a question line opens: no options, no answers yet. */
  function NewQuestion(text: string): (q: Question)
  {
    Question(text, [], None, None)
  }

  /** The keys of `options`, in listing order (`Object.keys`). */
  function Keys(opts: seq<Choice>): (ks: seq<char>)
    ensures |ks| == |opts|
    ensures forall i :: 0 <= i < |opts| ==> ks[i] == opts[i].key
  {
    if opts == [] then [] else [opts[0].key] + Keys(opts[1..])
  }

  predicate DistinctKeys(opts: seq<Choice>)
  {
    forall i, j :: 0 <= i < j < |opts| ==> opts[i].key != opts[j].key
  }

  /** `options[k]`, or None when `k` is not a key. */
  function Lookup(opts: seq<Choice>, k: char): Option<string>
  {
    if opts == [] then None
    else if opts[0].key == k then Some(opts[0].text)
    else Lookup(opts[1..], k)
  }

  /** `options[k] = v`: an existing key keeps its place and gets the new text; a new key goes last. */
  function SetOption(opts: seq<Choice>, k: char, v: string): (r: seq<Choice>)
    ensures Lookup(r, k) == Some(v)
    ensures forall k' :: k' != k ==> Lookup(r, k') == Lookup(opts, k')
    ensures Keys(r) == if k in Keys(opts) then Keys(opts) else Keys(opts) + [k]
  {
    if opts == [] then [Choice(k, v)]
    else if opts[0].key == k then [Choice(k, v)] + opts[1..]
    else [opts[0]] + SetOption(opts[1..], k, v)
  }

  /** Writing a key never creates a duplicate key. */
  lemma SetOptionDistinct(opts: seq<Choice>, k: char, v: string)
    requires DistinctKeys(opts)
    ensures DistinctKeys(SetOption(opts, k, v))
  {
    var r := SetOption(opts, k, v);
    var ks := Keys(r);
    forall i, j | 0 <= i < j < |r| ensures r[i].key != r[j].key {
      assert ks[i] == r[i].key && ks[j] == r[j].key;
      if k in Keys(opts) {
        assert opts[i].key == r[i].key && opts[j].key == r[j].key;
      } else if j < |opts| {
        assert opts[i].key == r[i].key && opts[j].key == r[j].key;
      } else {
        assert r[i].key == opts[i].key;
        assert opts[i].key in Keys(opts);
      }
    }
  }

  /** The keys after a write are the old keys and the written one. */
  lemma SetOptionKeys(opts: seq<Choice>, k: char, v: string)
    ensures forall c :: c in Keys(SetOption(opts, k, v)) <==> c in Keys(opts) || c == k
  {
  }
}
