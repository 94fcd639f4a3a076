/**
 * The translation driver of main(), over the whitespace-separated tokens of
 * the input: (key, value) definitions are put into a Map until a token in
 * key position starts with '-' or '<'; a '<' marker inverts the Map; every
 * later token is replaced by its lookup, or written with a '?' in front.
 */
module Driver {
  import opened Options
  import opened CStrings
  import opened Chains
  import opened Dictionary
  import opened DictionaryProps

  const DASH: Byte := 45      // '-'
  const LESS: Byte := 60      // '<'
  const QUESTION: Byte := 63  // '?'

  /** A token that ends the definitions: its first character is '-' or '<'. */
  predicate IsMarker(tok: seq<Byte>) {
    tok != [] && (tok[0] == DASH || tok[0] == LESS)
  }

  /** The token in key position of definition q. */
  function KeyAt(tokens: seq<seq<Byte>>, q: nat): seq<Byte>
    requires 2 * q < |tokens|
  {
    tokens[2 * q]
  }

  /**
   * The definitions loop from definition p on: the number of definitions
   * before the first token in key position that is a marker, or None when
   * the input ends first (the source then never leaves its loop).
   */
  function Definitions(tokens: seq<seq<Byte>>, p: nat): (d: Option<nat>)
    ensures d.Some? ==> p <= d.value && 2 * d.value < |tokens| && IsMarker(KeyAt(tokens, d.value))
    ensures d.Some? ==> forall q :: p <= q < d.value ==> !IsMarker(KeyAt(tokens, q))
    ensures d.None? ==> forall q :: p <= q && 2 * q < |tokens| ==> !IsMarker(KeyAt(tokens, q))
    decreases |tokens| - 2 * p
  {
    if 2 * p >= |tokens| then None
    else if IsMarker(KeyAt(tokens, p)) then Some(p)
    else if 2 * p + 1 >= |tokens| then None
    else Definitions(tokens, p + 1)
  }

  /** The (key, value) pairs of the first d definitions, in input order. */
  function Pairs(tokens: seq<seq<Byte>>, d: nat): (ps: seq<Pair>)
    requires 2 * d <= |tokens|
    ensures |ps| == d
    ensures forall q :: 0 <= q < d ==> ps[q] == (tokens[2 * q], tokens[2 * q + 1])
    decreases d
  {
    if d == 0 then [] else Pairs(tokens, d - 1) + [(tokens[2 * d - 2], tokens[2 * d - 1])]
  }

  /** Some definition among `ps` is the pair (k, v). */
  ghost predicate Defines(ps: seq<Pair>, k: seq<Byte>, v: seq<Byte>) {
    exists q :: 0 <= q < |ps| && ps[q] == (k, v)
  }

  /** Every token is a string a key or value buffer holds. */
  predicate AllTokensFit(tokens: seq<seq<Byte>>) {
    forall i :: 0 <= i < |tokens| ==> Fits(tokens[i])
  }

  lemma PairsFit(tokens: seq<seq<Byte>>, d: nat)
    requires AllTokensFit(tokens) && 2 * d <= |tokens|
    ensures AllFit(Pairs(tokens, d))
  {
    forall q | 0 <= q < d ensures Fits(Pairs(tokens, d)[q].0) && Fits(Pairs(tokens, d)[q].1) {
      assert Pairs(tokens, d)[q] == (tokens[2 * q], tokens[2 * q + 1]);
    }
  }

  /** The Map the lookups run against: the d definitions put, inverted after a '<' marker. */
  function Loaded(tokens: seq<seq<Byte>>, d: nat): (t: Table)
    requires AllTokensFit(tokens) && 2 * d < |tokens| && IsMarker(tokens[2 * d])
    ensures Valid(t) && t.size == d
  {
    PairsFit(tokens, d);
    var t := Build(Pairs(tokens, d));
    if tokens[2 * d][0] == LESS then Invert(t) else t
  }

  /** What is written for one token: the string get() found, or '?' and the token. */
  function Answer(found: Option<seq<Byte>>, tok: seq<Byte>): seq<Byte> {
    match found
    case Some(s) => s
    case None => [QUESTION] + tok
  }

  /** The substitution loop: one answer per token, in order, `lookup` standing for get(). */
  function Translate(lookup: seq<Byte> -> Option<seq<Byte>>, toks: seq<seq<Byte>>): (out: seq<seq<Byte>>)
    ensures |out| == |toks|
    decreases |toks|
  {
    if toks == [] then []
    else
      var n := |toks| - 1;
      Translate(lookup, toks[..n]) + [Answer(lookup(toks[n]), toks[n])]
  }

  lemma {:induction false} TranslateAt(lookup: seq<Byte> -> Option<seq<Byte>>, toks: seq<seq<Byte>>, i: nat)
    requires i < |toks|
    ensures Translate(lookup, toks)[i] == Answer(lookup(toks[i]), toks[i])
    decreases |toks|
  {
    var n := |toks| - 1;
    if i < n {
      TranslateAt(lookup, toks[..n], i);
      assert toks[..n][i] == toks[i];
    }
  }

  /**
   * The tokens main() writes, or None when the input ends before a marker.
   * Every token after the marker gets one output token, in order.
   */
  function Run(tokens: seq<seq<Byte>>): (r: Option<seq<seq<Byte>>>)
    requires AllTokensFit(tokens)
    ensures r.Some? <==> Definitions(tokens, 0).Some?
    ensures r.Some? ==> |r.value| == |tokens| - 2 * Definitions(tokens, 0).value - 1
  {
    match Definitions(tokens, 0)
    case None => None
    case Some(d) => Some(Output(tokens, d))
  }

  /** What the substitution loop writes once the definitions end at marker 2 * d. */
  function Output(tokens: seq<seq<Byte>>, d: nat): (out: seq<seq<Byte>>)
    requires AllTokensFit(tokens) && 2 * d < |tokens| && IsMarker(tokens[2 * d])
    ensures |out| == |tokens| - 2 * d - 1
  {
    Translate(LookupIn(Loaded(tokens, d)), tokens[2 * d + 1..])
  }

  /** get() on the Map `t`, as a function of the key. */
  function LookupIn(t: Table): (lookup: seq<Byte> -> Option<seq<Byte>>)
    requires t.capacity > 0 && |t.buckets| == t.capacity
  {
    k => Get(t, k)
  }

  /**
   * The definitions of `tokens` are the first d, they end at a marker whose
   * first character is m, and output token i exists.
   */
  predicate EndsAt(tokens: seq<seq<Byte>>, d: nat, m: Byte, i: nat) {
    AllTokensFit(tokens) && Definitions(tokens, 0) == Some(d)
    && tokens[2 * d][0] == m && 2 * d + 1 + i < |tokens|
  }

  /** A run whose definitions end after d of them writes the output of the Map loaded from them. */
  lemma RunIs(tokens: seq<seq<Byte>>, d: nat)
    requires AllTokensFit(tokens) && Definitions(tokens, 0) == Some(d)
    ensures Run(tokens) == Some(Output(tokens, d))
  {
  }

  /** Output token i is the answer of the loaded Map for token 2 * d + 1 + i. */
  lemma OutputAt(tokens: seq<seq<Byte>>, d: nat, i: nat)
    requires AllTokensFit(tokens) && 2 * d + 1 + i < |tokens| && IsMarker(tokens[2 * d])
    ensures Output(tokens, d)[i] == Answer(Get(Loaded(tokens, d), tokens[2 * d + 1 + i]), tokens[2 * d + 1 + i])
  {
    var t := Loaded(tokens, d);
    var rest := tokens[2 * d + 1..];
    TranslateAt(LookupIn(t), rest, i);
    assert rest[i] == tokens[2 * d + 1 + i];
    LookupInIsGet(t, rest[i]);
  }

  /** Output token i of a run is the answer of the loaded Map for token 2 * d + 1 + i. */
  lemma RunAt(tokens: seq<seq<Byte>>, d: nat, i: nat)
    requires AllTokensFit(tokens) && Definitions(tokens, 0) == Some(d) && 2 * d + 1 + i < |tokens|
    ensures Run(tokens).Some? && i < |Run(tokens).value|
    ensures Run(tokens).value[i] == Answer(Get(Loaded(tokens, d), tokens[2 * d + 1 + i]), tokens[2 * d + 1 + i])
  {
    RunIs(tokens, d);
    OutputAt(tokens, d, i);
  }

  lemma LookupInIsGet(t: Table, k: seq<Byte>)
    requires t.capacity > 0 && |t.buckets| == t.capacity
    ensures LookupIn(t)(k) == Get(t, k)
  {
  }

  /** The loaded Map: the run of puts of the definitions, inverted exactly after a '<' marker. */
  lemma LoadedIs(tokens: seq<seq<Byte>>, d: nat)
    requires AllTokensFit(tokens) && 2 * d < |tokens| && IsMarker(tokens[2 * d])
    ensures AllFit(Pairs(tokens, d))
    ensures Loaded(tokens, d) == if tokens[2 * d][0] == LESS then Invert(Build(Pairs(tokens, d))) else Build(Pairs(tokens, d))
  {
    PairsFit(tokens, d);
  }

  /** After a '-' marker the Map looked up is the run of puts of the definitions. */
  lemma RunAtForward(tokens: seq<seq<Byte>>, d: nat, i: nat)
    requires EndsAt(tokens, d, DASH, i)
    ensures AllFit(Pairs(tokens, d)) && Run(tokens).Some? && i < |Run(tokens).value|
    ensures Run(tokens).value[i] == Answer(Get(Build(Pairs(tokens, d)), tokens[2 * d + 1 + i]), tokens[2 * d + 1 + i])
  {
    RunAt(tokens, d, i);
    LoadedIs(tokens, d);
  }

  /** After a '<' marker the Map looked up is the run of puts of the definitions, inverted. */
  lemma RunAtReverse(tokens: seq<seq<Byte>>, d: nat, i: nat)
    requires EndsAt(tokens, d, LESS, i)
    ensures AllFit(Pairs(tokens, d)) && Run(tokens).Some? && i < |Run(tokens).value|
    ensures Run(tokens).value[i] == Answer(Get(Invert(Build(Pairs(tokens, d))), tokens[2 * d + 1 + i]), tokens[2 * d + 1 + i])
  {
    RunAt(tokens, d, i);
    LoadedIs(tokens, d);
  }

  // ------------------------------------------------------------ forward

  /**
   * After a '-' marker and at most DEFAULT_CAPACITY definitions, each token
   * is replaced by the value of its FIRST definition, or gets a '?'.
   */
  lemma RunForward(tokens: seq<seq<Byte>>, d: nat, i: nat)
    requires EndsAt(tokens, d, DASH, i) && d <= DEFAULT_CAPACITY
    ensures Run(tokens).Some? && i < |Run(tokens).value|
    ensures Run(tokens).value[i] == Answer(AssocFirst(Pairs(tokens, d), tokens[2 * d + 1 + i]), tokens[2 * d + 1 + i])
  {
    RunAtForward(tokens, d, i);
    BuildLookup(Pairs(tokens, d), tokens[2 * d + 1 + i]);
  }

  /** After a '-' marker (any number of definitions) a replaced token is one of the values defined for it. */
  lemma RunForwardSound(tokens: seq<seq<Byte>>, d: nat, i: nat)
    requires EndsAt(tokens, d, DASH, i)
    ensures Run(tokens).Some? && i < |Run(tokens).value|
    ensures var tok, out := tokens[2 * d + 1 + i], Run(tokens).value[i];
      out == [QUESTION] + tok || Defines(Pairs(tokens, d), tok, out)
  {
    RunAtForward(tokens, d, i);
    ForwardAnswerSound(Pairs(tokens, d), tokens[2 * d + 1 + i]);
  }


  /** A run of puts answers a token with '?' and the token, or with a value defined for it. */
  lemma ForwardAnswerSound(ps: seq<Pair>, tok: seq<Byte>)
    requires AllFit(ps)
    ensures var out := Answer(Get(Build(ps), tok), tok);
      out == [QUESTION] + tok || Defines(ps, tok, out)
  {
    var found := Get(Build(ps), tok);
    BuildGetSound(ps, tok);
    if found.Some? {
      var q :| 0 <= q < |ps| && ps[q].0 == tok && ps[q].1 == found.value;
      assert ps[q] == (tok, found.value);
    }
  }

  // ------------------------------------------------------------ reverse

  /**
   * After a '<' marker and at most DEFAULT_CAPACITY definitions, each token
   * is replaced by the key of the first node holding it as a value, in the
   * order invert visits the nodes, or gets a '?'.
   */
  lemma RunReverse(tokens: seq<seq<Byte>>, d: nat, i: nat)
    requires EndsAt(tokens, d, LESS, i) && d <= DEFAULT_CAPACITY
    ensures AllFit(Pairs(tokens, d)) && Run(tokens).Some? && i < |Run(tokens).value|
    ensures var tok := tokens[2 * d + 1 + i];
      Run(tokens).value[i] == Answer(FirstKeyFor(Flatten(Build(Pairs(tokens, d)).buckets), tok), tok)
  {
    RunAtReverse(tokens, d, i);
    InvertLookup(Build(Pairs(tokens, d)), tokens[2 * d + 1 + i]);
  }


  /** After a '<' marker (any number of definitions) a replaced token is a key defined with it as value. */
  lemma RunReverseSound(tokens: seq<seq<Byte>>, d: nat, i: nat)
    requires EndsAt(tokens, d, LESS, i)
    ensures Run(tokens).Some? && i < |Run(tokens).value|
    ensures var tok, out := tokens[2 * d + 1 + i], Run(tokens).value[i];
      out == [QUESTION] + tok || Defines(Pairs(tokens, d), out, tok)
  {
    RunAtReverse(tokens, d, i);
    ReverseAnswerSound(Pairs(tokens, d), tokens[2 * d + 1 + i]);
  }


  /** An inverted run of puts answers a token with '?' and the token, or with a key defined with it as value. */
  lemma ReverseAnswerSound(ps: seq<Pair>, tok: seq<Byte>)
    requires AllFit(ps)
    ensures var out := Answer(Get(Invert(Build(ps)), tok), tok);
      out == [QUESTION] + tok || Defines(ps, out, tok)
  {
    var t := Build(ps);
    var found := Get(Invert(t), tok);
    InvertFindsOnlyValues(t, tok);
    if found.Some? {
      var n :| n in Flatten(t.buckets) && NodeValue(n) == tok && NodeKey(n) == found.value;
      StoredNodeIsPair(ps, n);
    }
  }

  /**
   * After a '<' marker and at most DEFAULT_CAPACITY definitions, a token
   * that was defined as a value is always replaced, by a key defined with it.
   */
  lemma RunReverseComplete(tokens: seq<seq<Byte>>, d: nat, i: nat, q: nat)
    requires EndsAt(tokens, d, LESS, i) && d <= DEFAULT_CAPACITY
    requires q < d && tokens[2 * q + 1] == tokens[2 * d + 1 + i]
    ensures Run(tokens).Some? && i < |Run(tokens).value|
    ensures Defines(Pairs(tokens, d), Run(tokens).value[i], tokens[2 * d + 1 + i])
  {
    RunAtReverse(tokens, d, i);
    ReverseAnswerCompleteAt(tokens, d, i, q);
  }


  /** ReverseAnswerComplete, for the pairs and the token of an input. */
  lemma ReverseAnswerCompleteAt(tokens: seq<seq<Byte>>, d: nat, i: nat, q: nat)
    requires 2 * d + 1 + i < |tokens| && AllFit(Pairs(tokens, d)) && d <= DEFAULT_CAPACITY
    requires q < d && tokens[2 * q + 1] == tokens[2 * d + 1 + i]
    ensures var tok := tokens[2 * d + 1 + i];
      Defines(Pairs(tokens, d), Answer(Get(Invert(Build(Pairs(tokens, d))), tok), tok), tok)
  {
    assert Pairs(tokens, d)[q].1 == tokens[2 * q + 1];
    ReverseAnswerComplete(Pairs(tokens, d), tokens[2 * d + 1 + i], q);
  }


  /** An inverted run of at most DEFAULT_CAPACITY puts answers a defined value with a key defined with it. */
  lemma ReverseAnswerComplete(ps: seq<Pair>, tok: seq<Byte>, q: nat)
    requires AllFit(ps) && |ps| <= DEFAULT_CAPACITY && q < |ps| && ps[q].1 == tok
    ensures Defines(ps, Answer(Get(Invert(Build(ps)), tok), tok), tok)
  {
    var ns := Flatten(Build(ps).buckets);
    InvertLookup(Build(ps), tok);
    BuildKeepsEveryPair(ps);
    assert MakeNode(ps[q].0, ps[q].1) in ns;
    FirstKeyForFinds(ns, tok);
    var n :| n in ns && NodeValue(n) == tok && NodeKey(n) == FirstKeyFor(ns, tok).value;
    StoredNodeIsPair(ps, n);
  }
}
