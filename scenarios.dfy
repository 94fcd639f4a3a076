/**
 * Whole runs of the translator on concrete inputs: two definitions
 * (cat -> kaķis, dog -> suns), then a marker and the tokens to translate.
 * Characters are the bytes of their UTF-8 encoding ('ķ' is 0xC4 0xB7).
 */
module Scenarios {
  import opened Options
  import opened CStrings
  import opened Dictionary
  import opened DictionaryProps
  import opened Driver

  const CAT: seq<Byte> := [99, 97, 116]
  const DOG: seq<Byte> := [100, 111, 103]
  const KAKIS: seq<Byte> := [107, 97, 0xC4, 0xB7, 105, 115]
  const SUNS: seq<Byte> := [115, 117, 110, 115]
  const BIRD: seq<Byte> := [98, 105, 114, 100]
  const FORWARD: seq<Byte> := [45, 45, 62]   // "-->"
  const REVERSE: seq<Byte> := [60, 45, 45]   // "<--"

  /** The input "k1 v1 k2 v2 m x y": two definitions, the marker m, and the tokens x and y. */
  ghost predicate TwoDefinitionsThen(tokens: seq<seq<Byte>>, k1: seq<Byte>, v1: seq<Byte>, k2: seq<Byte>, v2: seq<Byte>, m: seq<Byte>, x: seq<Byte>, y: seq<Byte>) {
    && tokens == [k1, v1, k2, v2, m, x, y]
    && AllTokensFit(tokens)
    && !IsMarker(k1) && !IsMarker(k2) && IsMarker(m)
  }

  /** The reference answer of a two-entry dictionary read forwards: the first definition wins. */
  function ForwardAnswer(k1: seq<Byte>, v1: seq<Byte>, k2: seq<Byte>, v2: seq<Byte>, x: seq<Byte>): seq<Byte> {
    if x == k1 then v1 else if x == k2 then v2 else [QUESTION] + x
  }

  /** The reference answer of a two-entry dictionary with distinct values, read backwards. */
  function ReverseAnswer(k1: seq<Byte>, v1: seq<Byte>, k2: seq<Byte>, v2: seq<Byte>, x: seq<Byte>): seq<Byte> {
    if x == v1 then k1 else if x == v2 then k2 else [QUESTION] + x
  }

  /** Such an input holds exactly two definitions, and x and y are the tokens to translate. */
  lemma TwoDefinitions(tokens: seq<seq<Byte>>, k1: seq<Byte>, v1: seq<Byte>, k2: seq<Byte>, v2: seq<Byte>, m: seq<Byte>, x: seq<Byte>, y: seq<Byte>)
    requires TwoDefinitionsThen(tokens, k1, v1, k2, v2, m, x, y)
    ensures Definitions(tokens, 0) == Some(2) && tokens[4] == m
    ensures Pairs(tokens, 2) == [(k1, v1), (k2, v2)]
    ensures tokens[5] == x && tokens[6] == y
  {
    assert Definitions(tokens, 2) == Some(2);
    assert Definitions(tokens, 1) == Some(2);
  }

  /** Read forwards, two definitions answer with the first value defined for the key. */
  lemma AssocFirstOfTwo(ps: seq<Pair>, k1: seq<Byte>, v1: seq<Byte>, k2: seq<Byte>, v2: seq<Byte>, k: seq<Byte>)
    requires ps == [(k1, v1), (k2, v2)]
    ensures Answer(AssocFirst(ps, k), k) == ForwardAnswer(k1, v1, k2, v2, k)
  {
    assert ps[1..] == [(k2, v2)];
    assert AssocFirst(ps[1..][1..], k) == None;
    assert AssocFirst(ps[1..], k) == if k == k2 then Some(v2) else None;
  }

  /** Of two definitions with distinct values, only the one with value v defines a key for v. */
  lemma DefinesOfTwo(ps: seq<Pair>, k1: seq<Byte>, v1: seq<Byte>, k2: seq<Byte>, v2: seq<Byte>, k: seq<Byte>, v: seq<Byte>)
    requires ps == [(k1, v1), (k2, v2)] && v1 != v2
    ensures Defines(ps, k, v) <==> (v == v1 && k == k1) || (v == v2 && k == k2)
  {
    if Defines(ps, k, v) {
      var q :| 0 <= q < |ps| && ps[q] == (k, v);
      assert q == 0 || q == 1;
    }
    if v == v1 && k == k1 {
      assert ps[0] == (k, v);
    }
    if v == v2 && k == k2 {
      assert ps[1] == (k, v);
    }
  }

  /** The inverted Map of two definitions with distinct values answers with the reverse reference answer. */
  lemma ReverseAnswerOfTwo(ps: seq<Pair>, k1: seq<Byte>, v1: seq<Byte>, k2: seq<Byte>, v2: seq<Byte>, k: seq<Byte>)
    requires ps == [(k1, v1), (k2, v2)] && AllFit(ps) && v1 != v2
    ensures Answer(Get(Invert(Build(ps)), k), k) == ReverseAnswer(k1, v1, k2, v2, k)
  {
    var out := Answer(Get(Invert(Build(ps)), k), k);
    DefinesOfTwo(ps, k1, v1, k2, v2, out, k);
    if k == v1 {
      ReverseAnswerComplete(ps, k, 0);
    } else if k == v2 {
      ReverseAnswerComplete(ps, k, 1);
    } else {
      ReverseAnswerSound(ps, k);
    }
  }

  /** After a '-' marker, token x (i = 0) or y (i = 1) gets its forward reference answer. */
  lemma ForwardAt(tokens: seq<seq<Byte>>, k1: seq<Byte>, v1: seq<Byte>, k2: seq<Byte>, v2: seq<Byte>, m: seq<Byte>, x: seq<Byte>, y: seq<Byte>, i: nat)
    requires TwoDefinitionsThen(tokens, k1, v1, k2, v2, m, x, y) && m[0] == DASH && i < 2
    ensures Run(tokens).Some? && |Run(tokens).value| == 2
    ensures Run(tokens).value[i] == ForwardAnswer(k1, v1, k2, v2, tokens[5 + i])
  {
    TwoDefinitions(tokens, k1, v1, k2, v2, m, x, y);
    RunForward(tokens, 2, i);
    AssocFirstOfTwo(Pairs(tokens, 2), k1, v1, k2, v2, tokens[5 + i]);
  }

  /** After a '<' marker and two distinct values, token x (i = 0) or y (i = 1) gets its reverse reference answer. */
  lemma ReverseAt(tokens: seq<seq<Byte>>, k1: seq<Byte>, v1: seq<Byte>, k2: seq<Byte>, v2: seq<Byte>, m: seq<Byte>, x: seq<Byte>, y: seq<Byte>, i: nat)
    requires TwoDefinitionsThen(tokens, k1, v1, k2, v2, m, x, y) && m[0] == LESS && v1 != v2 && i < 2
    ensures Run(tokens).Some? && |Run(tokens).value| == 2
    ensures Run(tokens).value[i] == ReverseAnswer(k1, v1, k2, v2, tokens[5 + i])
  {
    TwoDefinitions(tokens, k1, v1, k2, v2, m, x, y);
    RunAtReverse(tokens, 2, i);
    ReverseAnswerOfTwo(Pairs(tokens, 2), k1, v1, k2, v2, tokens[5 + i]);
  }

  lemma PairIs(s: seq<seq<Byte>>, a: seq<Byte>, b: seq<Byte>)
    requires |s| == 2 && s[0] == a && s[1] == b
    ensures s == [a, b]
  {
  }

  /** Two definitions, a '-' marker and two tokens: the run writes the two forward reference answers. */
  lemma ForwardTwo(tokens: seq<seq<Byte>>, k1: seq<Byte>, v1: seq<Byte>, k2: seq<Byte>, v2: seq<Byte>, m: seq<Byte>, x: seq<Byte>, y: seq<Byte>)
    requires TwoDefinitionsThen(tokens, k1, v1, k2, v2, m, x, y) && m[0] == DASH
    ensures Run(tokens) == Some([ForwardAnswer(k1, v1, k2, v2, x), ForwardAnswer(k1, v1, k2, v2, y)])
  {
    ForwardAt(tokens, k1, v1, k2, v2, m, x, y, 0);
    ForwardAt(tokens, k1, v1, k2, v2, m, x, y, 1);
    PairIs(Run(tokens).value, ForwardAnswer(k1, v1, k2, v2, x), ForwardAnswer(k1, v1, k2, v2, y));
  }

  /** Two definitions with distinct values, a '<' marker and two tokens: the run writes the two reverse reference answers. */
  lemma ReverseTwo(tokens: seq<seq<Byte>>, k1: seq<Byte>, v1: seq<Byte>, k2: seq<Byte>, v2: seq<Byte>, m: seq<Byte>, x: seq<Byte>, y: seq<Byte>)
    requires TwoDefinitionsThen(tokens, k1, v1, k2, v2, m, x, y) && m[0] == LESS && v1 != v2
    ensures Run(tokens) == Some([ReverseAnswer(k1, v1, k2, v2, x), ReverseAnswer(k1, v1, k2, v2, y)])
  {
    ReverseAt(tokens, k1, v1, k2, v2, m, x, y, 0);
    ReverseAt(tokens, k1, v1, k2, v2, m, x, y, 1);
    PairIs(Run(tokens).value, ReverseAnswer(k1, v1, k2, v2, x), ReverseAnswer(k1, v1, k2, v2, y));
  }

  /** "cat kaķis dog suns --> kaķis dog": kaķis is no key, dog is; the run writes "?kaķis suns". */
  lemma ForwardScenario()
    ensures Run([CAT, KAKIS, DOG, SUNS, FORWARD, KAKIS, DOG]) == Some([[QUESTION] + KAKIS, SUNS])
  {
    ForwardTwo([CAT, KAKIS, DOG, SUNS, FORWARD, KAKIS, DOG], CAT, KAKIS, DOG, SUNS, FORWARD, KAKIS, DOG);
  }

  /** "cat kaķis dog suns --> bird cat": a token with no definition is written as "?bird". */
  lemma UnknownScenario()
    ensures Run([CAT, KAKIS, DOG, SUNS, FORWARD, BIRD, CAT]) == Some([[QUESTION] + BIRD, KAKIS])
  {
    ForwardTwo([CAT, KAKIS, DOG, SUNS, FORWARD, BIRD, CAT], CAT, KAKIS, DOG, SUNS, FORWARD, BIRD, CAT);
  }

  /** "cat kaķis dog suns <-- cat dog": after invert cat and dog are no keys; the run writes "?cat ?dog". */
  lemma ReverseScenarioUnknown()
    ensures Run([CAT, KAKIS, DOG, SUNS, REVERSE, CAT, DOG]) == Some([[QUESTION] + CAT, [QUESTION] + DOG])
  {
    ReverseTwo([CAT, KAKIS, DOG, SUNS, REVERSE, CAT, DOG], CAT, KAKIS, DOG, SUNS, REVERSE, CAT, DOG);
  }

  /** "cat kaķis dog suns <-- suns kaķis": the values are translated back to their keys, "dog cat". */
  lemma ReverseScenarioKnown()
    ensures Run([CAT, KAKIS, DOG, SUNS, REVERSE, SUNS, KAKIS]) == Some([DOG, CAT])
  {
    ReverseTwo([CAT, KAKIS, DOG, SUNS, REVERSE, SUNS, KAKIS], CAT, KAKIS, DOG, SUNS, REVERSE, SUNS, KAKIS);
  }
}
